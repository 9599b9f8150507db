/** The decorator that serves one book. It accepts a URL made of at least one
    newline-free character, then `/books/`, then a non-empty segment without
    '/'. It takes that segment as the ISBN and serves the fixture
    `<mocksDir>/books/<isbn>.json`, or throws when that file does not exist.
    Every other request goes to the factory it wraps. */
module BookItem {
  import opened Responses
  import Patterns

  /** `#^.+/books/([^/]+)$#` accepts `url` with `isbn` as its capture. The
      capture class `[^/]` does match a newline, so a final newline ends up
      inside the capture and `$`'s other reading adds no match. */
  ghost predicate PatternCaptures(url: string, isbn: string) {
    |isbn| >= 1 && '/' !in isbn && Patterns.LeadsTo(url, "/books/" + isbn)
  }

  ghost predicate PatternAccepts(url: string) {
    exists isbn :: PatternCaptures(url, isbn)
  }

  /** The `preg_match` call: the capture when the URL matches. It is the
      URL's last path segment: non-empty, free of '/', preceded by a '/'. */
  function Capture(url: string): (isbn: Option<string>)
    ensures isbn.Some? ==> |isbn.value| >= 1 && '/' !in isbn.value
    ensures isbn.Some? ==> |isbn.value| < |url| && url[|url| - |isbn.value|..] == isbn.value
                           && url[|url| - |isbn.value| - 1] == '/'
  {
    var isbn := Patterns.LastSegment(url);
    if |isbn| >= 1 && Patterns.EndsAfterLead(url[..|url| - |isbn|], "/books/") then Some(isbn)
    else None
  }

  /** Every capture `Capture` reports is one the pattern makes. */
  lemma CaptureSound(url: string, isbn: string)
    requires Capture(url) == Some(isbn)
    ensures PatternCaptures(url, isbn)
  {
    var head := url[..|url| - |isbn|];
    assert url == head + isbn;
    assert Patterns.EndsAfterLead(head, "/books/");
    Patterns.EndsAfterLeadDecides(head, "/books/");
    Patterns.LeadsToExtended(head, "/books/", isbn);
  }

  /** Every capture the pattern makes is the one `Capture` reports. */
  lemma CaptureComplete(url: string, isbn: string)
    requires PatternCaptures(url, isbn)
    ensures Capture(url) == Some(isbn)
  {
    var lead :| |lead| >= 1 && '\n' !in lead && url == lead + ("/books/" + isbn);
    assert url == lead + "/books/" + isbn;
    RouteCaptures(lead, isbn);
  }

  /** A book route behind any newline-free prefix captures its last segment. */
  lemma RouteCaptures(prefix: string, isbn: string)
    requires |prefix| >= 1 && '\n' !in prefix
    requires |isbn| >= 1 && '/' !in isbn
    ensures Capture(prefix + "/books/" + isbn) == Some(isbn)
  {
    var url, head := prefix + "/books/" + isbn, prefix + "/books/";
    RouteLastSegment(prefix, isbn);
    assert url[..|url| - |isbn|] == head;
    assert head[..|prefix|] == prefix && head[|prefix|..] == "/books/";
  }

  lemma RouteLastSegment(lead: string, isbn: string)
    requires '/' !in isbn
    ensures Patterns.LastSegment(lead + "/books/" + isbn) == isbn
  {
    Patterns.LastSegmentAfterSlash(lead + "/books/", isbn);
  }

  /** Whenever the URL matches, the ISBN is its last path segment. */
  lemma CaptureIsLastSegment(url: string)
    ensures Capture(url).Some? ==> Capture(url) == Some(Patterns.LastSegment(url))
  {
  }

  /** `Capture` is exactly the pattern's capture, in both directions. */
  lemma CaptureIsPatternCapture(url: string, isbn: string)
    ensures Capture(url) == Some(isbn) <==> PatternCaptures(url, isbn)
  {
    if Capture(url) == Some(isbn) { CaptureSound(url, isbn); }
    if PatternCaptures(url, isbn) { CaptureComplete(url, isbn); }
  }

  /** The fixture for one book. */
  function FixturePath(mocksDir: string, isbn: string): string {
    mocksDir + "/books/" + isbn + ".json"
  }

  /** Each book has a fixture of its own: two ISBNs never share a path. */
  lemma BooksHaveDistinctFixtures(mocksDir: string, i1: string, i2: string)
    requires i1 != i2
    ensures FixturePath(mocksDir, i1) != FixturePath(mocksDir, i2)
  {
    var p1, p2 := FixturePath(mocksDir, i1), FixturePath(mocksDir, i2);
    var k := |mocksDir| + 7;
    if |i1| == |i2| {
      assert p1[k..k + |i1|] == i1;
      assert p2[k..k + |i2|] == i2;
    }
  }

  /** The message names the missing path, so two missing fixtures are told apart. */
  lemma MissingFileMessageNamesPath(p1: string, p2: string)
    requires p1 != p2
    ensures MissingFileMessage(p1) != MissingFileMessage(p2)
  {
    var m1, m2 := MissingFileMessage(p1), MissingFileMessage(p2);
    if |p1| == |p2| {
      assert m1[6..6 + |p1|] == p1;
      assert m2[6..6 + |p2|] == p2;
    }
  }

  /** The message of the exception thrown for a missing fixture. */
  function MissingFileMessage(path: string): string {
    "File \"" + path + "\" does not exist"
  }

  /** The factory. A matching URL is answered from its book's fixture, or
      throws when that file does not exist; anything else is handed to `next`
      with the same method, URL and options, without looking at `fs`. */
  function Invoke(next: Factory, fs: FileSystem, mocksDir: string,
                  httpMethod: string, url: string, options: Options): (r: Outcome)
    ensures !PatternAccepts(url) ==> r == next(httpMethod, url, options)
    ensures forall isbn :: PatternCaptures(url, isbn) && FixturePath(mocksDir, isbn) in fs ==>
              r == Responded(FromFile(FixturePath(mocksDir, isbn)))
    ensures forall isbn :: PatternCaptures(url, isbn) && FixturePath(mocksDir, isbn) !in fs ==>
              r == Thrown(MissingFileMessage(FixturePath(mocksDir, isbn)))
  {
    forall isbn ensures Capture(url) == Some(isbn) <==> PatternCaptures(url, isbn) {
      CaptureIsPatternCapture(url, isbn);
    }
    match Capture(url)
    case None => next(httpMethod, url, options)
    case Some(isbn) =>
      var file := FixturePath(mocksDir, isbn);
      if file !in fs then Thrown(MissingFileMessage(file))
      else Responded(FromFile(FixturePath(mocksDir, isbn)))
  }

  /** A response from this factory on a matching URL is always served from a
      file that exists: the path answered is the path checked. */
  lemma ServedFileExists(next: Factory, fs: FileSystem, mocksDir: string,
                         httpMethod: string, url: string, options: Options)
    requires PatternAccepts(url)
    ensures var r := Invoke(next, fs, mocksDir, httpMethod, url, options);
            r.Responded? ==> r.response.FromFile? && r.response.path in fs
  {
  }

  /** On a match the answer does not depend on the method, the options or the
      wrapped factory, which is never called. */
  lemma MatchIgnoresMethodOptionsAndNext(n1: Factory, n2: Factory, fs: FileSystem, mocksDir: string,
                                         m1: string, m2: string, url: string, o1: Options, o2: Options)
    requires PatternAccepts(url)
    ensures Invoke(n1, fs, mocksDir, m1, url, o1) == Invoke(n2, fs, mocksDir, m2, url, o2)
  {
  }

  /** Off the pattern, the file system is never consulted. */
  lemma NonMatchIgnoresFileSystem(next: Factory, fs1: FileSystem, fs2: FileSystem, mocksDir: string,
                                  httpMethod: string, url: string, options: Options)
    requires !PatternAccepts(url)
    ensures Invoke(next, fs1, mocksDir, httpMethod, url, options) == Invoke(next, fs2, mocksDir, httpMethod, url, options)
  {
  }

  /** A URL is rejected when the text before its last segment does not end in `/books/` after a lead. */
  lemma RejectedByParent(url: string, head: string, seg: string)
    requires url == head + seg && Patterns.LastSegment(url) == seg
    requires !Patterns.EndsAfterLead(head, "/books/")
    ensures Capture(url) == None
  {
    assert url[..|url| - |seg|] == head;
  }

  /** URLs that look like a book route but are not: nothing before `/books/`,
      nothing after it, or more than one segment after it. */
  lemma EmptyLeadRejected()
    ensures Capture("/books/x") == None
  {
    Patterns.LastSegmentAfterSlash("/books/", "x");
    assert "/books/x" == "/books/" + "x";
    assert !Patterns.EndsAfterLead("/books/", "/books/");
  }

  lemma EmptySegmentRejected()
    ensures Capture("a/books/") == None
  {
    Patterns.LastSegmentAfterSlash("a/books/", "");
    assert "a/books/" == "a/books/" + "";
  }

  lemma NestedSegmentRejected()
    ensures Capture("a/books/x/y") == None
  {
    Patterns.LastSegmentAfterSlash("a/books/x/", "y");
    assert "a/books/x/y" == "a/books/x/" + "y";
    var head := "a/books/x/";
    assert head[|head| - 7..] != "/books/" by { assert head[|head| - 7] == 'o'; }
    assert !Patterns.EndsAfterLead(head, "/books/");
  }
}
