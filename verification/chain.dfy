/** The chain of response factories: decorators wrapped one around the next,
    the outermost getting first refusal, and the 501 factory at the end.
    Which decorator wraps which is set outside the code, so the order is a
    parameter here. */
module Chain {
  import opened Responses
  import NotImplemented
  import BookCollection
  import BookItem
  import Patterns

  /** One decorator of the chain, with the fixture directory it was given. */
  datatype Decorator = Collection(mocksDir: string) | Item(mocksDir: string)

  /** The chain `links[0]( links[1]( ... (NotImplemented) ) )` applied to one request. */
  function Resolve(links: seq<Decorator>, fs: FileSystem,
                   httpMethod: string, url: string, options: Options): Outcome
    decreases |links|
  {
    if links == [] then NotImplemented.Invoke(httpMethod, url, options)
    else
      var next: Factory := (m, u, o) => Resolve(links[1..], fs, m, u, o);
      match links[0]
      case Collection(dir) => BookCollection.Invoke(next, dir, httpMethod, url, options)
      case Item(dir) => BookItem.Invoke(next, fs, dir, httpMethod, url, options)
  }

  /** Whether decorator `d` answers for `url` itself instead of passing it on. */
  predicate Claims(d: Decorator, url: string) {
    match d
    case Collection(_) => BookCollection.Matches(url)
    case Item(_) => BookItem.Capture(url).Some?
  }

  /** A decorator claims exactly the URLs its pattern accepts. */
  lemma ClaimsIsPattern(d: Decorator, url: string)
    ensures d.Collection? ==> (Claims(d, url) <==> BookCollection.PatternAccepts(url))
    ensures d.Item? ==> (Claims(d, url) <==> BookItem.PatternAccepts(url))
  {
    BookCollection.MatchesDecides(url);
    if d.Item? {
      if Claims(d, url) {
        BookItem.CaptureSound(url, BookItem.Capture(url).value);
      }
      if BookItem.PatternAccepts(url) {
        var isbn :| BookItem.PatternCaptures(url, isbn);
        BookItem.CaptureComplete(url, isbn);
      }
    }
  }

  /** The position of the link that answers: the first that claims the URL,
      or `|links|` when none does and the 501 factory answers. */
  function Responder(links: seq<Decorator>, url: string): (k: nat)
    ensures k <= |links|
    ensures forall j :: 0 <= j < k ==> !Claims(links[j], url)
    ensures k < |links| ==> Claims(links[k], url)
  {
    if links == [] || Claims(links[0], url) then 0
    else
      var k := Responder(links[1..], url);
      assert forall j :: 1 <= j <= k && j < |links| ==> links[j] == links[1..][j - 1];
      1 + k
  }

  /** A decorator that does not claim the URL hands the request, unchanged, to the rest of the chain. */
  lemma PassesOn(d: Decorator, rest: seq<Decorator>, fs: FileSystem,
                 httpMethod: string, url: string, options: Options)
    requires !Claims(d, url)
    ensures Resolve([d] + rest, fs, httpMethod, url, options) == Resolve(rest, fs, httpMethod, url, options)
  {
    ClaimsIsPattern(d, url);
    assert ([d] + rest)[1..] == rest;
  }

  /** A decorator that claims the URL answers alone: what follows it is never called. */
  lemma ClaimantIgnoresRest(d: Decorator, rest: seq<Decorator>, fs: FileSystem,
                            httpMethod: string, url: string, options: Options)
    requires Claims(d, url)
    ensures Resolve([d] + rest, fs, httpMethod, url, options) == Resolve([d], fs, httpMethod, url, options)
  {
    ClaimsIsPattern(d, url);
    assert ([d] + rest)[0] == d;
  }

  /** Exactly one link answers: the first that claims the URL, as if it
      alone stood before the 501 factory; when none claims, the 501 factory. */
  lemma {:induction false} ResponderAnswers(links: seq<Decorator>, fs: FileSystem,
                                            httpMethod: string, url: string, options: Options)
    ensures var k := Responder(links, url);
            Resolve(links, fs, httpMethod, url, options)
            == if k == |links| then NotImplemented.Invoke(httpMethod, url, options)
               else Resolve([links[k]], fs, httpMethod, url, options)
  {
    if links != [] {
      if Claims(links[0], url) {
        FirstLinkAnswers(links, fs, httpMethod, url, options);
      } else {
        FirstLinkPasses(links, fs, httpMethod, url, options);
        ResponderAnswers(links[1..], fs, httpMethod, url, options);
      }
    }
  }

  lemma FirstLinkAnswers(links: seq<Decorator>, fs: FileSystem,
                         httpMethod: string, url: string, options: Options)
    requires links != [] && Claims(links[0], url)
    ensures Responder(links, url) == 0
    ensures Resolve(links, fs, httpMethod, url, options) == Resolve([links[0]], fs, httpMethod, url, options)
  {
    assert links == [links[0]] + links[1..];
    ClaimantIgnoresRest(links[0], links[1..], fs, httpMethod, url, options);
  }

  lemma FirstLinkPasses(links: seq<Decorator>, fs: FileSystem,
                        httpMethod: string, url: string, options: Options)
    requires links != [] && !Claims(links[0], url)
    ensures Responder(links, url) == 1 + Responder(links[1..], url)
    ensures Responder(links[1..], url) < |links[1..]| ==> links[1..][Responder(links[1..], url)] == links[Responder(links, url)]
    ensures Resolve(links, fs, httpMethod, url, options) == Resolve(links[1..], fs, httpMethod, url, options)
  {
    assert links == [links[0]] + links[1..];
    PassesOn(links[0], links[1..], fs, httpMethod, url, options);
  }

  /** A request no decorator claims gets the 501 response naming its URL and method. */
  lemma UnclaimedGetsNotImplemented(links: seq<Decorator>, fs: FileSystem,
                                    httpMethod: string, url: string, options: Options)
    requires forall j :: 0 <= j < |links| ==> !Claims(links[j], url)
    ensures Resolve(links, fs, httpMethod, url, options)
            == Responded(Inline(NotImplemented.Body(url, httpMethod), NotImplemented.HttpNotImplemented))
  {
    ResponderAnswers(links, fs, httpMethod, url, options);
  }

  /** The chain throws exactly when the answering link is a book decorator whose fixture is missing. */
  lemma ThrowsOnlyForMissingBook(links: seq<Decorator>, fs: FileSystem,
                                 httpMethod: string, url: string, options: Options)
    ensures var k := Responder(links, url);
            Resolve(links, fs, httpMethod, url, options).Thrown?
            <==> k < |links| && links[k].Item?
                 && BookItem.FixturePath(links[k].mocksDir, BookItem.Capture(url).value) !in fs
  {
    ResponderAnswers(links, fs, httpMethod, url, options);
    var k := Responder(links, url);
    if k < |links| {
      ClaimsIsPattern(links[k], url);
      if links[k].Item? {
        BookItem.CaptureSound(url, BookItem.Capture(url).value);
      }
    }
  }

  /** The last segment of a URL the collection pattern accepts is `new`,
      with the final newline when `$` let one through. */
  lemma CollectionLastSegment(url: string)
    requires BookCollection.Matches(url)
    ensures Patterns.LastSegment(url) == "new" || Patterns.LastSegment(url) == "new\n"
  {
    assert "/" + "new" == "/new" && "/" + "new\n" == "/new\n";
    BookCollection.MatchesDecides(url);
    if Patterns.LeadsTo(url, "/new") {
      Patterns.LastSegmentAfterLead(url, "new");
    } else {
      Patterns.LastSegmentAfterLead(url, "new\n");
    }
  }

  /** A URL both patterns accept has `new` as its book capture, followed by
      the final newline when there is one. */
  lemma BothClaimCapturesNew(dir1: string, dir2: string, url: string)
    requires Claims(Collection(dir1), url) && Claims(Item(dir2), url)
    ensures BookItem.Capture(url) == Some("new") || BookItem.Capture(url) == Some("new\n")
  {
    CollectionLastSegment(url);
    BookItem.CaptureIsLastSegment(url);
  }

  /** A URL the book pattern captures as `new` (with or without a final
      newline) is accepted by the collection pattern as well. */
  lemma CapturedNewClaimedByBoth(dir1: string, dir2: string, url: string)
    requires BookItem.Capture(url) == Some("new") || BookItem.Capture(url) == Some("new\n")
    ensures Claims(Collection(dir1), url) && Claims(Item(dir2), url)
  {
    var seg := BookItem.Capture(url).value;
    BookItem.CaptureSound(url, seg);
    CollectionAcceptsBooksNew(url, seg);
    BookCollection.MatchesDecides(url);
  }

  lemma CollectionAcceptsBooksNew(url: string, seg: string)
    requires seg == "new" || seg == "new\n"
    requires Patterns.LeadsTo(url, "/books/" + seg)
    ensures BookCollection.PatternAccepts(url)
  {
    if seg == "new" {
      assert "/books/" + seg == "/books" + "/new";
      Patterns.LeadAbsorbs(url, "/books", "/new");
    } else {
      assert "/books/" + seg == "/books" + "/new\n";
      Patterns.LeadAbsorbs(url, "/books", "/new\n");
    }
  }

  /** The two patterns overlap on exactly the URLs whose book capture is `new`. */
  lemma BothClaimIff(dir1: string, dir2: string, url: string)
    ensures Claims(Collection(dir1), url) && Claims(Item(dir2), url)
            <==> BookItem.Capture(url) == Some("new") || BookItem.Capture(url) == Some("new\n")
  {
    if Claims(Collection(dir1), url) && Claims(Item(dir2), url) {
      BothClaimCapturesNew(dir1, dir2, url);
    }
    if BookItem.Capture(url) == Some("new") || BookItem.Capture(url) == Some("new\n") {
      CapturedNewClaimedByBoth(dir1, dir2, url);
    }
  }

  /** A chain that starts with two links is its first link before the rest.
      Kept apart so that the sequence reasoning is not done where `Resolve` is unfolded. */
  lemma PairThenRest(d1: Decorator, d2: Decorator, rest: seq<Decorator>)
    ensures [d1, d2] + rest == [d1] + ([d2] + rest)
  {
  }

  /** Two neighbours that both pass the request on leave it to the rest of the chain. */
  lemma PairPassesOn(d1: Decorator, d2: Decorator, rest: seq<Decorator>, fs: FileSystem,
                     httpMethod: string, url: string, options: Options)
    requires !Claims(d1, url) && !Claims(d2, url)
    ensures Resolve([d1, d2] + rest, fs, httpMethod, url, options) == Resolve(rest, fs, httpMethod, url, options)
  {
    PairThenRest(d1, d2, rest);
    PassesOn(d1, [d2] + rest, fs, httpMethod, url, options);
    PassesOn(d2, rest, fs, httpMethod, url, options);
  }

  /** When the outer of two neighbours claims, it answers alone. */
  lemma PairFirstAnswers(d1: Decorator, d2: Decorator, rest: seq<Decorator>, fs: FileSystem,
                         httpMethod: string, url: string, options: Options)
    requires Claims(d1, url)
    ensures Resolve([d1, d2] + rest, fs, httpMethod, url, options) == Resolve([d1], fs, httpMethod, url, options)
  {
    PairThenRest(d1, d2, rest);
    ClaimantIgnoresRest(d1, [d2] + rest, fs, httpMethod, url, options);
  }

  /** When only the inner of two neighbours claims, it answers alone. */
  lemma PairSecondAnswers(d1: Decorator, d2: Decorator, rest: seq<Decorator>, fs: FileSystem,
                          httpMethod: string, url: string, options: Options)
    requires !Claims(d1, url) && Claims(d2, url)
    ensures Resolve([d1, d2] + rest, fs, httpMethod, url, options) == Resolve([d2], fs, httpMethod, url, options)
  {
    PairThenRest(d1, d2, rest);
    PassesOn(d1, [d2] + rest, fs, httpMethod, url, options);
    ClaimantIgnoresRest(d2, rest, fs, httpMethod, url, options);
  }

  /** Swapping two neighbouring decorators changes nothing for a URL that at most one of them claims. */
  lemma SwapHarmlessUnlessBothClaim(d1: Decorator, d2: Decorator, rest: seq<Decorator>, fs: FileSystem,
                                    httpMethod: string, url: string, options: Options)
    requires !(Claims(d1, url) && Claims(d2, url))
    ensures Resolve([d1, d2] + rest, fs, httpMethod, url, options)
            == Resolve([d2, d1] + rest, fs, httpMethod, url, options)
  {
    if Claims(d1, url) {
      PairFirstAnswers(d1, d2, rest, fs, httpMethod, url, options);
      PairSecondAnswers(d2, d1, rest, fs, httpMethod, url, options);
    } else if Claims(d2, url) {
      PairSecondAnswers(d1, d2, rest, fs, httpMethod, url, options);
      PairFirstAnswers(d2, d1, rest, fs, httpMethod, url, options);
    } else {
      PairPassesOn(d1, d2, rest, fs, httpMethod, url, options);
      PairPassesOn(d2, d1, rest, fs, httpMethod, url, options);
    }
  }

  /** The book decorator never answers with the collection fixture. */
  lemma BookNeverCollectionFixture(dir: string, fs: FileSystem, httpMethod: string, url: string, options: Options)
    requires Claims(Item(dir), url)
    ensures Resolve([Item(dir)], fs, httpMethod, url, options) != Responded(FromFile(dir + "/new.json"))
  {
    var isbn := BookItem.Capture(url).value;
    BookItem.CaptureSound(url, isbn);
    var book := BookItem.FixturePath(dir, isbn);
    assert book[|dir| + 1] == 'b' && (dir + "/new.json")[|dir| + 1] == 'n';
  }

  /** On a URL both patterns accept, the order decides: the collection
      fixture when the collection decorator is outermost, the book fixture
      (or a missing-file error) when the book decorator is. */
  lemma OverlapOrderMatters(dir: string, fs: FileSystem, httpMethod: string, url: string, options: Options)
    requires Claims(Collection(dir), url) && Claims(Item(dir), url)
    ensures Resolve([Collection(dir), Item(dir)], fs, httpMethod, url, options)
            == Responded(FromFile(dir + "/new.json"))
    ensures Resolve([Item(dir), Collection(dir)], fs, httpMethod, url, options)
            == Resolve([Item(dir)], fs, httpMethod, url, options)
    ensures Resolve([Item(dir), Collection(dir)], fs, httpMethod, url, options)
            != Responded(FromFile(dir + "/new.json"))
  {
    assert [Collection(dir), Item(dir)] == [Collection(dir)] + [Item(dir)];
    assert [Item(dir), Collection(dir)] == [Item(dir)] + [Collection(dir)];
    ClaimantIgnoresRest(Collection(dir), [Item(dir)], fs, httpMethod, url, options);
    ClaimantIgnoresRest(Item(dir), [Collection(dir)], fs, httpMethod, url, options);
    ClaimsIsPattern(Collection(dir), url);
    BookNeverCollectionFixture(dir, fs, httpMethod, url, options);
  }

  /** The overlap is real: `<prefix>/books/new` is accepted by both patterns. */
  lemma OverlapExists(dir: string, prefix: string)
    requires |prefix| >= 1 && '\n' !in prefix
    ensures Claims(Collection(dir), prefix + "/books/new") && Claims(Item(dir), prefix + "/books/new")
  {
    BookItem.RouteCaptures(prefix, "new");
    assert prefix + "/books/new" == prefix + "/books/" + "new";
    CapturedNewClaimedByBoth(dir, dir, prefix + "/books/new");
  }

  /** The two decorators of the repository, in either order. */
  predicate BothDecorators(links: seq<Decorator>, dir: string) {
    links == [Collection(dir), Item(dir)] || links == [Item(dir), Collection(dir)]
  }

  /** With both decorators present, a URL only the collection pattern accepts gets the collection fixture. */
  lemma OnlyCollectionClaims(links: seq<Decorator>, dir: string, fs: FileSystem,
                             httpMethod: string, url: string, options: Options)
    requires BothDecorators(links, dir)
    requires Claims(Collection(dir), url) && !Claims(Item(dir), url)
    ensures Resolve(links, fs, httpMethod, url, options) == Responded(FromFile(dir + "/new.json"))
  {
    assert [Collection(dir), Item(dir)] == [Collection(dir)] + [Item(dir)];
    SwapHarmlessUnlessBothClaim(Collection(dir), Item(dir), [], fs, httpMethod, url, options);
    ClaimantIgnoresRest(Collection(dir), [Item(dir)], fs, httpMethod, url, options);
    ClaimsIsPattern(Collection(dir), url);
  }

  /** With both decorators present, a URL only the book pattern accepts gets its book's fixture when it exists. */
  lemma OnlyItemClaims(links: seq<Decorator>, dir: string, fs: FileSystem,
                       httpMethod: string, url: string, options: Options, isbn: string)
    requires BothDecorators(links, dir)
    requires !Claims(Collection(dir), url) && BookItem.Capture(url) == Some(isbn)
    requires BookItem.FixturePath(dir, isbn) in fs
    ensures Resolve(links, fs, httpMethod, url, options) == Responded(FromFile(BookItem.FixturePath(dir, isbn)))
  {
    BookAlone(dir, fs, httpMethod, url, options, isbn);
    if links == [Item(dir), Collection(dir)] {
      assert links == [Item(dir)] + [Collection(dir)];
      ClaimantIgnoresRest(Item(dir), [Collection(dir)], fs, httpMethod, url, options);
    } else {
      assert links == [Collection(dir)] + [Item(dir)];
      PassesOn(Collection(dir), [Item(dir)], fs, httpMethod, url, options);
    }
  }

  /** The book decorator alone before the 501 factory serves a captured book whose fixture exists. */
  lemma BookAlone(dir: string, fs: FileSystem, httpMethod: string, url: string, options: Options, isbn: string)
    requires BookItem.Capture(url) == Some(isbn) && BookItem.FixturePath(dir, isbn) in fs
    ensures Resolve([Item(dir)], fs, httpMethod, url, options) == Responded(FromFile(BookItem.FixturePath(dir, isbn)))
  {
    BookItem.CaptureSound(url, isbn);
  }

  /** Any newline-free lead followed by `/new` is claimed by the collection decorator. */
  lemma CollectionClaimsRoute(dir: string, prefix: string)
    requires |prefix| >= 1 && '\n' !in prefix
    ensures Claims(Collection(dir), prefix + "/new")
  {
    assert Patterns.LeadsTo(prefix + "/new", "/new");
    BookCollection.MatchesDecides(prefix + "/new");
  }

  lemma NewRouteClaimedByCollection(dir: string, url: string)
    requires url == "https://example.com/1.0/new"
    ensures Claims(Collection(dir), url)
  {
    var prefix := "https://example.com/1.0";
    assert '\n' !in prefix;
    assert url == prefix + "/new";
    CollectionClaimsRoute(dir, prefix);
  }

  lemma NewRouteNotClaimedByItem(dir: string, url: string)
    requires url == "https://example.com/1.0/new"
    ensures !Claims(Item(dir), url)
  {
    var head := "https://example.com/1.0/";
    assert url == head + "new";
    Patterns.LastSegmentAfterSlash(head, "new");
    assert head[|head| - 7] == 'o';
    BookItem.RejectedByParent(url, head, "new");
  }

  /** The command's default request, `GET /1.0/new` resolved against the base
      URI, is served from the collection fixture, whatever the order. */
  lemma ExampleCollection(links: seq<Decorator>, dir: string, fs: FileSystem, url: string, options: Options)
    requires BothDecorators(links, dir) && url == "https://example.com/1.0/new"
    ensures Resolve(links, fs, "GET", url, options) == Responded(FromFile(dir + "/new.json"))
  {
    NewRouteClaimedByCollection(dir, url);
    NewRouteNotClaimedByItem(dir, url);
    OnlyCollectionClaims(links, dir, fs, "GET", url, options);
  }

  /** A URL whose last character is neither `w` nor a newline cannot end in `/new`. */
  lemma CollectionRejectsByLastChar(dir: string, url: string)
    requires |url| >= 1 && url[|url| - 1] != 'w' && url[|url| - 1] != '\n'
    ensures !Claims(Collection(dir), url)
  {
  }

  lemma BookRouteCaptured(dir: string, url: string)
    requires url == "https://example.com/1.0/books/9781484206485"
    ensures BookItem.Capture(url) == Some("9781484206485")
    ensures !Claims(Collection(dir), url)
  {
    var prefix, isbn := "https://example.com/1.0", "9781484206485";
    assert '\n' !in prefix && '/' !in isbn;
    assert url == prefix + "/books/" + isbn;
    BookItem.RouteCaptures(prefix, isbn);
    assert url[|url| - 1] == '5';
    CollectionRejectsByLastChar(dir, url);
  }

  /** `GET /1.0/books/9781484206485`, resolved against the base URI, is served
      from that book's fixture when it exists, whatever the order. */
  lemma ExampleItem(links: seq<Decorator>, dir: string, fs: FileSystem, url: string, options: Options)
    requires BothDecorators(links, dir) && url == "https://example.com/1.0/books/9781484206485"
    requires BookItem.FixturePath(dir, "9781484206485") in fs
    ensures Resolve(links, fs, "GET", url, options) == Responded(FromFile(BookItem.FixturePath(dir, "9781484206485")))
  {
    BookRouteCaptured(dir, url);
    OnlyItemClaims(links, dir, fs, "GET", url, options, "9781484206485");
  }

  lemma UnknownPathSplit(url: string)
    requires url == "https://example.com/1.0/unknown/path"
    ensures url == "https://example.com/1.0/unknown/" + "path"
    ensures Patterns.LastSegment(url) == "path"
  {
    Patterns.LastSegmentAfterSlash("https://example.com/1.0/unknown/", "path");
  }

  lemma UnknownParentNotBooks()
    ensures !Patterns.EndsAfterLead("https://example.com/1.0/unknown/", "/books/")
  {
    var head := "https://example.com/1.0/unknown/";
    assert head[|head| - 7] == 'n';
  }

  lemma UnknownPathUnclaimed(dir: string, url: string)
    requires url == "https://example.com/1.0/unknown/path"
    ensures !Claims(Collection(dir), url) && !Claims(Item(dir), url)
  {
    assert url[|url| - 1] == 'h';
    UnknownPathSplit(url);
    UnknownParentNotBooks();
    BookItem.RejectedByParent(url, "https://example.com/1.0/unknown/", "path");
  }

  /** A path neither decorator knows gets the 501 response, whatever the order. */
  lemma ExampleUnknown(links: seq<Decorator>, dir: string, fs: FileSystem, url: string, options: Options)
    requires BothDecorators(links, dir) && url == "https://example.com/1.0/unknown/path"
    ensures Resolve(links, fs, "GET", url, options)
            == Responded(Inline(NotImplemented.Body(url, "GET"), 501))
  {
    UnknownPathUnclaimed(dir, url);
    assert forall j :: 0 <= j < |links| ==> !Claims(links[j], url);
    UnclaimedGetsNotImplemented(links, fs, "GET", url, options);
  }
}
