/** The vocabulary every response factory shares: what a request carries
    besides its method and URL, what a factory hands back, and the one
    signature all factories of the mock chain have. */
module Responses {

  datatype Option<T> = None | Some(value: T)

  /** Request options. The factories only pass them along; their values stay opaque. */
  type Options = map<string, string>

  /** The paths of the files that exist; `is_file(path)` is `path in fs`. */
  type FileSystem = set<string>

  datatype Response =
      /** A mock response whose body is the contents of the file at `path`. */
    | FromFile(path: string)
      /** A mock response built in place from a body and an `http_code`. */
    | Inline(body: string, httpCode: int)

  /** What calling a factory ends in: a response, or an exception that escapes it. */
  datatype Outcome =
    | Responded(response: Response)
    | Thrown(message: string)

  /** `(method, url, options) -> response`: the signature of every factory.
      The two identically declared interfaces of the repository are this one type. */
  type Factory = (string, string, Options) -> Outcome
}

/** The two pieces of PCRE matching the URL patterns need. A pattern starting
    with `^.+` asks for at least one character before the rest, and PCRE's `.`
    matches any character except a newline. */
module Patterns {

  /** `url` is one or more newline-free characters followed by exactly `tail`. */
  ghost predicate LeadsTo(url: string, tail: string) {
    exists lead :: |lead| >= 1 && '\n' !in lead && url == lead + tail
  }

  /** Decides `LeadsTo` by looking at the only place `tail` can start. */
  function EndsAfterLead(url: string, tail: string): bool {
    var k := |url| - |tail|;
    k >= 1 && url[k..] == tail && '\n' !in url[..k]
  }

  /** `EndsAfterLead` is exactly `LeadsTo`, in both directions. */
  lemma EndsAfterLeadDecides(url: string, tail: string)
    ensures EndsAfterLead(url, tail) <==> LeadsTo(url, tail)
  {
    var k := |url| - |tail|;
    if EndsAfterLead(url, tail) {
      assert url == url[..k] + tail;
    }
    if LeadsTo(url, tail) {
      var lead :| |lead| >= 1 && '\n' !in lead && url == lead + tail;
      assert lead == url[..k] && url[k..] == tail;
    }
  }

  /** The text after the last '/' of `s`; all of `s` when it has no '/'. */
  function LastSegment(s: string): (seg: string)
    ensures |seg| <= |s| && s[|s| - |seg|..] == seg
    ensures '/' !in seg
    ensures |seg| < |s| ==> s[|s| - |seg| - 1] == '/'
  {
    if s == [] || s[|s| - 1] == '/' then []
    else
      var init := s[..|s| - 1];
      assert s == init + [s[|s| - 1]];
      LastSegment(init) + [s[|s| - 1]]
  }

  /** Whatever precedes the last '/', the segment after it is what `LastSegment` finds. */
  lemma LastSegmentAfterSlash(head: string, seg: string)
    requires |head| >= 1 && head[|head| - 1] == '/' && '/' !in seg
    ensures LastSegment(head + seg) == seg
  {
    var s := head + seg;
    var r := LastSegment(s);
    assert s[|head| - 1] == '/';
    assert |r| == |seg|;
    assert s[|s| - |seg|..] == seg;
  }

  /** A `/`-free `seg` that ends the URL right after a lead and a '/' is its last segment. */
  lemma LastSegmentAfterLead(url: string, seg: string)
    requires '/' !in seg && LeadsTo(url, "/" + seg)
    ensures LastSegment(url) == seg
  {
    var lead :| |lead| >= 1 && '\n' !in lead && url == lead + ("/" + seg);
    assert url == (lead + "/") + seg;
    LastSegmentAfterSlash(lead + "/", seg);
  }

  /** Newline-free text between the lead and the tail can be counted as part of the lead. */
  lemma LeadAbsorbs(url: string, mid: string, tail: string)
    requires '\n' !in mid && LeadsTo(url, mid + tail)
    ensures LeadsTo(url, tail)
  {
    var lead :| |lead| >= 1 && '\n' !in lead && url == lead + (mid + tail);
    assert url == (lead + mid) + tail;
  }

  /** Whatever follows both the URL and the tail leaves `LeadsTo` intact. */
  lemma LeadsToExtended(url: string, tail: string, more: string)
    requires LeadsTo(url, tail)
    ensures LeadsTo(url + more, tail + more)
  {
    var lead :| |lead| >= 1 && '\n' !in lead && url == lead + tail;
    assert url + more == lead + (tail + more);
  }
}
