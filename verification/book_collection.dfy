/** The decorator that serves the book collection. Any URL made of at least
    one newline-free character, then `/new`, then optionally one final newline,
    gets the fixture `<mocksDir>/new.json`: `/new` alone is passed on, and
    `x/new` followed by a newline is served. Every other request goes to the
    factory it wraps. */
module BookCollection {
  import opened Responses
  import Patterns

  /** What `#^.+/new$#` accepts. Without the D modifier PCRE's `$` also
      matches just before a final newline, so `/new` may be followed by one. */
  ghost predicate PatternAccepts(url: string) {
    Patterns.LeadsTo(url, "/new") || Patterns.LeadsTo(url, "/new\n")
  }

  /** The `preg_match` test of the factory. */
  function Matches(url: string): bool {
    Patterns.EndsAfterLead(url, "/new") || Patterns.EndsAfterLead(url, "/new\n")
  }

  /** `Matches` accepts exactly what the pattern accepts. */
  lemma MatchesDecides(url: string)
    ensures Matches(url) <==> PatternAccepts(url)
  {
    Patterns.EndsAfterLeadDecides(url, "/new");
    Patterns.EndsAfterLeadDecides(url, "/new\n");
  }

  /** The one fixture this factory serves. */
  function FixturePath(mocksDir: string): string {
    mocksDir + "/new.json"
  }

  /** The factory: a matching URL is answered from the fixture, anything else
      is handed to `next` with the same method, URL and options. */
  function Invoke(next: Factory, mocksDir: string, httpMethod: string, url: string, options: Options): (r: Outcome)
    ensures PatternAccepts(url) ==> r == Responded(FromFile(mocksDir + "/new.json"))
    ensures !PatternAccepts(url) ==> r == next(httpMethod, url, options)
  {
    MatchesDecides(url);
    if !Matches(url) then next(httpMethod, url, options)
    else Responded(FromFile(FixturePath(mocksDir)))
  }

  /** On a match the answer depends on `mocksDir` alone: not on the method,
      the URL, the options, nor the wrapped factory, which is never called. */
  lemma MatchDependsOnlyOnMocksDir(n1: Factory, n2: Factory, mocksDir: string,
                                   m1: string, m2: string, u1: string, u2: string,
                                   o1: Options, o2: Options)
    requires PatternAccepts(u1) && PatternAccepts(u2)
    ensures Invoke(n1, mocksDir, m1, u1, o1) == Invoke(n2, mocksDir, m2, u2, o2)
  {
  }

  /** Any text without a newline, then `/new`, is served from the fixture;
      so is the same URL with one trailing newline. */
  lemma RouteServed(prefix: string, next: Factory, mocksDir: string, httpMethod: string, options: Options)
    requires |prefix| >= 1 && '\n' !in prefix
    ensures Invoke(next, mocksDir, httpMethod, prefix + "/new", options) == Responded(FromFile(mocksDir + "/new.json"))
    ensures Invoke(next, mocksDir, httpMethod, prefix + "/new\n", options) == Responded(FromFile(mocksDir + "/new.json"))
  {
    assert Patterns.LeadsTo(prefix + "/new", "/new");
    assert Patterns.LeadsTo(prefix + "/new\n", "/new\n");
  }

  /** `/new` on its own has nothing before it for `.+` to match. */
  lemma BareRouteDelegated(next: Factory, mocksDir: string, httpMethod: string, options: Options)
    ensures Invoke(next, mocksDir, httpMethod, "/new", options) == next(httpMethod, "/new", options)
  {
    assert !Matches("/new");
  }

  /** Near misses of the route are delegated. */
  lemma NearMissesDelegated(prefix: string, next: Factory, mocksDir: string, httpMethod: string, options: Options)
    ensures Invoke(next, mocksDir, httpMethod, prefix + "/newer", options) == next(httpMethod, prefix + "/newer", options)
    ensures Invoke(next, mocksDir, httpMethod, prefix + "/new/", options) == next(httpMethod, prefix + "/new/", options)
    ensures Invoke(next, mocksDir, httpMethod, prefix + "/new?x", options) == next(httpMethod, prefix + "/new?x", options)
  {
    var a, b, c := prefix + "/newer", prefix + "/new/", prefix + "/new?x";
    assert a[|a| - 1] == 'r' && b[|b| - 1] == '/' && c[|c| - 1] == 'x';
    assert !Matches(a) && !Matches(b) && !Matches(c);
  }
}
