/** The terminal factory of the chain: it claims every request and answers
    501 Not Implemented with a body naming the URL and the method. */
module NotImplemented {
  import opened Responses

  const HttpNotImplemented: int := 501

  /** The fixed pieces of the body `No Mock was found for path "<url>" "<method>".` */
  const Opening: string := "No Mock was found for path \""
  const Between: string := "\" \""
  const Closing: string := "\"."

  /** The diagnostic body. The URL sits right after `Opening` and the method
      right before `Closing`, both copied literally. */
  function Body(url: string, httpMethod: string): (b: string)
    ensures |b| == |Opening| + |url| + |Between| + |httpMethod| + |Closing|
    ensures b[..|Opening|] == Opening
    ensures b[|Opening|..|Opening| + |url|] == url
    ensures b[|Opening| + |url|..|Opening| + |url| + |Between|] == Between
    ensures b[|b| - |Closing| - |httpMethod|..|b| - |Closing|] == httpMethod
    ensures b[|b| - |Closing|..] == Closing
  {
    Opening + url + Between + httpMethod + Closing
  }

  /** The factory itself: never throws, never delegates, always 501. */
  function Invoke(httpMethod: string, url: string, options: Options): (r: Outcome)
    ensures r.Responded? && r.response.Inline?
    ensures r.response.httpCode == HttpNotImplemented
    ensures r.response.body == Body(url, httpMethod)
  {
    Responded(Inline(Body(url, httpMethod), HttpNotImplemented))
  }

  /** The options never change the answer. */
  lemma OptionsIgnored(httpMethod: string, url: string, o1: Options, o2: Options)
    ensures Invoke(httpMethod, url, o1) == Invoke(httpMethod, url, o2)
  {
  }

  /** For one method, two different URLs always give two different bodies. */
  lemma UrlDistinguishes(httpMethod: string, u1: string, u2: string, options: Options)
    requires u1 != u2
    ensures Invoke(httpMethod, u1, options).response.body != Invoke(httpMethod, u2, options).response.body
  {
    var b1, b2 := Body(u1, httpMethod), Body(u2, httpMethod);
    if |u1| == |u2| {
      assert b1[|Opening|..|Opening| + |u1|] == u1;
      assert b2[|Opening|..|Opening| + |u2|] == u2;
    }
  }

  /** For one URL, two different methods always give two different bodies. */
  lemma MethodDistinguishes(url: string, m1: string, m2: string, options: Options)
    requires m1 != m2
    ensures Invoke(m1, url, options).response.body != Invoke(m2, url, options).response.body
  {
    var b1, b2 := Body(url, m1), Body(url, m2);
    if |m1| == |m2| {
      assert b1[|b1| - |Closing| - |m1|..|b1| - |Closing|] == m1;
      assert b2[|b2| - |Closing| - |m2|..|b2| - |Closing|] == m2;
    }
  }

  /** Taken together the two are not recoverable from the body: a URL that
      itself holds `" "` can swap text with the method. */
  lemma BodyAmbiguousAcrossUrlAndMethod()
    ensures Body("a\" \"b", "GET") == Body("a", "b\" \"GET")
  {
    assert Body("a\" \"b", "GET") == Opening + "a\" \"b\" \"GET" + Closing;
    assert Body("a", "b\" \"GET") == Opening + "a\" \"b\" \"GET" + Closing;
  }

  /** The unit test's expectation for a GET on the resolved URL `https://example.com/path`. */
  lemma ExampleMessage()
    ensures Invoke("GET", "https://example.com/path", map[])
         == Responded(Inline("No Mock was found for path \"https://example.com/path\" \"GET\".", 501))
  {
    var withUrl := Opening + "https://example.com/path";
    assert withUrl == "No Mock was found for path \"https://example.com/path";
    assert withUrl + Between == "No Mock was found for path \"https://example.com/path\" \"";
    assert withUrl + Between + "GET" == "No Mock was found for path \"https://example.com/path\" \"GET";
  }
}
