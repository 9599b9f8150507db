# Mock response factories of the book HTTP client

This project models the chain of mock response factories that answers the
book client's HTTP requests when the real API is replaced by a mock. Every
factory takes a request's method, URL and options and hands back a response.
Two decorators each test the URL against their own regular expression:

- the collection decorator serves `<mocksDir>/new.json` for any URL made of at
  least one newline-free character, then `/new`, then optionally one final
  newline (so `/new` alone is passed on, and `x/new` plus a newline is served);
- the item decorator accepts a URL made of at least one newline-free character,
  then `/books/`, then a non-empty segment without '/'. It takes that segment as
  the ISBN and serves `<mocksDir>/books/<isbn>.json`, or throws when that file
  does not exist.

A decorator whose pattern does not match passes the request on, unchanged, to
the factory it wraps. At the end of the chain the not-implemented factory
answers every request with status 501 and a body naming the URL and the method.

Modules:

- `Responses`: the shared vocabulary.
  - A factory is the function type `(method, url, options) -> Outcome`.
  - An `Outcome` is a response or an exception.
  - A response is either served from a file or built inline with a body and a status.
  - The file system is the set of existing file paths.
- `Patterns`: the part of PCRE matching the two patterns need.
  - `.` does not match a newline.
  - Without the `D` modifier, `$` also matches just before a final newline.
- `NotImplemented`, `BookCollection`, `BookItem`: the three factories.
  - A decorator receives the factory it wraps as its `next` argument.
- `Chain`: the decorators stacked in a given order over the 501 factory.
  - It covers which link answers a request.
  - It covers when the order of the decorators matters.

The two URL patterns are not mutually exclusive. A URL such as
`https://example.com/1.0/books/new` is accepted by both, so on those URLs the decorator order
decides the answer. The model follows the code here: `Chain.BothClaimIff`
characterises the overlap exactly, and `Chain.OverlapOrderMatters` shows that
the two orders give different answers on it.

## Model

| member | source | states |
|---|---|---|
| NotImplemented.Body | src/Mock/Symfony/HttpClient/ResponseFactory/NotImplementedMockResponseFactory.php:14 | The body is the fixed opening text, then the URL verbatim, then `" "`, then the method verbatim, then the closing `".`; its length is the sum of the parts |
| NotImplemented.Invoke | src/Mock/Symfony/HttpClient/ResponseFactory/NotImplementedMockResponseFactory.php:10-17 | The factory always responds (never throws, never delegates) with an inline response whose status is 501 and whose body is the diagnostic naming URL and method |
| NotImplemented.OptionsIgnored | src/Mock/Symfony/HttpClient/ResponseFactory/NotImplementedMockResponseFactory.php:12-17 | The options never change the 501 response |
| NotImplemented.UrlDistinguishes | src/Mock/Symfony/HttpClient/ResponseFactory/NotImplementedMockResponseFactory.php:14 | For a fixed method, different URLs give different bodies |
| NotImplemented.MethodDistinguishes | src/Mock/Symfony/HttpClient/ResponseFactory/NotImplementedMockResponseFactory.php:14 | For a fixed URL, different methods give different bodies |
| NotImplemented.BodyAmbiguousAcrossUrlAndMethod | src/Mock/Symfony/HttpClient/ResponseFactory/NotImplementedMockResponseFactory.php:14 | URL and method together cannot be recovered from the body: URL `a" "b` with method `GET` gives the same body as URL `a` with method `b" "GET` |
| NotImplemented.ExampleMessage | tests/Unit/Symfony/NotImplementedMockResponseFactoryTest.php:19-32 | `GET https://example.com/path` gets status 501 and exactly the body the unit test expects |
| Patterns.EndsAfterLead | src/Mock/ResponseFactory/GetBookCollectionResponseFactory.php:14 | No contract of its own: the executable test for `^.+<tail>` ending at the very end of the string (the reading of `$` before a final newline is a second call with the newline in the tail); `Patterns.EndsAfterLeadDecides` states its meaning |
| Patterns.EndsAfterLeadDecides | src/Mock/ResponseFactory/GetBookCollectionResponseFactory.php:14 | The executable test of `^.+<tail>` holds exactly when the URL is one or more newline-free characters followed by the tail |
| Patterns.LastSegment | src/Mock/ResponseFactory/GetBookItemResponseFactory.php:14 | The result is a '/'-free suffix of the input, preceded by a '/' whenever it is not the whole input |
| Patterns.LastSegmentAfterSlash | src/Mock/ResponseFactory/GetBookItemResponseFactory.php:14 | A '/'-free text after a '/' is the last segment, whatever comes before |
| BookCollection.PatternAccepts | src/Mock/ResponseFactory/GetBookCollectionResponseFactory.php:14 | No contract of its own: the reference definition of what `#^.+/new$#` accepts (a newline-free lead, `/new`, at most one final newline), against which `MatchesDecides` and `Invoke` are stated |
| BookCollection.Matches | src/Mock/ResponseFactory/GetBookCollectionResponseFactory.php:25 | No contract of its own: the `preg_match` test; `BookCollection.MatchesDecides` states its meaning |
| BookCollection.MatchesDecides | src/Mock/ResponseFactory/GetBookCollectionResponseFactory.php:14 | The `preg_match` test accepts exactly the URLs `#^.+/new$#` accepts: a newline-free lead, then `/new`, then at most one final newline |
| BookCollection.Invoke | src/Mock/ResponseFactory/GetBookCollectionResponseFactory.php:23-30 | A URL the pattern accepts is served from `<mocksDir>/new.json`; any other request goes to the wrapped factory with the same method, URL and options |
| BookCollection.FixturePath | src/Mock/ResponseFactory/GetBookCollectionResponseFactory.php:29 | No contract of its own: the path `<mocksDir>/new.json`; `BookCollection.Invoke` and `Chain.BookNeverCollectionFixture` state what it is served for |
| BookCollection.MatchDependsOnlyOnMocksDir | src/Mock/ResponseFactory/GetBookCollectionResponseFactory.php:29 | On two matching URLs the answer is the same whatever the method, URL, options and wrapped factory |
| BookCollection.RouteServed | src/Mock/ResponseFactory/GetBookCollectionResponseFactory.php:25-29 | `<prefix>/new`, and the same with one trailing newline, is served from the collection fixture for every non-empty newline-free prefix |
| BookCollection.BareRouteDelegated | src/Mock/ResponseFactory/GetBookCollectionResponseFactory.php:25-26 | `/new` alone is passed on, because `.+` needs at least one character before `/new` |
| BookCollection.NearMissesDelegated | src/Mock/ResponseFactory/GetBookCollectionResponseFactory.php:25-26 | `<prefix>/newer`, `<prefix>/new/` and `<prefix>/new?x` are passed on, for every prefix |
| BookItem.PatternCaptures | src/Mock/ResponseFactory/GetBookItemResponseFactory.php:14 | No contract of its own: the reference definition of `#^.+/books/([^/]+)$#` matching with group 1 equal to the ISBN (a newline-free lead, `/books/`, a non-empty '/'-free group), against which `CaptureIsPatternCapture` and `Invoke` are stated |
| BookItem.Capture | src/Mock/ResponseFactory/GetBookItemResponseFactory.php:25-29 | A captured ISBN is a non-empty, '/'-free suffix of the URL that is preceded by a '/' |
| BookItem.CaptureSound | src/Mock/ResponseFactory/GetBookItemResponseFactory.php:14 | Whatever is captured is a capture of `#^.+/books/([^/]+)$#` on that URL |
| BookItem.CaptureComplete | src/Mock/ResponseFactory/GetBookItemResponseFactory.php:14 | Every capture the pattern allows is the one captured, so the capture is unique |
| BookItem.CaptureIsLastSegment | src/Mock/ResponseFactory/GetBookItemResponseFactory.php:29 | Whenever the URL matches, the captured ISBN is exactly the URL's last path segment |
| BookItem.CaptureIsPatternCapture | src/Mock/ResponseFactory/GetBookItemResponseFactory.php:25-29 | The capture is `Some(isbn)` if and only if the pattern matches the URL with group 1 equal to `isbn` |
| BookItem.FixturePath | src/Mock/ResponseFactory/GetBookItemResponseFactory.php:31 | No contract of its own: the path `<mocksDir>/books/<isbn>.json`; `BookItem.BooksHaveDistinctFixtures` states its meaning |
| BookItem.BooksHaveDistinctFixtures | src/Mock/ResponseFactory/GetBookItemResponseFactory.php:31 | Two different ISBNs never share a fixture path under the same directory |
| BookItem.MissingFileMessage | src/Mock/ResponseFactory/GetBookItemResponseFactory.php:34 | No contract of its own: the message `File "<path>" does not exist`; `BookItem.MissingFileMessageNamesPath` states its meaning |
| BookItem.MissingFileMessageNamesPath | src/Mock/ResponseFactory/GetBookItemResponseFactory.php:34 | Two different missing paths give two different exception messages |
| BookItem.Invoke | src/Mock/ResponseFactory/GetBookItemResponseFactory.php:23-38 | A non-matching request goes to the wrapped factory unchanged. For a captured ISBN whose `<mocksDir>/books/<isbn>.json` exists, the response is served from that file. When the file is missing, the call throws `File "<path>" does not exist` |
| BookItem.ServedFileExists | src/Mock/ResponseFactory/GetBookItemResponseFactory.php:31-37 | On a matching URL, a response is always served from a file that exists; the path checked is the path served |
| BookItem.MatchIgnoresMethodOptionsAndNext | src/Mock/ResponseFactory/GetBookItemResponseFactory.php:29-37 | On a matching URL the answer does not depend on the method, the options or the wrapped factory |
| BookItem.NonMatchIgnoresFileSystem | src/Mock/ResponseFactory/GetBookItemResponseFactory.php:25-26 | Off the pattern, the file system is never consulted |
| BookItem.RouteCaptures | src/Mock/ResponseFactory/GetBookItemResponseFactory.php:29 | `<prefix>/books/<isbn>` captures `isbn` for every non-empty newline-free prefix and every non-empty '/'-free ISBN |
| BookItem.RejectedByParent | src/Mock/ResponseFactory/GetBookItemResponseFactory.php:14 | A URL whose text before its last segment does not end in a lead and `/books/` is not captured |
| BookItem.EmptyLeadRejected | src/Mock/ResponseFactory/GetBookItemResponseFactory.php:14 | `/books/x` is not captured, because `.+` needs a character before `/books/` |
| BookItem.EmptySegmentRejected | src/Mock/ResponseFactory/GetBookItemResponseFactory.php:14 | `a/books/` is not captured, because `[^/]+` needs a character |
| BookItem.NestedSegmentRejected | src/Mock/ResponseFactory/GetBookItemResponseFactory.php:14 | `a/books/x/y` is not captured, because the group cannot span a '/' |
| Chain.Resolve | src/Mock/ResponseFactory/GetBookCollectionResponseFactory.php:23-30 | No contract of its own: the decorators applied outermost first, each handed the rest of the chain as the factory it wraps (what each decorator calls when its pattern does not match), over the 501 factory; `Chain.ResponderAnswers` and `Chain.ThrowsOnlyForMissingBook` state its meaning |
| Chain.Claims | src/Mock/ResponseFactory/GetBookItemResponseFactory.php:25 | No contract of its own: the `preg_match` guard of each decorator (line 25 of both decorator files), true when the decorator answers itself; `Chain.ClaimsIsPattern` states its meaning |
| Chain.ClaimsIsPattern | src/Mock/ResponseFactory/GetBookCollectionResponseFactory.php:25 | A decorator answers a request itself exactly when its pattern accepts the URL (the guard at line 25 of this file and of GetBookItemResponseFactory.php) |
| Chain.Responder | src/Mock/ResponseFactory/GetBookItemResponseFactory.php:25-26 | The index found is that of the first decorator that claims the URL; every decorator before it passes the request on; it is the chain length when none claims |
| Chain.PassesOn | src/Mock/ResponseFactory/GetBookCollectionResponseFactory.php:25-26 | A decorator that does not claim the URL gives exactly what the rest of the chain gives |
| Chain.ClaimantIgnoresRest | src/Mock/ResponseFactory/GetBookItemResponseFactory.php:29-37 | A decorator that claims the URL answers alone: the rest of the chain is never consulted |
| Chain.ResponderAnswers | src/Mock/ResponseFactory/GetBookCollectionResponseFactory.php:23-30 | The whole chain answers as its first claiming decorator would alone, or as the 501 factory when none claims |
| Chain.UnclaimedGetsNotImplemented | src/Mock/Symfony/HttpClient/ResponseFactory/NotImplementedMockResponseFactory.php:12-17 | A request no decorator claims gets the 501 response naming its URL and method |
| Chain.ThrowsOnlyForMissingBook | src/Mock/ResponseFactory/GetBookItemResponseFactory.php:33-34 | Of the exceptions this code raises itself, the chain throws if and only if the answering decorator is a book decorator whose fixture for the captured ISBN is missing (what `MockResponse::fromFile` does with a missing `new.json` is outside the model) |
| Chain.CollectionLastSegment | src/Mock/ResponseFactory/GetBookCollectionResponseFactory.php:14 | The last segment of a URL the collection pattern accepts is `new`, or `new` plus the final newline |
| Chain.BothClaimIff | src/Mock/ResponseFactory/GetBookItemResponseFactory.php:14 | Both decorators claim a URL if and only if its book capture is `new`, or `new` plus the final newline |
| Chain.PairPassesOn | src/Mock/ResponseFactory/GetBookCollectionResponseFactory.php:25-26 | Two neighbouring decorators that both decline the URL give exactly what the rest of the chain gives |
| Chain.PairFirstAnswers | src/Mock/ResponseFactory/GetBookCollectionResponseFactory.php:29 | When the outer of two neighbours claims the URL, the pair and everything after it answer as that decorator alone |
| Chain.PairSecondAnswers | src/Mock/ResponseFactory/GetBookItemResponseFactory.php:25-37 | When only the inner of two neighbours claims the URL, the pair and everything after it answer as that decorator alone |
| Chain.SwapHarmlessUnlessBothClaim | src/Mock/ResponseFactory/GetBookCollectionResponseFactory.php:11 | Swapping two neighbouring decorators changes nothing for a URL that at most one of them claims |
| Chain.BookNeverCollectionFixture | src/Mock/ResponseFactory/GetBookItemResponseFactory.php:31-37 | The book decorator never answers with the collection fixture |
| Chain.OverlapOrderMatters | src/Mock/ResponseFactory/GetBookItemResponseFactory.php:11 | On a URL both patterns accept, collection-outermost gives `new.json`; book-outermost gives exactly what the book decorator alone gives (its book fixture or the missing-file error), which is never `new.json` |
| Chain.OverlapExists | src/Mock/ResponseFactory/GetBookItemResponseFactory.php:14 | `<prefix>/books/new` is claimed by both decorators, for every non-empty newline-free prefix |
| Chain.CollectionClaimsRoute | src/Mock/ResponseFactory/GetBookCollectionResponseFactory.php:14 | Any non-empty newline-free lead followed by `/new` is claimed by the collection decorator |
| Chain.CollectionRejectsByLastChar | src/Mock/ResponseFactory/GetBookCollectionResponseFactory.php:14 | A URL whose last character is neither `w` nor a newline is never claimed by the collection decorator |
| Chain.OnlyCollectionClaims | src/Mock/ResponseFactory/GetBookCollectionResponseFactory.php:29 | With both decorators, in either order, a URL only the collection pattern accepts gets the collection fixture |
| Chain.OnlyItemClaims | src/Mock/ResponseFactory/GetBookItemResponseFactory.php:37 | With both decorators, in either order, a URL only the book pattern accepts gets its book fixture when it exists |
| Chain.ExampleCollection | src/Command/BookClientCommand.php:40-53 | The command's default request `GET /1.0/new`, resolved to `https://example.com/1.0/new`, is served from the collection fixture in either order |
| Chain.ExampleItem | src/Command/BookClientCommand.php:36-53 | `GET /1.0/books/9781484206485`, resolved to `https://example.com/1.0/books/9781484206485`, is served from that book's fixture, when it exists, in either order |
| Chain.ExampleUnknown | src/Mock/Symfony/HttpClient/ResponseFactory/NotImplementedMockResponseFactory.php:14-15 | `GET https://example.com/1.0/unknown/path` gets the 501 response naming that URL and `GET`, in either order |

## Left out

- Reading the fixture files and the default status of a file-backed mock response are left out. `MockResponse::fromFile` is not part of this model, so a file response is represented by its path alone. The collection decorator calls it without checking that `new.json` exists. Whatever that call does with a missing file is not modelled, so `Chain.ThrowsOnlyForMissingBook` covers only the exception this code raises itself.
- How the decorators are stacked is left out. It is decided by the dependency-injection container's attribute wiring, not by this code, so the order is a parameter of `Chain.Resolve`. Every result is stated for both orders, or for any order.
- The two identically declared factory interfaces are modelled as one function type, since they have the same signature.
- Request options are an opaque `map<string, string>`: no factory reads them, they are only passed along.
- The console command and the PSR-18 client are left out; they are I/O. They appear only as the concrete URLs in the `Example` lemmas.
- `MockHttpClient` resolving a relative URL against its base URI is left out. The factories see whatever URL they are given. The `Example` lemmas use URLs already resolved against the base URI `https://example.com` of the unit test.
- `preg_match` returning `false` on a PCRE engine error, such as a backtracking limit, is left out. Both patterns are modelled as exact predicates.
- `is_file` is membership in a set of paths. Directories, permissions and files changing between the check and the read are not modelled.
