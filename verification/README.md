# lightningxx HTTP/1.1 server core, modelled in Dafny

lightningxx is a small C++ HTTP/1.1 server. An accept loop creates one
connection per client. Each connection reads into a fixed 4096-byte buffer
until it sees the CR LF CR LF that ends a header block. It then parses the
request with llhttp, looks up a handler by method and exact path, and runs
that handler, the default handler, or a built-in `404 Not found`. Responses
are built with `status(...)` and `send(...)` and serialized by `data()`.

The model covers that core as pure functions over immutable values:

| module | file | models |
|---|---|---|
| `Headers` | `http_header.dfy` | the case-insensitive header store (`HttpHeader`): `contains`, `get`, `set`, `size`, and the value assignment the request parser does through `last()` |
| `Methods` | `http_method.dfy` | the nine methods, their enum values (the router's table index) and their names |
| `Responses` | `http_response.dfy` | `HttpResponse`: `status`, `send` (default content type), `data` (wire serialization), and a reader for the wire format |
| `Requests` | `http_request.dfy` | the callbacks installed by `HttpRequest::parse`: `on_method`, `on_url`, `on_header_field`/`on_header_value`, `on_version`, and a parse as the sequence of tokens the tokenizer reports |
| `Server` | `http_server.dfy` | `addRoute`, `setDefault`, `_find`, and the dispatch lambda with its default and 404 fallback |
| `Connection` | `http_connection.dfy` | `InputBuffer`, `waitForHttpMessage`, `_afterRead`, `_consumeData`, and the connection's life over a sequence of read events |
| `StringUtil` | `string_util.dfy` | `StringUtil::fmtBuffer`: which elements are shown, the elision, the separators, and the writing loops |
| `Text` | `text.dfy` | shared helpers: `std::tolower` lower-casing, `std::to_string` and `atoi` on digit strings, scanning up to a delimiter |
| `Wrappers` | `wrappers.dfy` | `Option` (the source's `std::optional`) and `Result` |

Behaviour the model keeps because the code does it:

- **Header order.** The header store is an `std::unordered_map`, so the order
  in which `data()` writes the headers is unspecified. The model keeps entries
  in insertion order. That is one admissible order, and it is the one the
  header test `test_iterator` expects.
- **First write wins.** `set` inserts into a map and never overwrites, so the
  first value set under a name wins.
- **Header class mismatch.** `http_header.h` declares a map of `string_view`
  values and a `last()` iterator, and has `HeaderData` commented out.
  `http_header.cxx` stores `HeaderData { name, value }`, so the two do not
  fit together as written. The model follows the `.cxx`: every entry keeps
  its lower-cased key, the caller's spelling of the name, and the value.
- **`last()` is never set.** `on_header_value` writes through
  `headers.last()`, but nothing assigns `_last`: `set` only inserts. As
  written, the callback dereferences a default-constructed iterator. The
  model gives it the evident intent instead: the entry of the header field
  reported just before (see Left out).
- **`host` field mismatch.** `http_request.h` has no `host` field, but the
  callbacks set one. The model includes it.
- **Truncated method names.** `on_method` compares with `strncmp` bounded by
  the token's length, so a prefix of a method name is accepted: `GE` and the
  empty token both give GET.
- **Rescan from the buffer start.** `waitForHttpMessage` rescans leftover
  bytes from the start of the buffer, not from the ready position. See
  Findings.
- **Split terminator.** A CR LF CR LF split across two reads is never
  detected. The source documents this as an assumption.
- **No response write.** `_writeResponseMessage` is a stub, so nothing is
  written and no second `waitForHttpMessage` follows. A connection therefore
  dispatches at most once.
- **A read-sized limit with no error.** A header block must arrive within a
  single read of at most 4096 bytes (`Connection.Capacity`). Each read is
  scanned alone (`Connection.ReadScansChunk`), so bytes from earlier reads are
  never part of a frame, and a terminator split across two reads is never
  found (`Connection.SplitTerminatorMissed`). No error reports either case.
- **C-string route paths.** A route's path is a `std::string_view` compared
  as a C string (`r.path.data()`), so the comparison reads up to the next
  NUL, which can lie past the end of the view. The model assumes the
  registered view ends at a NUL, as the string literals the tests pass do,
  and compares up to the path's first NUL.
- **Negative `numStart`.** In `fmtBuffer`, a negative `numStart` still writes
  the `", "` separator before the elision, so the output starts with `", "`.

## Model

| member | source | states |
|---|---|---|
| `Text.Lower` | src/lib/http_header.cxx:15-19 | the lookup key keeps the name's length and maps every character through ASCII `tolower` |
| `Text.LowerProperties` | src/lib/http_header.cxx:17-19 | lower-casing changes exactly the ASCII capitals, leaves no capital behind, and is idempotent |
| `Text.DecimalRoundTrip` | src/lib/http_response.cxx:48 | the digits `to_string` writes for a number read back as that number |
| `Text.CanonicalRoundTrip` | src/lib/http_request.cxx:123-124 | a digit string without leading zeros is what `to_string` writes for the value `atoi` reads from it, so writing and reading are inverse |
| `Text.TakeUntilStops` | src/lib/http_request.cxx:105-106 | scanning `a + [c] + b` up to the first `c` yields exactly `a` when `a` holds no `c` |
| `Headers.Size` | src/include/lightning/http_header.h:36 | in a well-formed store, `size()` is the number of distinct lower-cased names stored |
| `Headers.EmptyHeader` | src/include/lightning/http_header.h:54 | a fresh store is well formed and has size 0 |
| `Headers.Find` | src/lib/http_header.cxx:21 | map lookup: the position found holds the key and no earlier entry does; none is found only when no entry holds the key |
| `Headers.Contains` | src/lib/http_header.cxx:14-22 | `contains(name)` holds exactly when some entry is stored under the lower-cased name |
| `Headers.Get` | src/lib/http_header.cxx:27-38 | `get(name)` yields a value stored under the lower-cased name, and nothing only when no entry has that key |
| `Headers.Set` | src/lib/http_header.cxx:43-51 | `set` keeps the store well formed, never overwrites a present key, and appends a fresh key with the caller's spelling and value |
| `Headers.UpdateValue` | src/lib/http_request.cxx:99-100 | assigning the value under a key keeps every key and name and every other entry, and the entry holding the key gets the new value |
| `Headers.UpdateThenGet` | src/lib/http_request.cxx:99-100 | after the assignment, `get` on any spelling of that name yields the new value, and presence and values of other names are unchanged |
| `Headers.KeyUnique` | src/include/lightning/http_header.h:54 | in a well-formed store, two entries with the same key are the same entry |
| `Headers.ContainsIffGet` | src/lib/http_header.cxx:14-38 | `contains` and `get` agree: a name is present exactly when `get` has a value |
| `Headers.SetThenGet` | src/lib/http_header.cxx:43-51 | after `set(n, v)`, every spelling of `n` is present, and `get` yields `v` for a new name and the earlier value otherwise |
| `Headers.SetKeepsOthers` | src/lib/http_header.cxx:43-51 | `set` under one name leaves the presence and value of every other name unchanged |
| `Headers.SetSize` | src/lib/http_header.cxx:50 | `size()` grows by one exactly when the name was not present under any spelling |
| `Headers.SetStoresCallerCase` | src/lib/http_header.cxx:43-50 | a new entry is keyed by the lower-cased name, keeps the name as the caller wrote it, and holds the value |
| `Headers.SetAll` | src/lib/http_header.cxx:43-51 | any series of `set` calls keeps the store well formed |
| `Headers.NeverSetIsAbsent` | src/lib/http_header.cxx:14-51 | a name that no `set` used under any spelling is absent from the store and has no value |
| `Methods.Index` | src/include/lightning/http_method.h:13-23 | every method's enum value is a valid index below `kNumHttpMethods` |
| `Methods.FromIndex` | src/include/lightning/http_method.h:13-25 | every index below `kNumHttpMethods` is the value of a method |
| `Methods.IndexBijective` | src/include/lightning/http_method.h:13-25 | enum values and methods correspond one to one |
| `Methods.Name` | src/lib/http_request.cxx:31-39 | each method's name as the request line spells it is at least three upper-case ASCII letters |
| `Responses.NewResponse` | src/include/lightning/http_response.h:29-31 | a fresh response has status 0, no headers and an empty body |
| `Responses.WithStatus` | src/include/lightning/http_response.h:20-23 | `status(s)` sets the status and nothing else |
| `Responses.Send` | src/lib/http_response.cxx:17-24 | `send(d)` sets the body to `d` and keeps the status; afterwards a content type is always present: one the handler set, under any spelling, is kept, otherwise `content-type: text/plain; charset=utf-8` is appended |
| `Responses.SentFresh` | src/lib/http_response.cxx:17-24 | `status(200).send(d)` on a fresh response has exactly the one header `send` added |
| `Responses.ContentTypeReadable` | src/lib/http_response.cxx:19 | the default content-type line can be read back |
| `Responses.StatusLineRoundTrip` | src/lib/http_response.cxx:47-49 | the status line `data()` writes reads back as the status code, leaving the rest of the message intact |
| `Responses.ParseFieldsStep` | src/lib/http_response.cxx:52-55 | one header line `name: value` CR LF reads back as that field, followed by whatever the rest reads as |
| `Responses.ParseFieldsRoundTrip` | src/lib/http_response.cxx:51-67 | header lines followed by the blank line read back as the same fields in order, with the body left verbatim |
| `Responses.RenderWireRoundTrip` | src/lib/http_response.cxx:44-70 | a message laid out as `data()` lays one out reads back as the same status, fields and body |
| `Responses.HeaderBlockAsFields` | src/lib/http_response.cxx:51-65 | the header block `data()` writes consists of the stored headers, then `content-length` if none is stored, then `server: lightning`, in that order |
| `Responses.Data` | src/lib/http_response.cxx:44-70 | `data()` starts with `HTTP/1.1 ` and ends with the blank line and then the body, verbatim |
| `Responses.DataIsRenderWire` | src/lib/http_response.cxx:44-70 | `data()` is the wire layout of the response's status, header lines and body |
| `Responses.WireFieldsReadable` | src/lib/http_response.cxx:58-65 | the two lines `data()` adds can always be read back, so the message can be read back whenever the stored headers can |
| `Responses.DataRoundTrip` | src/lib/http_response.cxx:44-70 | a client reading `data()` gets the status, every stored header under its original spelling, an injected `content-length` equal to the body size exactly when none is stored, `server: lightning`, and the body verbatim |
| `Responses.HelloWorldWire` | src/lib/http_response.cxx:44-70 | a 200 response with only the default content type and body `Hello World!` reads back with `content-length: 12` and the server line |
| `Responses.HelloWorldExample` | src/test/test_http_server.cxx:82-96 | `data()` of the test handler's `status(200).send("Hello World!")` reads back as status 200 with `content-type`, `content-length: 12`, `server: lightning` and the body `Hello World!` |
| `Requests.NewRequest` | src/include/lightning/http_request.h:32-44 | a request before any callback has an empty, well-formed header store |
| `Requests.StrnEqualIsPrefix` | src/lib/http_request.cxx:31-39 | for NUL-free strings, the bounded `strncmp` succeeds exactly when the token is a prefix of the method name |
| `Requests.OnMethod` | src/lib/http_request.cxx:27-47 | `on_method` succeeds exactly for a recognised token and then changes only the method; otherwise the parse fails with that token |
| `Requests.StrnEqual` | src/lib/http_request.cxx:31-39 | the bounded `strncmp` succeeds whenever the token is a prefix of the name, and for a NUL-free token only then |
| `Requests.MethodOfToken` | src/lib/http_request.cxx:31-43 | the method chosen is the first, in enum order, whose name the comparison accepts, and none is chosen exactly when no name is accepted |
| `Requests.MethodNamesRecognised` | src/lib/http_request.cxx:31-39 | each of the nine method names selects its own method |
| `Requests.MethodTokenAccepted` | src/lib/http_request.cxx:31-44 | a NUL-free token is accepted exactly when it is a prefix of some method name, and the method chosen is one whose name it prefixes |
| `Requests.TruncatedMethodTokens` | src/lib/http_request.cxx:31-33 | `GE` and the empty token select GET, and `P` selects POST |
| `Requests.RejectedMethodTokens` | src/lib/http_request.cxx:31-40 | the lower-case `get` and the over-long `GETS` match no method name |
| `Requests.SplitUrl` | src/lib/http_request.cxx:71-77 | the path is the URL up to the first `?`; the query runs from that `?` to the first `#` and is empty without a `?` |
| `Requests.UrlRecompose` | src/lib/http_request.cxx:71-77 | without a fragment, path, `?` and query join back into the URL |
| `Requests.UrlSplitRoundTrip` | src/lib/http_request.cxx:71-77 | a path without `?` and a query without `#` are recovered from their join |
| `Requests.SplitUrlCases` | src/lib/http_request.cxx:71-76 | a URL without `?` is all path, and one with `?` and no `#` is path, `?`, query |
| `Requests.OnUrl` | src/lib/http_request.cxx:64-80 | `on_url` stores the raw URL and its path and query and changes nothing else; the path is the URL up to its first `?`, and after that `?` the query runs up to the first `#` or the end |
| `Requests.SplitUrlUnique` | src/lib/http_request.cxx:64-80 | the pattern's split is the only path and query that stop where its groups stop, so `OnUrl`'s contract determines the stored path and query |
| `Requests.HostOf` | src/lib/http_request.cxx:104-109 | the host is a `:`-free prefix of the value that stops at the value's first `:` or at its end |
| `Requests.HostOfWithPort` | src/lib/http_request.cxx:105-106 | a `host:port` value yields the host |
| `Requests.OnHeaderField` | src/lib/http_request.cxx:82-90 | after `on_header_field` the name is present and the store stays well formed; a present name leaves the request unchanged, a new name gets the empty value, and every other name keeps its value |
| `Requests.OnHeaderValue` | src/lib/http_request.cxx:92-112 | `on_header_value` changes only the header store and the host; the value is stored only while the entry's value is empty, other names keep their values, the store stays well formed, and for the key `host` the host becomes the value up to its first `:` |
| `Requests.OnHeader` | src/lib/http_request.cxx:82-112 | one reported header leaves the name present and the store well formed, changes only the headers and the host, and keeps the host for any other name |
| `Requests.HeaderFirstNonEmptyWins` | src/lib/http_request.cxx:99-109 | for repeated headers the first non-empty value is kept under every spelling and later ones are dropped; other names are untouched; the size grows only for a new name; the host follows every `Host` value |
| `Requests.OnVersion` | src/lib/http_request.cxx:114-131 | `on_version` changes only the version, and a token not shaped `digits.digits` changes nothing and does not fail the parse |
| `Requests.VersionDigits` | src/lib/http_request.cxx:119-125 | `major.minor` digit strings set both numbers, each reduced to 16 bits |
| `Requests.VersionRoundTrip` | src/lib/http_request.cxx:119-125 | a version written as `a.b` is read back as `a` and `b` |
| `Requests.Apply` | src/lib/http_request.cxx:40-44 | a callback fails exactly on a method token that is not recognised, and never breaks the header store |
| `Requests.Parse` | src/lib/http_request.cxx:146-155 | a successful parse keeps the header store well formed |
| `Requests.ParseFailsIffUnknownMethod` | src/lib/http_request.cxx:146-155 | a parse fails exactly when some method token is not recognised, and then reports such a token |
| `Requests.ParseRequestLineAndTwoHeaders` | src/lib/http_request.cxx:146-155 | a recognised request line followed by two headers parses as the five callbacks applied in order |
| `Requests.GetHelloExample` | src/test/test_http_server.cxx:64-81 | the server test's request `GET /hello?param=123&test=abc`, reduced to the two headers the test asserts (`Host: localhost:8080` and `HeaderName: header value`), parses to the method, URL, path, query, version 1.1, host `localhost` and headers the test asserts |
| `Server.NewRouter` | src/include/lightning/http_server.h:50-51 | a new server has every method's route list empty and no default handler |
| `Server.SlotPerMethod` | src/include/lightning/http_server.h:50 | every slot of the route table belongs to exactly one method |
| `Server.AddRoute` | src/lib/http_server.cxx:54-58 | `addRoute` appends to its method's list only; other methods' lists and the default handler are unchanged |
| `Server.SetDefault` | src/include/lightning/http_server.h:37 | `setDefault` installs the default handler and leaves the routes alone |
| `Server.CPath` | src/lib/http_server.cxx:116 | the compared route path is the registered path up to its first NUL, or all of it when it has none |
| `Server.FindRoute` | src/lib/http_server.cxx:115-120 | `find_if` yields the first route whose path equals the request path, and nothing exactly when no route matches |
| `Server.Find` | src/lib/http_server.cxx:108-123 | `_find` yields the handler of the first matching route in the request method's list, and nothing exactly when no route there matches |
| `Server.Dispatch` | src/lib/http_server.cxx:77-91 | the found handler runs; otherwise the default handler runs; otherwise the response is the 404 fallback, `404` with body `Not found` and the `Content-Type` header set on the given response |
| `Server.NotFound` | src/lib/http_server.cxx:83-86 | the 404 fallback has status 404, body `Not found` and a content type, and keeps the header store well formed |
| `Server.NotFoundHeaders` | src/lib/http_server.cxx:83-86 | the 404 keeps a content type already present, stores the default one otherwise, and leaves every other header as it was |
| `Server.NotFoundShape` | src/lib/http_server.cxx:83-86 | on a fresh response the 404 carries exactly one header, `Content-Type` under the caller's spelling, because `send` finds it already present |
| `Server.FindReadsOnlyItsSlot` | src/lib/http_server.cxx:108-117 | lookup depends only on the request method's own list |
| `Server.FindRouteAppend` | src/lib/http_server.cxx:115-122 | appending a route changes lookup only when no earlier route matched and the new one does |
| `Server.FirstMatchUnique` | src/lib/http_server.cxx:115-117 | a matching route with no earlier match is the one `find_if` yields |
| `Server.FindAfterAddRoute` | src/lib/http_server.cxx:54-58 | after `addRoute`, other methods see no change; for its method an earlier match shadows the new route, and otherwise the new route answers its own path |
| `Server.ExactPathExample` | src/lib/http_server.cxx:116 | a route `/v1/hello` answers `/v1/hello` and not `/v1/hello/` or `/V1/hello` |
| `Server.FirstRegistrationWins` | src/lib/http_server.cxx:115-117 | with two handlers on the same method and path, the first registered one is dispatched |
| `Server.MissFallsBack` | src/lib/http_server.cxx:82-89 | when no route of the method matches the path, a default handler answers, and without one the 404 does, carrying exactly one `Content-Type` entry on a fresh response |
| `Connection.NewBuffer` | src/include/lightning/http_connection.h:47-49 | a new buffer is 4096 bytes, every one zero, with nothing ready |
| `Connection.Fill` | src/include/lightning/http_connection.h:24-26 | a read overwrites the front of the buffer with the chunk and leaves the rest as it was |
| `Connection.ObtainedBytes` | src/include/lightning/http_connection.h:28-31 | `obtainedBytes(n)` makes `n` bytes ready from position 0 |
| `Connection.ConsumedBytes` | src/include/lightning/http_connection.h:33-36 | `consumedBytes(k)` moves `k` bytes from the ready length to the ready position; the end of the ready window stays put |
| `Connection.Bytes` | src/include/lightning/http_connection.h:38-40 | the scan sees `length()` bytes counted from the start of the buffer, whatever the ready position |
| `Connection.ScanFrom` | src/lib/http_connection.cxx:67-72 | the scan yields the first CR LF CR LF at or after its start, and nothing when there is none |
| `Connection.FindTerminator` | src/lib/http_connection.cxx:62-72 | the whole scan yields the first CR LF CR LF in the ready bytes, and nothing exactly when there is none |
| `Connection.FindTerminatorExtend` | src/lib/http_connection.cxx:67-72 | more bytes after a terminator do not change where the scan stops |
| `Connection.FirstTerminatorUnique` | src/lib/http_connection.cxx:67-72 | a terminator with none before it is the one the scan yields |
| `Connection.NewConnection` | src/include/lightning/http_connection.h:55-65 | a new connection has an empty buffer, nothing pending and nothing dispatched |
| `Connection.ConsumeData` | src/lib/http_connection.cxx:62-93 | with a terminator at `i`, `i + 4` bytes are consumed and framed, dispatched once, and nothing is pending; without one, every ready byte is consumed and another read is issued |
| `Connection.WaitForHttpMessage` | src/lib/http_connection.cxx:22-32 | leftover ready bytes are scanned again; with none, a read is issued |
| `Connection.AfterRead` | src/lib/http_connection.cxx:49-57 | a successful read makes its bytes ready and scans them; a failed read closes the socket and scans nothing |
| `Connection.ReadScansChunk` | src/lib/http_connection.cxx:49-53 | after a successful read the scan sees exactly the chunk just read |
| `Connection.ReadErrorCloses` | src/lib/http_connection.cxx:54-56 | a read error closes the connection and leaves buffer and dispatches untouched |
| `Connection.ReadWithTerminator` | src/lib/http_connection.cxx:74-88 | a read holding a complete header block dispatches it up to and including its first CR LF CR LF, and leaves the bytes after it ready |
| `Connection.ReadWithoutTerminator` | src/lib/http_connection.cxx:89-92 | a read without a complete header block is consumed whole and another read is issued |
| `Connection.SplitTerminatorMissed` | src/lib/http_connection.cxx:66 | a CR LF CR LF split across two reads is never seen: nothing is dispatched and reading goes on |
| `Connection.RescanIgnoresPosition` | src/lib/http_connection.cxx:22-27 | the outcome of the rescan does not depend on the ready position |
| `Connection.PipelinedRead` | src/lib/http_connection.cxx:74-88 | two requests in one read: the first is framed and the second is left ready |
| `Connection.RescanFindsFirst` | src/lib/http_connection.cxx:22-27 | with both requests at the front of the buffer, the rescan stops at the first request's terminator |
| `Connection.PipelineRescansFirst` | src/lib/http_connection.cxx:22-27 | two requests in one read, the first no longer than the second: the rescan dispatches the first request again and never the second |
| `Connection.Pending` | src/include/lightning/http_connection.h:33-36 | the ready window is the `length()` bytes starting at the ready position |
| `Connection.ConsumePending` | src/lib/http_connection.cxx:62-93 | the scan of the ready window frames the bytes up to its first terminator and consumes them, or consumes the whole window and reads again |
| `Connection.WaitForPending` | src/lib/http_connection.cxx:22-32 | the rescan of leftover bytes reads the ready window; with none, a read is issued |
| `Connection.PendingIsUnconsumed` | src/lib/http_connection.cxx:74-88 | after a read that frames a request, the ready window is exactly the rest of the chunk |
| `Connection.PipelineDispatchesBoth` | src/lib/http_connection.cxx:22-27 | with the ready-window rescan, two requests in one read are both dispatched, once each and in order, and nothing is left ready |
| `Connection.PendingWholeMessage` | src/lib/http_connection.cxx:62-88 | a ready window that is exactly one request is dispatched whole |
| `Connection.Run` | src/lib/http_connection.cxx:22-57 | any sequence of read events keeps the buffer well formed |
| `Connection.RunStopsOnFailure` | src/lib/http_connection.cxx:54-56 | a failed first read ends the connection with nothing dispatched |
| `Connection.RunStopsOnFrame` | src/lib/http_connection.cxx:74-88 | a first read holding a header block is the only dispatch |
| `Connection.RunDispatchesAtMostOnce` | src/lib/http_connection.cxx:62-125 | a connection dispatches at most once, exactly when some read holds a complete header block and every earlier read succeeded without one; the frame is that read up to its first CR LF CR LF, and nothing is pending afterwards |
| `StringUtil.Span` | src/include/lightning/string_util.h:43-57 | a loop from `lo` to `hi` visits exactly the indices `lo .. hi-1`, in order |
| `StringUtil.RenderSnoc` | src/include/lightning/string_util.h:44-45 | writing one more item appends its separator and its text |
| `StringUtil.ItemsParts` | src/include/lightning/string_util.h:43-57 | the output consists of the leading elements, the elision when elements are left over, and the trailing elements |
| `StringUtil.InBoundsMeansShownInBuffer` | src/include/lightning/string_util.h:26-60 | the bounds requirement on the parameters holds exactly when every element shown lies in the buffer |
| `StringUtil.ElementStep` | src/include/lightning/string_util.h:44-45 | one loop turn writes `", "` unless the index is 0, then the element |
| `StringUtil.WriteElement` | src/include/lightning/string_util.h:44-45 | one loop turn extends the rendering by exactly one element |
| `StringUtil.WriteElements` | src/include/lightning/string_util.h:43-46 | an element loop from `lo` to `hi` writes the rendering of the indices `lo .. hi-1` after what was already written |
| `StringUtil.ElisionStep` | src/include/lightning/string_util.h:48-51 | the elision text follows its separator |
| `StringUtil.WriteElision` | src/include/lightning/string_util.h:48-51 | the elision is written with its separator exactly when `numStart != 0`, and states the number of elements left out |
| `StringUtil.FmtParts` | src/include/lightning/string_util.h:40-57 | the leading part, the elision if any, and the trailing part together are the whole output |
| `StringUtil.FmtBuffer` | src/include/lightning/string_util.h:26-60 | the output renders the leading `numStart` elements, the elision and the trailing `numEnd` elements, and is empty for an empty array or when neither end is asked for |
| `StringUtil.ItemsIncreasing` | src/include/lightning/string_util.h:43-57 | the shown indices strictly increase, so no element is shown twice, and only trailing elements follow the elision |
| `StringUtil.ItemsCoverAll` | src/include/lightning/string_util.h:48-57 | when `numStart + numEnd` covers the array, every element is shown once, in order, with no elision |
| `StringUtil.ElisionIff` | src/include/lightning/string_util.h:48-51 | an elision appears exactly when something is printed and more than `numStart + numEnd` elements exist, and it reports that surplus |
| `StringUtil.DefaultsExample` | src/include/lightning/string_util.h:31-32 | with the default parameters, twenty elements show as the first eight, an elision of eight, and the last four |
| `StringUtil.NegativeNumStartLeadsWithSeparator` | src/include/lightning/string_util.h:48-50 | with a negative `numStart`, the output starts with the elision and its `", "` separator |

## Left out

- The network and concurrency: asio, the thread pool, the acceptor and accept loop (`_acceptNext`), the socket, and the server's constructor and destructor. A read is a `ReadEvent` parameter.
- `request.ip` and `request.protocol`, which the connection sets before dispatch. The ip comes from the socket; the protocol is the constant `ProtocolType::kHttp`.
- The llhttp tokenizer, and every tokenizer error other than a failed method callback. A parse is the sequence of tokens the tokenizer would report.
- `on_status` and `on_body`, `params`, `statusCode` and `body`. They matter only for responses and request bodies, which the server does not route on.
- `Requests.Parse` can fail on an unrecognised method token, but nothing in the source consumes that outcome: `_parseResponse` discards the result of `request.parse`, and `_consumeData` dispatches the request anyway, with its method uninitialised. The model's parse failure has no consumer, and the connection model dispatches the framed bytes without parsing them.
- `Responses.Data` writes the stored headers in insertion order. The source walks an `std::unordered_map`, whose order is unspecified, so `Responses.DataRoundTrip` and `Responses.HeaderBlockAsFields` fix an order the source does not promise.
- `Responses.Data` counts the body's `char`s for `content-length`, and each `char` stands for one byte. The source counts the bytes of an `std::string`; a body holding characters above U+00FF has no byte reading here.
- `Connection.ConsumeData` records the framed bytes as the dispatched message. The source instead hands the parser everything from the start of the buffer up to its first NUL (`strlen`). That can include bytes after the frame, and stale bytes from an earlier, longer read.
- Logging, including the `fmtBuffer` calls made only for logging.
- `Requests.OnVersion` reduces each number modulo 65536. This matches `atoi` stored in a 16-bit field for values up to `INT_MAX`. `atoi` beyond the `int` range is undefined behaviour and is not modelled.
- `Requests.NewRequest` starts the method at GET, the version at 0.0, `ip` empty and `protocol` at `kUnknown`. The source leaves the method, the version and the protocol uninitialised, and the model never sets `ip` or `protocol` (see the line on them above).
- `Requests.OnHeaderValue` stores into the entry of the field reported just before. The source writes through `headers.last()`, and nothing in `HttpHeader` ever assigns the `_last` iterator that `last()` returns. As written, that is a default-constructed iterator. The model states the evident intent, not that behaviour.
- `StringUtil.FmtBuffer` requires `len - numStart`, `len - numStart - numEnd` and `len - numEnd` to fit in 64 bits whenever something is printed. The source computes them in `int64_t`, where an overflow is undefined behaviour, so those inputs have no defined output. It also leaves the number formatting to a `show` parameter. `std::fixed`, the precision argument and the `uint32_t` cast of byte-sized elements are not modelled. An element outside the buffer renders as nothing (`ItemText`); the bounds requirement excludes that case.
- Handlers are opaque values, and running one is a parameter. An empty `std::function` is not modelled. Registered as a route handler, calling it would throw. Passed to `setDefault`, it compares equal to `nullptr`, so the source sends the 404.
- `HttpHeader`'s `operator<<` and its iterators. The only walk over the store that the model uses is the one in `data()`, in insertion order.
- The response write and keep-alive are a commented-out stub in the source, so nothing is written back.
- The `InputBuffer::str()` view and `makeAsioBuffer` beyond the overwrite of the buffer front (`Connection.Fill`).

## Findings

| source | as written | input that shows it | evidently intended | confidence | as-written member | corrected member |
|---|---|---|---|---|---|---|
| src/lib/http_connection.cxx:22-27 | `waitForHttpMessage` passes `bytes()`, the start of the buffer, with `length()` leftover bytes, so the rescan reads the bytes already consumed | two requests `m1`, `m2` arriving in one read, `m1` no longer than `m2`: the rescan frames `m1` again and `m2` is never dispatched | scan the `length()` bytes at the ready position, as the comment on the branch says, so `m2` is dispatched next | medium, not executed; latent while the response write stub never calls `waitForHttpMessage` again | `Connection.PipelineRescansFirst` | `Connection.PipelineDispatchesBoth` |

`Connection.WaitForHttpMessage` models the rescan as written.
`Connection.WaitForPending` is the corrected rescan. No other part of the model calls either one, because the source never re-arms a connection after a dispatch.
