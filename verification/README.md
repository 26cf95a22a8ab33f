# The Stubborn Network, modelled in Dafny

The Stubborn Network lets a test replace live HTTP calls with recorded ones. This project
models its decision logic as immutable datatypes and pure functions, and proves what that
logic promises. Each operation maps a state value to a new state value.

- **Request matcher** (`matcher.dfy`, module `Matcher`). `URLRequest.matches(_:options:)`
  decides whether two requests are the same for playback:
  - any custom predicate that says yes wins;
  - otherwise every selected criterion must hold: URL (path plus name-sorted query items),
    HTTP method, header fields (lower-cased name plus value, compared sorted) and body.

  `Matcher.Matches` is the matcher as written, and every other part of the model uses it.
  Its query comparator sorts by name only, so the order of parameters with one name matters
  (see Findings). `Matcher.MatchesIntended` is the same matcher with the comparator corrected.
- **Stub record and codec** (`request_stub.dfy`, module `RequestStubs`).
  - One record type: `request, requestData, response, responseData, error`.
  - It is encoded to a keyed tree, the shape of the JSON in a stub file.
  - Each header travels as the string `name[:::]value`; `httpHeaders(from:)` reads it back.
  - Decoding fails with `missingRequestURLError` or `missingResponseURLError`.
- **Stub sources**:
  - `stub_source.dfy`: the interface the session drives (store, has-stub, deliver, clear) and
    the laws a source may keep;
  - `ephemeral_stub_source.dfy`: the in-memory source, three dictionaries keyed by the exact
    request;
  - `persistent_stub_source.dfy`: the file-backed source, an ordered list with
    append-on-store, first-match lookup under its own older matcher, and the whole list
    written back after every change.
- **Session stub** (`url_session_stub.dfy`, module `UrlSessionStub`). `URLSessionStub` works
  in three record modes:
  - playback answers from the stub source;
  - record sends every request to the real session and stores the answer;
  - record-new records only what the source lacks.

  An optional body processor rewrites bodies before storing and before delivering.
- **Interception hook** (`stubbed_session_url_protocol.dfy`). `StubbedSessionURLProtocol`
  accepts only `http` and `https` requests. For one request it tells its client the stub's
  data, then the stub's response, then that loading finished.

`base.dfy` (Option, Result, bytes), `text.dfy` (string order, ASCII lower-casing,
`components(separatedBy:)`), `sorting.dfy` (a stable insertion sort standing in for
`sorted(by:)`) and `http.dfy` (URL, request, response, and dictionary enumeration) hold the
shared vocabulary.

Swift's dictionary iteration order is unspecified. The model enumerates a header dictionary
through one fixed but unknown choice (`Http.Entries`). Every consumer of that enumeration is
proved not to depend on it: the matchers sort it, and the decoder rebuilds a dictionary from
it.

Behaviour of the code worth knowing, which the model follows:
- **Empty response section.** A stub file whose `response` object is empty, or which has no
  HTTP response, does not decode. The decoder requires `responseData`, `url`, `headerFields`
  and `statusCode`, so it fails (`RequestStubs.NonHttpResponseDoesNotDecode`). It does not
  yield a stub without a response.
- **Clearing in record mode.** Assigning `.record` clears the stub source on every
  assignment, including when the mode already was `.record`, because `didSet` runs for every
  write.
- **Event order.** The interception hook reports the stub's data before its response.
- **Header order.** Header order is not preserved across encoding, because headers are held
  in a dictionary.
- **No error precedence.** Delivery hands over data, response and error as stored; an error
  does not take precedence over the other two.
- **Lookup does not consume.** The persistent source's lookup does not remove the stub it
  finds.

## Model

| member | source | states |
|---|---|---|
| `Matcher.Matches` | Sources/StubbornNetwork/Extensions/URLRequest+Matcher.swift:22-66 | Two requests match exactly when some custom predicate accepts them, or else every selected built-in criterion holds, the URL criterion sorting query items by name only. |
| `Matcher.MatchesIntended` | Sources/StubbornNetwork/Extensions/URLRequest+Matcher.swift:22-58 | The corrected matcher: the same rule, with query items sorted by name and then by value. |
| `Matcher.UrlMatchesAsWritten` | Sources/StubbornNetwork/Extensions/URLRequest+Matcher.swift:51-66 | The URL criterion needs both URLs and equal paths, and query lists that are both present or both absent; a request with a URL matches its own URL. |
| `Matcher.MethodMatches` | Sources/StubbornNetwork/Extensions/URLRequest+Matcher.swift:72-74 | Two absent methods match, an absent method never matches a present one, and present methods match when equal. |
| `Matcher.BodyMatches` | Sources/StubbornNetwork/Extensions/URLRequest+Matcher.swift:68-70 | Bodies match exactly when they are equal; the extra both-absent case adds nothing. |
| `Matcher.HeadersMatch` | Sources/StubbornNetwork/Extensions/URLRequest+Matcher.swift:76-93 | Equal header dictionaries always match, and so do a missing one and an empty one. |
| `Matcher.CustomResultsSpec` | Sources/StubbornNetwork/Extensions/URLRequest+Matcher.swift:24-31 | The list of custom results contains `true` exactly when some custom criterion of the options accepts the pair. |
| `Matcher.CriterionResultsSpec` | Sources/StubbornNetwork/Extensions/URLRequest+Matcher.swift:33-48 | The built-in results contain no `false` exactly when every non-custom criterion of the options holds. |
| `Matcher.CustomAcceptOverrides` | Sources/StubbornNetwork/Extensions/URLRequest+Matcher.swift:24-31 | If any custom predicate says yes, the requests match whatever the other criteria say. |
| `Matcher.NoCriteriaMatchesAll` | Sources/StubbornNetwork/Extensions/URLRequest+Matcher.swift:33-48 | Options made only of custom predicates match every pair, whatever the predicates say. |
| `Matcher.MatchesSymmetric` | Sources/StubbornNetwork/Extensions/URLRequest+Matcher.swift:51-93 | Without custom predicates, matching is symmetric. |
| `Matcher.MatchesReflexive` | Sources/StubbornNetwork/Extensions/URLRequest+Matcher.swift:51-93 | Every request with a URL matches itself under any options. |
| `Matcher.MissingUrlNeverMatches` | Sources/StubbornNetwork/Extensions/URLRequest+Matcher.swift:51-53 | When the URL criterion is selected and no custom predicate accepts, a request pair with a missing URL never matches. |
| `Matcher.MatchesIgnoresQueryOrder` | Sources/StubbornNetwork/Extensions/URLRequest+Matcher.swift:51-66 | As written, reordering query parameters with distinct names never changes whether a request matches another. |
| `Matcher.DistinctNamesPermutation` | Sources/StubbornNetwork/Extensions/URLRequest+Matcher.swift:56-58 | Reordering query items keeps their names distinct. |
| `Matcher.MatchesIntendedIgnoresQueryOrder` | Sources/StubbornNetwork/Extensions/URLRequest+Matcher.swift:56-58 | With the corrected comparator, reordering any query parameters, repeated names included, never changes whether a request matches another. |
| `Matcher.MatchesOrderSensitive` | Sources/StubbornNetwork/Extensions/URLRequest+Matcher.swift:56-65 | Under the default options the matcher as written does not match `/p?a=1&a=2` with `/p?a=2&a=1`; the corrected matcher does. |
| `Matcher.UrlMatchesSpec` | Sources/StubbornNetwork/Extensions/URLRequest+Matcher.swift:51-66 | With the corrected comparator, URLs match exactly when both are present, the paths are equal and the query lists hold the same items in any order. |
| `Matcher.UrlMatchesAsWrittenSpec` | Sources/StubbornNetwork/Extensions/URLRequest+Matcher.swift:51-66 | As written, the URL criterion is the same whenever the first request's query names are distinct. |
| `Matcher.UrlMatchesAsWrittenOrderSensitive` | Sources/StubbornNetwork/Extensions/URLRequest+Matcher.swift:56-63 | As written, `/p?a=1&a=2` does not match `/p?a=2&a=1`, although the corrected criterion matches them. |
| `Matcher.QueryOrderAsWrittenIsByName` | Sources/StubbornNetwork/Extensions/URLRequest+Matcher.swift:56-58 | The written query comparator orders by name alone; its value tie-break never decides anything. |
| `Matcher.QueryOrderAsWrittenIsWeak` | Sources/StubbornNetwork/Extensions/URLRequest+Matcher.swift:56-58 | The written comparator is a strict weak order, and a total one on items with distinct names. |
| `Matcher.QueryOrderIsStrictTotal` | Sources/StubbornNetwork/Extensions/URLRequest+Matcher.swift:56-58 | The corrected comparator (by name, then by value, absent value first) is a strict total order. |
| `Matcher.HeadersMatchSpec` | Sources/StubbornNetwork/Extensions/URLRequest+Matcher.swift:76-93 | Header fields match exactly when both sides give the same multiset of lower-cased-name-plus-value strings, absent fields counting as none. |
| `Matcher.HeadersMatchIgnoresEnumeration` | Sources/StubbornNetwork/Extensions/URLRequest+Matcher.swift:77-85 | The header verdict does not depend on the order in which the dictionaries are enumerated. |
| `Matcher.HeadersAbsentEqualsEmpty` | Sources/StubbornNetwork/Extensions/URLRequest+Matcher.swift:87-88 | Absent header fields and an empty dictionary match, both ways round. |
| `Matcher.HeadersIgnoreNameCase` | Sources/StubbornNetwork/Extensions/URLRequest+Matcher.swift:77-85 | Two single headers whose names agree after lower-casing and whose values are equal match. |
| `Matcher.HeadersIgnoreNameCaseExample` | Tests/StubbornNetworkTests/URLRequestMatcherTests.swift:27-32 | `ABC: alphabet` matches `abc: alphabet`. |
| `Matcher.HeadersDifferentValues` | Sources/StubbornNetwork/Extensions/URLRequest+Matcher.swift:87-92 | The same name with different values, such as differently ordered comma-joined values, does not match. |
| `Matcher.HeadersJoinCollision` | Sources/StubbornNetwork/Extensions/URLRequest+Matcher.swift:77-85 | Name and value are concatenated without a separator, so `ab: c` matches `a: bc`. |
| `Matcher.FieldStringsPermutation` | Sources/StubbornNetwork/Extensions/URLRequest+Matcher.swift:77-79 | Enumerating the same entries in another order gives a permutation of the header strings. |
| `Matcher.SortStringsSpec` | Sources/StubbornNetwork/Extensions/URLRequest+Matcher.swift:80-85 | Two string lists sorted by `<` are equal exactly when the lists are permutations of each other. |
| `Sorting.SortEqualIffPermutation` | Sources/StubbornNetwork/Extensions/URLRequest+Matcher.swift:56-65 | Under a strict weak order total on the items, the sorted lists are equal exactly when the inputs are permutations of each other. |
| `Sorting.Sort` | Sources/StubbornNetwork/Extensions/URLRequest+Matcher.swift:56-58 | `sorted(by:)` returns a permutation of its input. |
| `Sorting.SortSorted` | Sources/StubbornNetwork/Extensions/URLRequest+Matcher.swift:56-58 | Under a strict weak order the result of `sorted(by:)` is in order. |
| `Text.Lower` | Sources/StubbornNetwork/Extensions/URLRequest+Matcher.swift:78 | `lowercased()` keeps the length and lower-cases each character on its own. |
| `Text.LessIsStrictTotal` | Sources/StubbornNetwork/Extensions/URLRequest+Matcher.swift:80 | String `<` is a strict total order. |
| `Text.ComponentsOfJoined` | Sources/StubbornNetwork/RequestStub.swift:122 | Splitting `name[:::]value` at the separator gives `[name, value]` when neither part contains the separator. |
| `Text.ComponentsOfPlain` | Sources/StubbornNetwork/RequestStub.swift:122 | A string without the separator splits into itself alone. |
| `Http.DefaultRequest` | Sources/StubbornNetwork/URLSessionStub.swift:119 | `URLRequest(url:)` has that URL, method GET, no header fields and no body. |
| `Http.Entries` | Sources/StubbornNetwork/RequestStub.swift:49-51 | Some enumeration of a dictionary: every entry exactly once, names distinct, nothing else. |
| `Http.EnumerationsArePermutations` | Sources/StubbornNetwork/RequestStub.swift:49-51 | Any two enumerations of one dictionary are permutations of each other. |
| `RequestStubs.EncodeFieldsSpec` | Sources/StubbornNetwork/RequestStub.swift:49-51 | The encoded header list has one string per dictionary entry, each written as `name[:::]value`, and nothing else. |
| `RequestStubs.EncodeRequestHeaders` | Sources/StubbornNetwork/RequestStub.swift:49-52 | Every request header appears in the request section as `name[:::]value`. |
| `RequestStubs.EncodeResponseHeaders` | Sources/StubbornNetwork/RequestStub.swift:64-65 | Every header of an HTTP response appears in the response section as `name[:::]value`. |
| `RequestStubs.Encode` | Sources/StubbornNetwork/RequestStub.swift:44-68 | The encoding has exactly the top-level keys request, requestData and response (no error key). The request section has url, headerFields, method and requestData; the response section always has responseData. |
| `RequestStubs.ResponseSectionOnlyData` | Sources/StubbornNetwork/RequestStub.swift:58-67 | The response section holds only `responseData` exactly when the response is absent or not HTTP. |
| `RequestStubs.Assign` | Sources/StubbornNetwork/RequestStub.swift:121-126 | Folding the split pairs into a dictionary makes every pair's name a key. |
| `RequestStubs.AssignLastWins` | Sources/StubbornNetwork/RequestStub.swift:121-126 | Each key takes the value of the last pair that carries that name. |
| `RequestStubs.SplitJoined` | Sources/StubbornNetwork/RequestStub.swift:120-129 | Splitting joined entries gives the entries back when no name or value contains the separator. |
| `RequestStubs.HttpHeadersInvertsJoin` | Sources/StubbornNetwork/RequestStub.swift:120-129 | `httpHeaders(from:)` rebuilds the dictionary from its joined strings in any enumeration order, when no name or value contains the separator. |
| `RequestStubs.HttpHeadersInvertsEncode` | Sources/StubbornNetwork/RequestStub.swift:120-129 | `httpHeaders(from:)` inverts the header encoding the encoder uses. |
| `RequestStubs.HttpHeaders` | Sources/StubbornNetwork/RequestStub.swift:120-129 | Every string's name (its first component) becomes a key; no strings give an empty dictionary. |
| `RequestStubs.HttpHeadersLaterWins` | Sources/StubbornNetwork/RequestStub.swift:123-125 | When two strings carry one name, the later string's value wins. |
| `RequestStubs.HttpHeadersOfPlainString` | Sources/StubbornNetwork/RequestStub.swift:122-124 | A string without the separator becomes a header whose name and value are both that string. |
| `RequestStubs.DecodeRequest` | Sources/StubbornNetwork/RequestStub.swift:81-92 | A decoded request always has a URL, a method and header fields. |
| `RequestStubs.DecodeResponse` | Sources/StubbornNetwork/RequestStub.swift:95-109 | A decoded response is an HTTP response with a URL. |
| `RequestStubs.Decode` | Sources/StubbornNetwork/RequestStub.swift:78-112 | A decoded stub's request data is its request body and its error is absent. Its request has URL, method and header fields; its response is HTTP with a URL; its response data is present. |
| `RequestStubs.DecodeList` | Sources/StubbornNetwork/PersistentStubSource.swift:40 | A list decodes only when it is a list tree and every element decodes, the results in the same order. |
| `RequestStubs.DecodeItemsErr` | Sources/StubbornNetwork/PersistentStubSource.swift:40 | A list fails to decode only when one of its elements fails. |
| `RequestStubs.DecodeRequestUrlError` | Sources/StubbornNetwork/RequestStub.swift:82-85 | `missingRequestURLError("Unable to decode URL")` is raised exactly when the request URL text is present but does not parse. |
| `RequestStubs.DecodeResponseUrlErrorOf` | Sources/StubbornNetwork/RequestStub.swift:95-104 | The response section fails with `missingResponseURLError(u)` exactly when its data, URL text `u`, header strings and status code all read and `u` does not parse. |
| `RequestStubs.DecodeResponseUrlError` | Sources/StubbornNetwork/RequestStub.swift:78-104 | `missingResponseURLError(u)` is raised exactly when the request section and the rest of the response section read and the response URL text `u` does not parse. |
| `RequestStubs.Normalized` | Sources/StubbornNetwork/RequestStub.swift:91-92 | The normal form keeps request, response and response data, replaces the request data with the request body, and drops the error. |
| `RequestStubs.RequestSectionRoundTrip` | Sources/StubbornNetwork/RequestStub.swift:47-54 | The request section decodes back to the request: URL, method, header dictionary and body. |
| `RequestStubs.ResponseSectionRoundTrip` | Sources/StubbornNetwork/RequestStub.swift:58-67 | The response section of an HTTP response with a URL decodes back to that response (URL, status code, headers) and its data. |
| `RequestStubs.RoundTrip` | Sources/StubbornNetwork/RequestStub.swift:44-112 | Decoding an encoded stub gives back its normal form, for every stub with an HTTP response with a URL, response data, reparsable URLs and header text without the separator. |
| `RequestStubs.RoundTripExact` | Sources/StubbornNetwork/RequestStub.swift:44-112 | A stub already in normal form survives the round trip unchanged. |
| `RequestStubs.NonHttpResponseDoesNotDecode` | Sources/StubbornNetwork/RequestStub.swift:58-67 | A stub without an HTTP response cannot be read back: decoding fails for the missing response URL key. |
| `RequestStubs.MissingHeaderFieldsDoNotDecode` | Sources/StubbornNetwork/RequestStub.swift:49-52 | A request without header fields is encoded as null and fails to decode at `headerFields`. |
| `RequestStubs.MissingResponseDataDoesNotDecode` | Sources/StubbornNetwork/RequestStub.swift:96 | A stub without response data fails to decode at `responseData`. |
| `RequestStubs.RoundTripEquality` | Sources/StubbornNetwork/RequestStub.swift:132-139 | The decoded stub equals the encoded one under `==` exactly when the encoded stub had no error and its request data was its request body. |
| `RequestStubs.NormalizedSameStub` | Sources/StubbornNetwork/RequestStub.swift:132-139 | A stub is `==` to its normal form exactly when it has no error and its request data is its request body. |
| `RequestStubs.SameStub` | Sources/StubbornNetwork/RequestStub.swift:132-139 | Equal stubs under `==` have requests with URLs, and equal methods and bodies. |
| `EphemeralStubSource.Store` | Sources/StubbornNetwork/EphemeralStubSource.swift:21-32 | Under the stub's request each component the stub carries is written, and an absent component leaves what was there. |
| `EphemeralStubSource.Find` | Sources/StubbornNetwork/EphemeralStubSource.swift:38-43 | `dict[key] ?? nil` is present exactly when the key is, and then is the stored value. |
| `EphemeralStubSource.HasStub` | Sources/StubbornNetwork/EphemeralStubSource.swift:34-36 | A request has a stub exactly when response data is recorded for it. |
| `EphemeralStubSource.Deliver` | Sources/StubbornNetwork/EphemeralStubSource.swift:38-43 | Delivery has data exactly when the request has a stub. |
| `EphemeralStubSource.Clear` | Sources/StubbornNetwork/URLSessionStub.swift:25-27 | After clearing, no request has a stub and every delivery is three nils. |
| `EphemeralStubSource.OpsLawful` | Sources/StubbornNetwork/EphemeralStubSource.swift:21-43 | The ephemeral source keeps the interface laws: clear forgets, a store with data is remembered, a known request delivers. |
| `EphemeralStubSource.StoreFrame` | Sources/StubbornNetwork/EphemeralStubSource.swift:21-43 | Storing under one request leaves `hasStub` and delivery for every other request unchanged. |
| `EphemeralStubSource.StoreThenDeliver` | Sources/StubbornNetwork/EphemeralStubSource.swift:21-43 | After a store, delivery for its request gives each component the stub carries, else what was stored before. |
| `EphemeralStubSource.HasStubAfterStores` | Sources/StubbornNetwork/EphemeralStubSource.swift:34-36 | After a sequence of stores, a request has a stub exactly when it had one before or some stored stub for exactly that request carried data. |
| `EphemeralStubSource.DataAfterStores` | Sources/StubbornNetwork/EphemeralStubSource.swift:22-24 | The delivered data is that of the last stub for the request that carried data. |
| `EphemeralStubSource.KeepsDataWithoutNew` | Sources/StubbornNetwork/EphemeralStubSource.swift:22-24 | Stubs without data never erase recorded data. |
| `PersistentStubSource.StubMatches` | Sources/StubbornNetwork/PersistentStubSource.swift:73-93 | A match needs equal URLs, and header fields present on both sides or on neither. |
| `PersistentStubSource.StubMatchesSpec` | Sources/StubbornNetwork/PersistentStubSource.swift:73-93 | The source's matcher holds exactly when URLs and methods are equal and the `name + value` header strings are the same multiset, absent fields matching only absent fields. |
| `PersistentStubSource.StubMatchesReflexive` | Sources/StubbornNetwork/PersistentStubSource.swift:73-93 | Every request matches a stub recorded for it. |
| `PersistentStubSource.StubMatchesCaseSensitive` | Sources/StubbornNetwork/PersistentStubSource.swift:76-78 | The source's matcher distinguishes `ABC: alphabet` from `abc: alphabet`. |
| `PersistentStubSource.StubMatchesAbsentIsNotEmpty` | Sources/StubbornNetwork/PersistentStubSource.swift:76-90 | Absent header fields do not match an empty dictionary in this matcher. |
| `PersistentStubSource.FirstIndex` | Sources/StubbornNetwork/PersistentStubSource.swift:54 | `filter(...).first`: the result satisfies the test and no earlier element does; none means no element does. |
| `PersistentStubSource.Lookup` | Sources/StubbornNetwork/PersistentStubSource.swift:52-55 | Lookup finds nothing exactly when no stub matches; otherwise it finds a matching stub with no matching stub before it. |
| `PersistentStubSource.HasStub` | Sources/StubbornNetwork/PersistentStubSource.swift:52-55 | A request has a stub exactly when some stored stub matches it. |
| `PersistentStubSource.Deliver` | Sources/StubbornNetwork/PersistentStubSource.swift:31-35 | Delivery is refused, naming the request, exactly when no stub matches; it is never an empty answer. |
| `PersistentStubSource.Append` | Sources/StubbornNetwork/PersistentStubSource.swift:60 | Storing puts the stub last: the length grows by one and earlier entries are unchanged. |
| `PersistentStubSource.Store` | Sources/StubbornNetwork/PersistentStubSource.swift:57-66 | A store appends and writes a list with one entry per stub of the new list. |
| `PersistentStubSource.Clear` | Sources/StubbornNetwork/URLSessionStub.swift:25-27 | Clearing, which the session stub asks for on entering record mode, empties the list and writes an empty list. |
| `PersistentStubSource.SetupStubs` | Sources/StubbornNetwork/PersistentStubSource.swift:37-45 | Decoded stubs are appended after the present ones in input order; a file that does not decode changes nothing. |
| `PersistentStubSource.Load` | Sources/StubbornNetwork/PersistentStubSource.swift:23-29 | Without a readable file the source starts empty. |
| `PersistentStubSource.StoreThenLookup` | Sources/StubbornNetwork/PersistentStubSource.swift:52-60 | After a store, lookup of the stored request finds a stub, and finds the stored stub itself when no earlier stub matched. |
| `PersistentStubSource.StoreKeepsEarlierMatches` | Sources/StubbornNetwork/PersistentStubSource.swift:52-60 | A store never changes what lookup already found. |
| `PersistentStubSource.OpsLawful` | Sources/StubbornNetwork/PersistentStubSource.swift:31-60 | The persistent source keeps the interface laws: clear forgets, a stored request is found, a found request delivers. |
| `PersistentStubSource.SnapshotReloads` | Sources/StubbornNetwork/PersistentStubSource.swift:62-66 | The written stub file loads back into a fresh source as the whole list in order, each stub normalised. |
| `PersistentStubSource.StoreWritesWholeList` | Sources/StubbornNetwork/PersistentStubSource.swift:57-66 | After a store the file holds the whole list with the new stub last, not only the new stub. |
| `PersistentStubSource.UndecodableFileLoadsNothing` | Sources/StubbornNetwork/PersistentStubSource.swift:37-45 | A file that does not decode leaves a new source empty. |
| `UrlSessionStub.NewSession` | Sources/StubbornNetwork/URLSessionStub.swift:19-45 | A new session stub is in playback mode, has no body processor, and has the given stub source. |
| `UrlSessionStub.SetRecordMode` | Sources/StubbornNetwork/URLSessionStub.swift:23-29 | Assigning a mode sets it. Playback and record-new leave the source alone; record replaces it with its cleared form. |
| `UrlSessionStub.RecordAssignmentClears` | Sources/StubbornNetwork/URLSessionStub.swift:23-29 | After any assignment of record, including a repeated one, the source knows no request (for a source whose clear forgets). |
| `UrlSessionStub.PrepareBodyData` | Sources/StubbornNetwork/URLSessionStub.swift:61-74 | Without a processor both bodies pass through unchanged. |
| `UrlSessionStub.StubRecord` | Sources/StubbornNetwork/URLSessionStub.swift:47-59 | The stored stub is the request with only its body replaced by the prepared request body, and the prepared response data. Response and error pass through unchanged; there is no request data. Without a processor, request and data are unchanged. |
| `UrlSessionStub.Stub` | Sources/StubbornNetwork/URLSessionStub.swift:47-59 | `stub` stores exactly that one stub when there is a source, and changes nothing else. |
| `UrlSessionStub.DeliveryData` | Sources/StubbornNetwork/URLSessionStub.swift:96-98 | Delivered data is the delivery rewrite's result when it gives one, else the stored data. |
| `UrlSessionStub.Recorded` | Sources/StubbornNetwork/URLSessionStub.swift:86-91 | Recording hands over the real answer and keeps mode and processor; without a processor the stored stub is the real answer itself. |
| `UrlSessionStub.Served` | Sources/StubbornNetwork/URLSessionStub.swift:107-112 | Serving changes nothing; it is refused exactly when the source cannot deliver; otherwise response and error are the stored ones, and without a processor the whole stored answer is handed over. |
| `UrlSessionStub.DataTask` | Sources/StubbornNetwork/URLSessionStub.swift:78-114 | A missing stub source is the fatal abort, in every mode and only then. A data task keeps the mode and the processor. |
| `UrlSessionStub.DataTaskWithUrl` | Sources/StubbornNetwork/URLSessionStub.swift:116-121 | A data task for a URL is the data task for a GET request to that URL with no headers and no body. |
| `UrlSessionStub.RecordModeRecords` | Sources/StubbornNetwork/URLSessionStub.swift:86-91 | In record mode the real answer is stored through `stub` and handed over unprocessed. |
| `UrlSessionStub.RecordNewServesKnown` | Sources/StubbornNetwork/URLSessionStub.swift:92-101 | In record-new mode a known request is served from the source, through the delivery rewrite, and nothing is stored. |
| `UrlSessionStub.RecordNewRecordsUnknown` | Sources/StubbornNetwork/URLSessionStub.swift:102-106 | In record-new mode an unknown request is recorded exactly as in record mode. |
| `UrlSessionStub.PlaybackIgnoresRealSession` | Sources/StubbornNetwork/URLSessionStub.swift:107-112 | In playback mode the real session takes no part and the state does not change. |
| `UrlSessionStub.PlaybackDelivers` | Sources/StubbornNetwork/URLSessionStub.swift:107-112 | In playback the caller gets the stored response and error, and the rewritten or stored data; a source that cannot deliver stops the task. |
| `UrlSessionStub.RecordThenPlayback` | Sources/StubbornNetwork/URLSessionStub.swift:23-112 | With the ephemeral source and no processor: switch to record, make a request, switch to playback, and the same request replays the real answer exactly. |
| `StubbedSessionUrlProtocol.CanInitRequest` | Sources/StubbornNetwork/StubbedSessionURLProtocol.swift:71-78 | A request is accepted exactly when its URL has scheme `http` or `https`; no URL or no scheme is refused. |
| `StubbedSessionUrlProtocol.CanInitRefusesOthers` | Sources/StubbornNetwork/StubbedSessionURLProtocol.swift:73-78 | The case-sensitive scheme switch refuses `ftp` (the repository's test case) and `HTTP`. |
| `StubbedSessionUrlProtocol.CanInitTask` | Sources/StubbornNetwork/StubbedSessionURLProtocol.swift:21-23 | A task is accepted exactly when it has an original request that would be accepted. |
| `StubbedSessionUrlProtocol.CanonicalRequest` | Sources/StubbornNetwork/StubbedSessionURLProtocol.swift:43-45 | Every request is its own canonical form. |
| `StubbedSessionUrlProtocol.StubEvents` | Sources/StubbornNetwork/StubbedSessionURLProtocol.swift:29-35 | A found stub's own events never include the finish. |
| `StubbedSessionUrlProtocol.StartLoading` | Sources/StubbornNetwork/StubbedSessionURLProtocol.swift:25-39 | With a client the finish is reported exactly once and last, whether or not a task or stub exists; without a client nothing is reported. |
| `StubbedSessionUrlProtocol.DataBeforeResponse` | Sources/StubbornNetwork/StubbedSessionURLProtocol.swift:29-35 | A data event never comes after a response event. |
| `StubbedSessionUrlProtocol.StartLoadingEvents` | Sources/StubbornNetwork/StubbedSessionURLProtocol.swift:25-39 | For a found stub the events are its data (if any), its response (if any) and the finish, each carrying the stub's own values. Without a stub there is only the finish. |
| `StubbedSessionUrlProtocol.LoadsStoredStub` | Sources/StubbornNetwork/StubbedSessionURLProtocol.swift:26-38 | After the persistent source stores a stub with data and response, loading its request reports exactly that data, that response, and the finish. |

## Left out

- Real networking and the `URLSession`/`URLProtocol`/`URLSessionDataTask` machinery are not
  modelled, nor are asynchronous completion handlers. The real session is a function from
  request to `(data, response, error)`. A delivery is a returned value or an event list.
- File I/O, JSON text and base64 are not modelled. The codec works on an abstract keyed tree
  with byte blobs, and the persistent source's file is that tree.
- URL text is not parsed here. `absoluteString` and `URL(string:)` are an abstract
  format/parse pair (`RequestStubs.UrlSyntax`). Round trips assume that parsing gives a
  formatted URL back.
- Coding keys outside the record's own are not modelled. The tree's keys are an enum, so a
  stub file with extra keys is out of scope.
- Swift's `DecodingError` cases (missing key, null, wrong type) are collapsed into
  `Malformed(key)`.
- Text.Lower: only ASCII letters are lower-cased; Unicode case mapping is not modelled.
- String `<` is modelled as lexicographic order on characters, not Swift's Unicode
  ordering.
- Sorting.Sort: `sorted(by:)` is modelled as a stable insertion sort. Swift does not
  document its sort as stable. This matters only in the finding below, for items with equal
  names.
- Matcher.Strict: the declaration of `.strict` is not part of this model. It is taken to
  select the four built-in criteria.
- RequestStubs.SameStub: Swift compares the two `URLResponse?` objects with `==`, which is
  object equality. The model compares the response records by value, so the rows for
  `RequestStubs.RoundTripEquality` and `RequestStubs.NormalizedSameStub` hold for value equality
  of responses. Error descriptions are compared as the model's failure values.
- Request equality as a dictionary key in the ephemeral source is modelled as value equality
  of the request record.
- Foundation's `allHTTPHeaderFields` may turn an empty dictionary into nil. The model keeps
  them apart and proves the matcher treats them alike.
- PersistentStubSource.HasStub: the shown revision of the persistent source declares no
  `hasStub`. It is modelled as "lookup finds a stub".
- EphemeralStubSource.Clear: the shown revision of the in-memory source declares no `clear()`.
  The model empties all three dictionaries, following the later revision's `removeAll()`,
  which the session stub calls on entering record mode.
- EphemeralStubSource.Ops and PersistentStubSource.Ops are helpers that package each source
  for the session stub; what they promise reaches callers through the `OpsLawful` rows.
- PersistentStubSource.Clear follows the later revision of the persistent source: empty
  the list and write it.
- PersistentStubSource.Ops stores without modelling the file write. The write is modelled
  separately by `PersistentStubSource.Store`.
- `stopLoading` does nothing and has nothing to model.
- The client and task plumbing of the hook, and its link to the global network object, are
  not modelled. The stub lookup is a parameter.
- The combined stub source, the `StubbornNetwork` singleton and configuration,
  `StubSourceLocation`, `Environment` and `ProcessInfo+Testing` are not part of this model.
- Body-processor implementations are abstract functions.
- `debugDescription` and logging are not modelled.
- `abort()` and `precondition` failures are modelled as error results (`UrlSessionStub.Fault`,
  `PersistentStubSource.Refusal`), not crashes.

## Findings

| source | as written | input that shows it | evidently intended | confidence | as-written member | corrected member |
|---|---|---|---|---|---|---|
| Sources/StubbornNetwork/Extensions/URLRequest+Matcher.swift:56-58 | The query comparator orders by `a.name < b.name`, or else by value when `a == b`. The value tie-break requires `a == b`, which already makes the values equal, so it never fires and items with one name keep their input order. | `/p?a=1&a=2` against `/p?a=2&a=1`: not matched | Break ties on equal names by value (`a.name == b.name && a.value < b.value`), so that parameter order never matters | medium, not executed; the as-written outcome also assumes a stable sort | `Matcher.MatchesOrderSensitive` | `Matcher.MatchesIntendedIgnoresQueryOrder` |
