/**
 `RequestStub`: one recorded exchange, and its encoding as a keyed tree (the shape of the
 JSON a persistent stub file holds). Header fields travel as `name[:::]value` strings, URLs
 as their text, bodies as byte blobs. The recorded error is never encoded.
 */
module RequestStubs {
  import opened Base
  import opened Text
  import opened Http
  import Matcher

  /** One recorded exchange. `requestData` is kept beside the request's own body. */
  datatype RequestStub = RequestStub(
    request: Request,
    requestData: Option<Bytes>,
    response: Option<Response>,
    responseData: Option<Bytes>,
    error: Option<Failure>)

  /** The coding keys of the stub, its request section and its response section. */
  datatype Key =
    | ErrorKey
    | RequestKey
    | RequestDataKey
    | ResponseKey
    | ResponseDataKey
    | UrlKey
    | HeaderFieldsKey
    | MethodKey
    | StatusCodeKey

  /** A keyed tree: what an `Encoder` writes and a `Decoder` reads. `Blob` is a `Data` value. */
  datatype Tree =
    | Null
    | Str(text: string)
    | Num(number: int)
    | Blob(bytes: Bytes)
    | List(items: seq<Tree>)
    | Object(fields: map<Key, Tree>)

  /** `RequestStubCodableError`, plus `Malformed(key)` for the `DecodingError` a missing key,
      a null or a value of the wrong kind raises. */
  datatype DecodeError =
    | MissingRequestUrl(message: string)
    | MissingResponseUrl(urlText: string)
    | Malformed(key: Option<Key>)

  /** URL text: `absoluteString` and `URL(string:)`. Their behaviour is not modelled; a
      round trip needs only that parsing the formatted text gives the URL back. */
  datatype UrlSyntax = UrlSyntax(format: Url -> string, parse: string -> Option<Url>)

  /** `parse` undoes `format` on this URL. */
  predicate Reparses(syn: UrlSyntax, u: Url) {
    syn.parse(syn.format(u)) == Some(u)
  }

  // ---------------------------------------------------------------------------------------------
  // Header fields as strings

  /** `"\(key)[:::]\(value)"` */
  function JoinField(name: string, value: string): string {
    name + Separator + value
  }

  /** The joined strings of a list of entries, in order. */
  function JoinFields(es: seq<(string, string)>): (r: seq<string>)
    ensures |r| == |es|
    ensures forall i :: 0 <= i < |es| ==> r[i] == JoinField(es[i].0, es[i].1)
  {
    if |es| == 0 then [] else [JoinField(es[0].0, es[0].1)] + JoinFields(es[1..])
  }

  /** A header dictionary as the encoder writes it: `name[:::]value` per entry, in the
      dictionary's enumeration order. */
  ghost function EncodeFields(m: HeaderFields): seq<string> {
    JoinFields(Entries(m))
  }

  /** The encoded list has one string per entry, and each entry is written as
      `name[:::]value`. */
  lemma EncodeFieldsSpec(m: HeaderFields)
    ensures |EncodeFields(m)| == |m|
    ensures forall name :: name in m ==> JoinField(name, m[name]) in EncodeFields(m)
    ensures forall i :: 0 <= i < |EncodeFields(m)| ==> exists name :: name in m && EncodeFields(m)[i] == JoinField(name, m[name])
  {
    var es := Entries(m);
    var r := JoinFields(es);
    forall name | name in m ensures JoinField(name, m[name]) in r {
      EnumerationCovers(es, m, name);
      var i :| 0 <= i < |es| && es[i] == (name, m[name]);
      assert r[i] == JoinField(name, m[name]);
    }
    forall i | 0 <= i < |r| ensures exists name :: name in m && r[i] == JoinField(name, m[name]) {
      assert es[i].0 in m && r[i] == JoinField(es[i].0, m[es[i].0]);
    }
  }

  /** A stored field as `(first component, last component)` of its `[:::]` split. */
  function SplitField(field: string): (string, string) {
    var parts := Components(field);
    (parts[0], parts[|parts| - 1])
  }

  /** `SplitField` of each string, in order. */
  function SplitFields(fields: seq<string>): (r: seq<(string, string)>)
    ensures |r| == |fields|
    ensures forall i :: 0 <= i < |fields| ==> r[i] == SplitField(fields[i])
  {
    if |fields| == 0 then [] else [SplitField(fields[0])] + SplitFields(fields[1..])
  }

  /** `ps[i]` is the last pair that carries `name`. */
  ghost predicate LastWith(ps: seq<(string, string)>, name: string, i: int) {
    && 0 <= i < |ps|
    && ps[i].0 == name
    && forall j :: i < j < |ps| ==> ps[j].0 != name
  }

  /** `reduce(into: [:]) { result[key] = value }`: folds the pairs into a dictionary, first to
      last. Every name of a pair is a key; `AssignLastWins` says which value it gets. */
  function Assign(ps: seq<(string, string)>): (m: HeaderFields)
    ensures forall i :: 0 <= i < |ps| ==> ps[i].0 in m
  {
    if |ps| == 0 then map[]
    else
      var init := ps[..|ps| - 1];
      var last := ps[|ps| - 1];
      assert forall i :: 0 <= i < |init| ==> init[i] == ps[i];
      Assign(init)[last.0 := last.1]
  }

  /** Each key of the folded dictionary takes the value of the last pair that carries it. */
  lemma {:induction false} AssignLastWins(ps: seq<(string, string)>, name: string)
    requires name in Assign(ps)
    ensures exists i :: LastWith(ps, name, i) && Assign(ps)[name] == ps[i].1
  {
    var init := ps[..|ps| - 1];
    var last := ps[|ps| - 1];
    assert forall i :: 0 <= i < |init| ==> init[i] == ps[i];
    if name == last.0 {
      assert LastWith(ps, name, |ps| - 1);
    } else {
      AssignLastWins(init, name);
      var i :| LastWith(init, name, i) && Assign(init)[name] == init[i].1;
      assert LastWith(ps, name, i);
    }
  }

  /** `httpHeaders(from:)`: each string split at `[:::]`, its first part the name and its last
      part the value, folded from first to last. */
  function HttpHeaders(fields: seq<string>): (h: HeaderFields)
    ensures forall i :: 0 <= i < |fields| ==> SplitField(fields[i]).0 in h
    ensures |fields| == 0 ==> h == map[]
  {
    Assign(SplitFields(fields))
  }

  /** A name or value that can be written next to the separator and read back. */
  ghost predicate Plain(m: HeaderFields) {
    forall name :: name in m ==> !ContainsSeparator(name) && !ContainsSeparator(m[name])
  }

  /** Splitting joined entries gives the entries back when no name or value holds the separator. */
  lemma SplitJoined(es: seq<(string, string)>)
    requires forall i :: 0 <= i < |es| ==> !ContainsSeparator(es[i].0) && !ContainsSeparator(es[i].1)
    ensures SplitFields(JoinFields(es)) == es
  {
    var js := JoinFields(es);
    var ps := SplitFields(js);
    forall i | 0 <= i < |es| ensures ps[i] == es[i] {
      assert js[i] == JoinField(es[i].0, es[i].1);
      SplitFieldOfJoined(es[i].0, es[i].1);
    }
  }

  /** One joined field splits back into its name and value. */
  lemma SplitFieldOfJoined(name: string, value: string)
    requires !ContainsSeparator(name) && !ContainsSeparator(value)
    ensures SplitField(JoinField(name, value)) == (name, value)
  {
    ComponentsOfJoined(name, value);
  }

  /** Folding an enumeration of a dictionary rebuilds that dictionary. */
  lemma AssignEnumeration(m: HeaderFields, es: seq<(string, string)>)
    requires Enumerates(es, m)
    ensures Assign(es) == m
  {
    var h := Assign(es);
    forall name | name in m ensures name in h {
      EnumerationCovers(es, m, name);
    }
    forall name | name in h ensures name in m && h[name] == m[name] {
      AssignLastWins(es, name);
      var i :| LastWith(es, name, i) && h[name] == es[i].1;
    }
    assert h.Keys == m.Keys;
  }

  /**
   `httpHeaders(from:)` undoes the encoding, whatever order the entries were written in,
   as long as no name or value holds the separator.
   */
  lemma HttpHeadersInvertsJoin(m: HeaderFields, es: seq<(string, string)>)
    requires Enumerates(es, m) && Plain(m)
    ensures HttpHeaders(JoinFields(es)) == m
  {
    SplitJoined(es);
    AssignEnumeration(m, es);
  }

  /** The same for the enumeration the encoder uses. */
  lemma HttpHeadersInvertsEncode(m: HeaderFields)
    requires Plain(m)
    ensures HttpHeaders(EncodeFields(m)) == m
  {
    HttpHeadersInvertsJoin(m, Entries(m));
  }

  /** When two strings carry one name, the later one's value wins. */
  lemma HttpHeadersLaterWins(a: string, v: string, w: string)
    requires !ContainsSeparator(a) && !ContainsSeparator(v) && !ContainsSeparator(w)
    ensures HttpHeaders([JoinField(a, v), JoinField(a, w)]) == map[a := w]
  {
    ComponentsOfJoined(a, v);
    ComponentsOfJoined(a, w);
    var ps := SplitFields([JoinField(a, v), JoinField(a, w)]);
    assert ps == [(a, v), (a, w)];
    assert ps[..1] == [(a, v)] && ps[..1][..0] == [];
    assert Assign(ps[..1]) == map[a := v];
  }

  /** A string without the separator is its own name and its own value. */
  lemma HttpHeadersOfPlainString(field: string)
    requires !ContainsSeparator(field)
    ensures HttpHeaders([field]) == map[field := field]
  {
    ComponentsOfPlain(field);
    assert SplitField(field) == (field, field);
    var ps := SplitFields([field]);
    assert ps == [(field, field)] && ps[..0] == [];
    assert Assign(ps) == Assign([])[field := field];
  }

  // ---------------------------------------------------------------------------------------------
  // Encoding

  function OptStr(s: Option<string>): Tree {
    match s
    case None => Null
    case Some(x) => Str(x)
  }

  function OptBlob(d: Option<Bytes>): Tree {
    match d
    case None => Null
    case Some(x) => Blob(x)
  }

  /** A list of strings as a list tree. */
  function StrList(fields: seq<string>): (t: Tree)
    ensures t.List? && |t.items| == |fields|
    ensures forall i :: 0 <= i < |fields| ==> t.items[i] == Str(fields[i])
  {
    if |fields| == 0 then List([]) else List([Str(fields[0])] + StrList(fields[1..]).items)
  }

  function FormatUrl(syn: UrlSyntax, u: Option<Url>): Option<string> {
    match u
    case None => None
    case Some(x) => Some(syn.format(x))
  }

  /** The `request` section: URL text, header strings, method and body, each null when absent. */
  ghost function RequestSection(r: Request, syn: UrlSyntax): map<Key, Tree> {
    map[
      UrlKey := OptStr(FormatUrl(syn, r.url)),
      HeaderFieldsKey := (match r.headerFields case None => Null case Some(m) => StrList(EncodeFields(m))),
      MethodKey := OptStr(r.httpMethod),
      RequestDataKey := OptBlob(r.httpBody)]
  }

  /** The `response` section: for an HTTP response its URL (only when there is one), status
      code and header strings; in every case the response data. */
  ghost function ResponseSection(s: RequestStub, syn: UrlSyntax): map<Key, Tree> {
    var data := OptBlob(s.responseData);
    match s.response
    case Some(HttpResponse(Some(url), status, headers)) =>
      map[UrlKey := Str(syn.format(url)), StatusCodeKey := Num(status),
          HeaderFieldsKey := StrList(EncodeFields(headers)), ResponseDataKey := data]
    case Some(HttpResponse(None, status, headers)) =>
      map[StatusCodeKey := Num(status), HeaderFieldsKey := StrList(EncodeFields(headers)), ResponseDataKey := data]
    case _ => map[ResponseDataKey := data]
  }

  /** `encode(to:)`: the request section, the top-level request data and the response section.
      The error is not written. */
  ghost function Encode(s: RequestStub, syn: UrlSyntax): (t: Tree)
    ensures t.Object? && t.fields.Keys == {RequestKey, RequestDataKey, ResponseKey}
    ensures t.fields[RequestKey].Object? && t.fields[RequestKey].fields.Keys == {UrlKey, HeaderFieldsKey, MethodKey, RequestDataKey}
    ensures t.fields[ResponseKey].Object? && ResponseDataKey in t.fields[ResponseKey].fields
  {
    Object(map[
      RequestKey := Object(RequestSection(s.request, syn)),
      RequestDataKey := OptBlob(s.requestData),
      ResponseKey := Object(ResponseSection(s, syn))])
  }

  /** Each entry of the dictionary is among its encoded strings. */
  lemma EncodeFieldsHas(m: HeaderFields, name: string)
    requires name in m
    ensures JoinField(name, m[name]) in EncodeFields(m)
  {
    var es := Entries(m);
    EnumerationCovers(es, m, name);
    var i :| 0 <= i < |es| && es[i] == (name, m[name]);
    assert JoinFields(es)[i] == JoinField(name, m[name]);
  }

  /** A string of the list is an item of its list tree. */
  lemma StrListHas(fields: seq<string>, f: string)
    requires f in fields
    ensures Str(f) in StrList(fields).items
  {
    var i :| 0 <= i < |fields| && fields[i] == f;
    assert StrList(fields).items[i] == Str(f);
  }

  /** Every request header is written as `name[:::]value`. */
  lemma EncodeRequestHeaders(s: RequestStub, syn: UrlSyntax, name: string)
    requires s.request.headerFields.Some? && name in s.request.headerFields.value
    ensures Str(JoinField(name, s.request.headerFields.value[name])) in Encode(s, syn).fields[RequestKey].fields[HeaderFieldsKey].items
  {
    var m := s.request.headerFields.value;
    EncodeFieldsHas(m, name);
    StrListHas(EncodeFields(m), JoinField(name, m[name]));
    assert Encode(s, syn).fields[RequestKey].fields[HeaderFieldsKey] == StrList(EncodeFields(m));
  }

  /** Every header of an HTTP response is written as `name[:::]value`. */
  lemma EncodeResponseHeaders(s: RequestStub, syn: UrlSyntax, name: string)
    requires s.response.Some? && s.response.value.HttpResponse? && name in s.response.value.headerFields
    ensures Str(JoinField(name, s.response.value.headerFields[name])) in Encode(s, syn).fields[ResponseKey].fields[HeaderFieldsKey].items
  {
    var m := s.response.value.headerFields;
    EncodeFieldsHas(m, name);
    StrListHas(EncodeFields(m), JoinField(name, m[name]));
    assert ResponseSection(s, syn)[HeaderFieldsKey] == StrList(EncodeFields(m));
  }

  /** The response section holds nothing but the response data exactly when there is no HTTP
      response. */
  lemma ResponseSectionOnlyData(s: RequestStub, syn: UrlSyntax)
    ensures Encode(s, syn).fields[ResponseKey].fields.Keys == {ResponseDataKey}
        <==> !(s.response.Some? && s.response.value.HttpResponse?)
  {
    if s.response.Some? && s.response.value.HttpResponse? {
      assert StatusCodeKey in ResponseSection(s, syn);
    }
  }

  // ---------------------------------------------------------------------------------------------
  // Decoding

  function Member(o: map<Key, Tree>, key: Key): (r: Result<Tree, DecodeError>)
    ensures r.Err? ==> r.error == Malformed(Some(key))
  {
    if key in o then Ok(o[key]) else Err(Malformed(Some(key)))
  }

  function ObjectAt(o: map<Key, Tree>, key: Key): (r: Result<map<Key, Tree>, DecodeError>)
    ensures r.Err? ==> r.error == Malformed(Some(key))
  {
    var t :- Member(o, key);
    if t.Object? then Ok(t.fields) else Err(Malformed(Some(key)))
  }

  function StringAt(o: map<Key, Tree>, key: Key): (r: Result<string, DecodeError>)
    ensures r.Err? ==> r.error == Malformed(Some(key))
  {
    var t :- Member(o, key);
    if t.Str? then Ok(t.text) else Err(Malformed(Some(key)))
  }

  function IntAt(o: map<Key, Tree>, key: Key): (r: Result<int, DecodeError>)
    ensures r.Err? ==> r.error == Malformed(Some(key))
  {
    var t :- Member(o, key);
    if t.Num? then Ok(t.number) else Err(Malformed(Some(key)))
  }

  /** `decode(Data.self, ...)`: present and not null. */
  function BlobAt(o: map<Key, Tree>, key: Key): (r: Result<Bytes, DecodeError>)
    ensures r.Err? ==> r.error == Malformed(Some(key))
  {
    var t :- Member(o, key);
    if t.Blob? then Ok(t.bytes) else Err(Malformed(Some(key)))
  }

  /** `decode(Data?.self, ...)`: the key must be there, a null reads as nil. */
  function OptBlobAt(o: map<Key, Tree>, key: Key): (r: Result<Option<Bytes>, DecodeError>)
    ensures r.Err? ==> r.error == Malformed(Some(key))
  {
    var t :- Member(o, key);
    match t
    case Null => Ok(None)
    case Blob(b) => Ok(Some(b))
    case _ => Err(Malformed(Some(key)))
  }

  /** All items are strings. */
  predicate AllStrings(items: seq<Tree>) {
    forall i :: 0 <= i < |items| ==> items[i].Str?
  }

  /** The texts of a list of string trees. */
  function Texts(items: seq<Tree>): (r: seq<string>)
    requires AllStrings(items)
    ensures |r| == |items|
    ensures forall i :: 0 <= i < |items| ==> Str(r[i]) == items[i]
  {
    if |items| == 0 then [] else [items[0].text] + Texts(items[1..])
  }

  /** `decode([String].self, ...)` */
  function StringsAt(o: map<Key, Tree>, key: Key): (r: Result<seq<string>, DecodeError>)
    ensures r.Err? ==> r.error == Malformed(Some(key))
  {
    var t :- Member(o, key);
    if t.List? && AllStrings(t.items) then Ok(Texts(t.items)) else Err(Malformed(Some(key)))
  }

  /** A list written by `StrList` reads back as the same strings. */
  lemma StringsAtStrList(o: map<Key, Tree>, key: Key, fields: seq<string>)
    requires key in o && o[key] == StrList(fields)
    ensures StringsAt(o, key) == Ok(fields)
  {
    var items := StrList(fields).items;
    assert AllStrings(items);
    assert Texts(items) == fields;
  }

  /** `Option` to `Result`: the error when absent. */
  function Require<T>(x: Option<T>, e: DecodeError): Result<T, DecodeError> {
    match x
    case None => Err(e)
    case Some(v) => Ok(v)
  }

  /** The request half of `init(from:)`: URL text (which must parse), method, header strings
      and body, in this order. */
  function DecodeRequest(req: map<Key, Tree>, syn: UrlSyntax): (r: Result<Request, DecodeError>)
    ensures r.Ok? ==> r.value.url.Some? && r.value.httpMethod.Some? && r.value.headerFields.Some?
  {
    var urlText :- StringAt(req, UrlKey);
    var url :- Require(syn.parse(urlText), MissingRequestUrl("Unable to decode URL"));
    var verb :- StringAt(req, MethodKey);
    var headers :- StringsAt(req, HeaderFieldsKey);
    var body :- OptBlobAt(req, RequestDataKey);
    Ok(Request(Some(url), Some(verb), Some(HttpHeaders(headers)), body))
  }

  /** The response half: response data, URL text, header strings and status code, and last
      the response URL, which must parse. */
  function DecodeResponse(res: map<Key, Tree>, syn: UrlSyntax): (r: Result<(Response, Bytes), DecodeError>)
    ensures r.Ok? ==> r.value.0.HttpResponse? && r.value.0.url.Some?
  {
    var data :- BlobAt(res, ResponseDataKey);
    var urlText :- StringAt(res, UrlKey);
    var headers :- StringsAt(res, HeaderFieldsKey);
    var status :- IntAt(res, StatusCodeKey);
    var url :- Require(syn.parse(urlText), MissingResponseUrl(urlText));
    Ok((HttpResponse(Some(url), status, HttpHeaders(headers)), data))
  }

  /**
   `init(from:)`: the request section, then the response section. The top-level request
   data is not read: the decoded stub's request data is the request body, and its error is
   absent.
   */
  function Decode(t: Tree, syn: UrlSyntax): (r: Result<RequestStub, DecodeError>)
    ensures r.Ok? ==> r.value.requestData == r.value.request.httpBody && r.value.error.None?
    ensures r.Ok? ==>
      && r.value.request.url.Some? && r.value.request.httpMethod.Some? && r.value.request.headerFields.Some?
      && r.value.response.Some? && r.value.response.value.HttpResponse? && r.value.response.value.url.Some?
      && r.value.responseData.Some?
  {
    if !t.Object? then Err(Malformed(None)) else
    var req :- ObjectAt(t.fields, RequestKey);
    var request :- DecodeRequest(req, syn);
    var res :- ObjectAt(t.fields, ResponseKey);
    var response :- DecodeResponse(res, syn);
    Ok(RequestStub(request, request.httpBody, Some(response.0), Some(response.1), None))
  }

  /** `[RequestStub]` from a list tree: every element must decode; the first error wins. */
  function DecodeList(t: Tree, syn: UrlSyntax): (r: Result<seq<RequestStub>, DecodeError>)
    ensures r.Ok? ==> t.List? && |r.value| == |t.items|
    ensures r.Ok? ==> forall i :: 0 <= i < |t.items| ==> Decode(t.items[i], syn) == Ok(r.value[i])
  {
    if !t.List? then Err(Malformed(None)) else DecodeItems(t.items, syn)
  }

  function DecodeItems(items: seq<Tree>, syn: UrlSyntax): (r: Result<seq<RequestStub>, DecodeError>)
    ensures r.Ok? ==> |r.value| == |items|
    ensures r.Ok? ==> forall i :: 0 <= i < |items| ==> Decode(items[i], syn) == Ok(r.value[i])
  {
    if |items| == 0 then Ok([])
    else
      var first :- Decode(items[0], syn);
      var rest :- DecodeItems(items[1..], syn);
      assert forall i :: 1 <= i < |items| ==> items[i] == items[1..][i - 1] && ([first] + rest)[i] == rest[i - 1];
      Ok([first] + rest)
  }

  /** A list fails to decode only if one of its elements does. */
  lemma {:induction false} DecodeItemsErr(items: seq<Tree>, syn: UrlSyntax)
    requires DecodeItems(items, syn).Err?
    ensures exists i :: 0 <= i < |items| && Decode(items[i], syn).Err?
  {
    if Decode(items[0], syn).Ok? {
      DecodeItemsErr(items[1..], syn);
      var i :| 0 <= i < |items[1..]| && Decode(items[1..][i], syn).Err?;
      assert items[i + 1] == items[1..][i];
    }
  }

  /** The request section is an object whose URL text is there but does not parse. */
  ghost predicate RequestUrlUnparsable(t: Tree, syn: UrlSyntax) {
    && t.Object? && RequestKey in t.fields && t.fields[RequestKey].Object?
    && UrlKey in t.fields[RequestKey].fields
    && t.fields[RequestKey].fields[UrlKey].Str?
    && syn.parse(t.fields[RequestKey].fields[UrlKey].text).None?
  }

  /** `missingRequestURLError` is raised exactly when the request URL text does not parse. */
  lemma DecodeRequestUrlError(t: Tree, syn: UrlSyntax)
    ensures Decode(t, syn).Err? && Decode(t, syn).error.MissingRequestUrl? <==> RequestUrlUnparsable(t, syn)
    ensures Decode(t, syn).Err? && Decode(t, syn).error.MissingRequestUrl? ==>
      Decode(t, syn).error.message == "Unable to decode URL"
  {
  }

  /** The request section reads, and everything in the response section before its URL is
      parsed reads too; the response URL text is `u` and does not parse. */
  ghost predicate ResponseUrlUnparsable(t: Tree, syn: UrlSyntax, u: string) {
    && t.Object?
    && ObjectAt(t.fields, RequestKey).Ok? && DecodeRequest(ObjectAt(t.fields, RequestKey).value, syn).Ok?
    && ObjectAt(t.fields, ResponseKey).Ok?
    && var res := ObjectAt(t.fields, ResponseKey).value;
       && BlobAt(res, ResponseDataKey).Ok? && StringAt(res, UrlKey) == Ok(u)
       && StringsAt(res, HeaderFieldsKey).Ok? && IntAt(res, StatusCodeKey).Ok?
       && syn.parse(u).None?
  }

  /** In the response section alone: `missingResponseURLError(u)` exactly when everything
      before the URL is parsed reads, the URL text is `u`, and it does not parse. */
  lemma DecodeResponseUrlErrorOf(res: map<Key, Tree>, syn: UrlSyntax, u: string)
    ensures DecodeResponse(res, syn) == Err(MissingResponseUrl(u)) <==>
      && BlobAt(res, ResponseDataKey).Ok? && StringAt(res, UrlKey) == Ok(u)
      && StringsAt(res, HeaderFieldsKey).Ok? && IntAt(res, StatusCodeKey).Ok?
      && syn.parse(u).None?
  {
  }

  /** `missingResponseURLError(u)` is raised exactly when all else reads and the response URL
      text `u` does not parse; the error carries that text. */
  lemma DecodeResponseUrlError(t: Tree, syn: UrlSyntax, u: string)
    ensures Decode(t, syn) == Err(MissingResponseUrl(u)) <==> ResponseUrlUnparsable(t, syn, u)
  {
    if t.Object? && ObjectAt(t.fields, RequestKey).Ok? && DecodeRequest(ObjectAt(t.fields, RequestKey).value, syn).Ok?
      && ObjectAt(t.fields, ResponseKey).Ok?
    {
      var res := ObjectAt(t.fields, ResponseKey).value;
      DecodeResponseUrlErrorOf(res, syn, u);
      assert Decode(t, syn).Err? <==> DecodeResponse(res, syn).Err?;
      assert Decode(t, syn).Err? ==> Decode(t, syn).error == DecodeResponse(res, syn).error;
    } else {
      assert t.Object? && ObjectAt(t.fields, RequestKey).Ok? ==>
        DecodeRequest(ObjectAt(t.fields, RequestKey).value, syn).Err? ==>
        !DecodeRequest(ObjectAt(t.fields, RequestKey).value, syn).error.MissingResponseUrl?;
    }
  }

  /** What decoding keeps of a stub: everything but the error, with the request body standing
      in for the request data. */
  function Normalized(s: RequestStub): (n: RequestStub)
    ensures n.request == s.request && n.response == s.response && n.responseData == s.responseData
    ensures n.requestData == s.request.httpBody && n.error.None?
  {
    s.(requestData := s.request.httpBody, error := None)
  }

  /** The stubs the codec can carry: a request with URL, method and header fields; an HTTP
      response with a URL; response data; URLs that reparse; header text without the separator. */
  ghost predicate Encodable(s: RequestStub, syn: UrlSyntax) {
    && s.request.url.Some? && Reparses(syn, s.request.url.value)
    && s.request.httpMethod.Some?
    && s.request.headerFields.Some? && Plain(s.request.headerFields.value)
    && s.response.Some? && s.response.value.HttpResponse?
    && s.response.value.url.Some? && Reparses(syn, s.response.value.url.value)
    && Plain(s.response.value.headerFields)
    && s.responseData.Some?
  }

  /** The request section reads back as the request. */
  lemma RequestSectionRoundTrip(r: Request, syn: UrlSyntax)
    requires r.url.Some? && Reparses(syn, r.url.value) && r.httpMethod.Some?
    requires r.headerFields.Some? && Plain(r.headerFields.value)
    ensures DecodeRequest(RequestSection(r, syn), syn) == Ok(r)
  {
    var sec := RequestSection(r, syn);
    assert StringAt(sec, UrlKey) == Ok(syn.format(r.url.value));
    assert StringAt(sec, MethodKey) == Ok(r.httpMethod.value);
    StringsAtStrList(sec, HeaderFieldsKey, EncodeFields(r.headerFields.value));
    assert OptBlobAt(sec, RequestDataKey) == Ok(r.httpBody);
    HttpHeadersInvertsEncode(r.headerFields.value);
  }

  /** The response section of an HTTP response with a URL reads back as that response and
      the response data. */
  lemma ResponseSectionRoundTrip(s: RequestStub, syn: UrlSyntax)
    requires s.response.Some? && s.response.value.HttpResponse?
    requires s.response.value.url.Some? && Reparses(syn, s.response.value.url.value)
    requires Plain(s.response.value.headerFields) && s.responseData.Some?
    ensures DecodeResponse(ResponseSection(s, syn), syn) == Ok((s.response.value, s.responseData.value))
  {
    var response := s.response.value;
    var sec := ResponseSection(s, syn);
    assert BlobAt(sec, ResponseDataKey) == Ok(s.responseData.value);
    assert StringAt(sec, UrlKey) == Ok(syn.format(response.url.value));
    StringsAtStrList(sec, HeaderFieldsKey, EncodeFields(response.headerFields));
    assert IntAt(sec, StatusCodeKey) == Ok(response.statusCode);
    HttpHeadersInvertsEncode(response.headerFields);
  }

  /** Decoding an encoded stub gives it back, normalised. */
  lemma RoundTrip(s: RequestStub, syn: UrlSyntax)
    requires Encodable(s, syn)
    ensures Decode(Encode(s, syn), syn) == Ok(Normalized(s))
  {
    RequestSectionRoundTrip(s.request, syn);
    ResponseSectionRoundTrip(s, syn);
  }

  /** A stub already in normal form survives the round trip unchanged. */
  lemma RoundTripExact(s: RequestStub, syn: UrlSyntax)
    requires Encodable(s, syn) && s.requestData == s.request.httpBody && s.error.None?
    ensures Decode(Encode(s, syn), syn) == Ok(s)
  {
    RoundTrip(s, syn);
  }

  /** A stub whose response is absent or not HTTP cannot be read back: the response section
      has no URL. */
  lemma NonHttpResponseDoesNotDecode(s: RequestStub, syn: UrlSyntax)
    requires s.request.url.Some? && Reparses(syn, s.request.url.value)
    requires s.request.httpMethod.Some? && s.request.headerFields.Some?
    requires s.responseData.Some?
    requires !(s.response.Some? && s.response.value.HttpResponse?)
    ensures Decode(Encode(s, syn), syn) == Err(Malformed(Some(UrlKey)))
  {
    var req := RequestSection(s.request, syn);
    StringsAtStrList(req, HeaderFieldsKey, EncodeFields(s.request.headerFields.value));
    assert ResponseSection(s, syn) == map[ResponseDataKey := OptBlob(s.responseData)];
  }

  /** Nor can a request without header fields. */
  lemma MissingHeaderFieldsDoNotDecode(s: RequestStub, syn: UrlSyntax)
    requires s.request.url.Some? && Reparses(syn, s.request.url.value) && s.request.httpMethod.Some?
    requires s.request.headerFields.None?
    ensures Decode(Encode(s, syn), syn) == Err(Malformed(Some(HeaderFieldsKey)))
  {
    var req := RequestSection(s.request, syn);
    assert StringAt(req, UrlKey) == Ok(syn.format(s.request.url.value));
    assert StringAt(req, MethodKey) == Ok(s.request.httpMethod.value);
    assert StringsAt(req, HeaderFieldsKey) == Err(Malformed(Some(HeaderFieldsKey)));
    assert DecodeRequest(req, syn) == Err(Malformed(Some(HeaderFieldsKey)));
  }

  /** Nor can a stub without response data, whatever its response. */
  lemma MissingResponseDataDoesNotDecode(s: RequestStub, syn: UrlSyntax)
    requires s.request.url.Some? && Reparses(syn, s.request.url.value) && s.request.httpMethod.Some?
    requires s.request.headerFields.Some? && s.responseData.None?
    ensures Decode(Encode(s, syn), syn) == Err(Malformed(Some(ResponseDataKey)))
  {
    var req := RequestSection(s.request, syn);
    StringsAtStrList(req, HeaderFieldsKey, EncodeFields(s.request.headerFields.value));
    assert DecodeRequest(req, syn).Ok?;
    var res := ResponseSection(s, syn);
    assert BlobAt(res, ResponseDataKey) == Err(Malformed(Some(ResponseDataKey)));
    assert DecodeResponse(res, syn) == Err(Malformed(Some(ResponseDataKey)));
  }

  // ---------------------------------------------------------------------------------------------
  // Equality

  /** `==` on stubs: equal request data, requests that match under the default options, equal
      error descriptions and equal responses. */
  ghost function SameStub(a: RequestStub, b: RequestStub): (r: bool)
    ensures r ==> a.request.url.Some? && b.request.url.Some?
    ensures r ==> a.request.httpMethod == b.request.httpMethod && a.request.httpBody == b.request.httpBody
  {
    assert Matcher.Strict[1] == Matcher.MatchHttpMethod && Matcher.Strict[3] == Matcher.MatchRequestBody;
    && a.requestData == b.requestData
    && Matcher.Matches(a.request, b.request, Matcher.Strict)
    && a.error == b.error
    && a.response == b.response
  }

  /** A decoded stub equals the stub that was encoded exactly when that stub carried no error
      and its request data was its request body. */
  lemma RoundTripEquality(s: RequestStub, syn: UrlSyntax)
    requires Encodable(s, syn)
    ensures Decode(Encode(s, syn), syn).Ok?
    ensures SameStub(Decode(Encode(s, syn), syn).value, s) <==> s.error.None? && s.requestData == s.request.httpBody
  {
    RoundTrip(s, syn);
    var d := Decode(Encode(s, syn), syn);
    assert d.value == Normalized(s);
    NormalizedSameStub(s);
  }

  /** A stub equals its normal form exactly when it has no error and its request data is its
      request body. */
  lemma NormalizedSameStub(s: RequestStub)
    requires s.request.url.Some?
    ensures SameStub(Normalized(s), s) <==> s.error.None? && s.requestData == s.request.httpBody
  {
    Matcher.MatchesReflexive(s.request, Matcher.Strict);
  }
}
