/**
 `PersistentStubSource`: an ordered list of stubs, loaded from a stub file and written back in
 full after every change. Lookup takes the first stub whose request matches under this
 source's own matcher: equal URL, equal method, equal sorted `name + value` header strings.
 */
module PersistentStubSource {
  import opened Base
  import opened Text
  import opened Sorting
  import opened Http
  import opened RequestStubs
  import opened StubSource
  import Matcher

  datatype PersistentStore = PersistentStore(stubs: seq<RequestStub>)

  /** Why the source stops instead of delivering. */
  datatype Refusal = NoMatchingStub(request: Request)

  // ---------------------------------------------------------------------------------------------
  // The source's matcher

  /** `URLRequest.matches()`: URL and method equal (two absent values are equal), and the
      header fields give the same sorted list of `name + value` strings, names kept as they
      are; absent header fields give no list at all. */
  ghost function StubMatches(r: Request, stub: RequestStub): (m: bool)
    ensures m ==> r.url == stub.request.url
    ensures m ==> (r.headerFields.None? <==> stub.request.headerFields.None?)
  {
    && r.url == stub.request.url
    && r.httpMethod == stub.request.httpMethod
    && Matcher.SortedFieldStrings(r.headerFields, false) == Matcher.SortedFieldStrings(stub.request.headerFields, false)
  }

  /** Two optional header dictionaries give the same strings: both absent, or both present
      with the same multiset of `name + value` strings. */
  ghost predicate SameFieldStrings(a: Option<HeaderFields>, b: Option<HeaderFields>) {
    match (a, b)
    case (None, None) => true
    case (Some(x), Some(y)) =>
      multiset(Matcher.FieldStrings(Entries(x), false)) == multiset(Matcher.FieldStrings(Entries(y), false))
    case _ => false
  }

  /** The source's matcher holds exactly when URLs and methods are equal and the header
      dictionaries give the same strings in any order. */
  lemma StubMatchesSpec(r: Request, stub: RequestStub)
    ensures StubMatches(r, stub) <==>
      && r.url == stub.request.url
      && r.httpMethod == stub.request.httpMethod
      && SameFieldStrings(r.headerFields, stub.request.headerFields)
  {
    match (r.headerFields, stub.request.headerFields)
    case (Some(x), Some(y)) =>
      Matcher.SortStringsSpec(Matcher.FieldStrings(Entries(x), false), Matcher.FieldStrings(Entries(y), false));
    case _ =>
  }

  /** Every request matches a stub recorded for it. */
  lemma StubMatchesReflexive(stub: RequestStub)
    ensures StubMatches(stub.request, stub)
  {
  }

  /** Unlike the session matcher, this one tells names apart by case. */
  lemma StubMatchesCaseSensitive(r: Request, stub: RequestStub)
    requires r.headerFields == Some(map["ABC" := "alphabet"])
    requires stub.request.headerFields == Some(map["abc" := "alphabet"])
    ensures !StubMatches(r, stub)
  {
    EntriesOfSingleton("ABC", "alphabet");
    EntriesOfSingleton("abc", "alphabet");
    StubMatchesSpec(r, stub);
    assert Matcher.FieldStrings([("ABC", "alphabet")], false) == ["ABC" + "alphabet"];
    assert Matcher.FieldStrings([("abc", "alphabet")], false) == ["abc" + "alphabet"];
    assert ("ABC" + "alphabet")[0] != ("abc" + "alphabet")[0];
  }

  /** Absent header fields do not match an empty dictionary. */
  lemma StubMatchesAbsentIsNotEmpty(r: Request, stub: RequestStub)
    requires r.headerFields.None? && stub.request.headerFields == Some(map[])
    ensures !StubMatches(r, stub)
  {
  }

  // ---------------------------------------------------------------------------------------------
  // Lookup

  /** The index of the first element that satisfies `accept`. */
  function FirstIndex<T>(s: seq<T>, accept: T -> bool): (i: Option<nat>)
    ensures i.Some? ==> i.value < |s| && accept(s[i.value])
    ensures i.Some? ==> forall j :: 0 <= j < i.value ==> !accept(s[j])
    ensures i.None? ==> forall j :: 0 <= j < |s| ==> !accept(s[j])
  {
    if |s| == 0 then None
    else if accept(s[0]) then Some(0)
    else
      match FirstIndex(s[1..], accept)
      case None => None
      case Some(k) => Some(k + 1)
  }

  /** A first match is still the first match after anything is appended. */
  lemma {:induction false} FirstIndexAppend<T>(s: seq<T>, x: T, accept: T -> bool)
    requires FirstIndex(s, accept).Some?
    ensures FirstIndex(s + [x], accept) == FirstIndex(s, accept)
  {
    if !accept(s[0]) {
      assert (s + [x])[1..] == s[1..] + [x];
      FirstIndexAppend(s[1..], x, accept);
    }
  }

  /** `stubs.filter(request.matches()).first`, as an index. */
  ghost function FirstMatch(stubs: seq<RequestStub>, r: Request): Option<nat> {
    FirstIndex(stubs, stub => StubMatches(r, stub))
  }

  /** `stub(forRequest:)`: the first stub in list order whose request matches. */
  ghost function Lookup(p: PersistentStore, r: Request): (found: Option<RequestStub>)
    ensures found.None? <==> forall j :: 0 <= j < |p.stubs| ==> !StubMatches(r, p.stubs[j])
    ensures found.Some? ==> StubMatches(r, found.value)
    ensures found.Some? ==>
      exists i :: 0 <= i < |p.stubs| && p.stubs[i] == found.value && (forall j :: 0 <= j < i ==> !StubMatches(r, p.stubs[j]))
  {
    match FirstMatch(p.stubs, r)
    case None => None
    case Some(i) => Some(p.stubs[i])
  }

  /** There is a stub for the request when lookup finds one. */
  ghost function HasStub(p: PersistentStore, r: Request): (h: bool)
    ensures h <==> exists j :: 0 <= j < |p.stubs| && StubMatches(r, p.stubs[j])
  {
    Lookup(p, r).Some?
  }

  /** `dataTask(with:)`: the found stub's data, response and error; without a stub the
      precondition fails and nothing is delivered. */
  ghost function Deliver(p: PersistentStore, r: Request): (d: Result<Delivery, Refusal>)
    ensures d.Err? <==> forall j :: 0 <= j < |p.stubs| ==> !StubMatches(r, p.stubs[j])
    ensures d.Err? ==> d.error == NoMatchingStub(r)
  {
    match Lookup(p, r)
    case None => Err(NoMatchingStub(r))
    case Some(s) => Ok(Delivery(s.responseData, s.response, s.error))
  }

  // ---------------------------------------------------------------------------------------------
  // Changes and the stub file

  /** Each stub encoded, in order. */
  ghost function EncodeAll(stubs: seq<RequestStub>, syn: UrlSyntax): (ts: seq<Tree>)
    ensures |ts| == |stubs|
    ensures forall i :: 0 <= i < |stubs| ==> ts[i] == Encode(stubs[i], syn)
  {
    if |stubs| == 0 then [] else [Encode(stubs[0], syn)] + EncodeAll(stubs[1..], syn)
  }

  /** Each stub normalised, in order. */
  function NormalizeAll(stubs: seq<RequestStub>): (ns: seq<RequestStub>)
    ensures |ns| == |stubs|
    ensures forall i :: 0 <= i < |stubs| ==> ns[i] == Normalized(stubs[i])
  {
    if |stubs| == 0 then [] else [Normalized(stubs[0])] + NormalizeAll(stubs[1..])
  }

  /** The stub file: the whole list, encoded. */
  ghost function Snapshot(p: PersistentStore, syn: UrlSyntax): Tree {
    List(EncodeAll(p.stubs, syn))
  }

  /** The list after a store: the stub goes last. */
  function Append(p: PersistentStore, stub: RequestStub): (p': PersistentStore)
    ensures |p'.stubs| == |p.stubs| + 1 && p'.stubs[|p.stubs|] == stub
    ensures forall i :: 0 <= i < |p.stubs| ==> p'.stubs[i] == p.stubs[i]
  {
    PersistentStore(p.stubs + [stub])
  }

  /** `store(_:)`: appends the stub and writes the whole new list to the stub file. */
  ghost function Store(p: PersistentStore, stub: RequestStub, syn: UrlSyntax): (out: (PersistentStore, Tree))
    ensures out.0 == Append(p, stub)
    ensures out.1.List? && |out.1.items| == |p.stubs| + 1
  {
    var p' := Append(p, stub);
    (p', Snapshot(p', syn))
  }

  /** `clear()`: removes every stub and writes the empty list. */
  ghost function Clear(p: PersistentStore, syn: UrlSyntax): (out: (PersistentStore, Tree))
    ensures |out.0.stubs| == 0 && out.1 == List([])
  {
    var p' := PersistentStore([]);
    (p', Snapshot(p', syn))
  }

  /** `setupStubs(from:)`: appends the decoded list after the present stubs; a list that does
      not decode changes nothing. */
  function SetupStubs(p: PersistentStore, file: Tree, syn: UrlSyntax): (p': PersistentStore)
    ensures DecodeList(file, syn).Ok? ==> p'.stubs == p.stubs + DecodeList(file, syn).value
    ensures DecodeList(file, syn).Err? ==> p' == p
  {
    match DecodeList(file, syn)
    case Ok(loaded) => PersistentStore(p.stubs + loaded)
    case Err(_) => p
  }

  /** `init(url:)`: the stubs of the stub file when it can be read, else none. */
  function Load(file: Option<Tree>, syn: UrlSyntax): (p: PersistentStore)
    ensures file.None? ==> p.stubs == []
  {
    match file
    case None => PersistentStore([])
    case Some(t) => SetupStubs(PersistentStore([]), t, syn)
  }

  /** The source as the session stub sees it. */
  ghost function Ops(syn: UrlSyntax): StoreOps<PersistentStore> {
    StoreOps(
      (p, s) => Append(p, s),
      HasStub,
      (p, r) => match Deliver(p, r) case Ok(d) => Some(d) case Err(_) => None,
      p => Clear(p, syn).0)
  }

  // ---------------------------------------------------------------------------------------------
  // Properties

  /** After storing, lookup finds a stub for the stored request, and finds the stored stub
      itself unless an earlier one already matched. */
  lemma StoreThenLookup(p: PersistentStore, stub: RequestStub, syn: UrlSyntax)
    ensures Lookup(Store(p, stub, syn).0, stub.request).Some?
    ensures (forall j :: 0 <= j < |p.stubs| ==> !StubMatches(stub.request, p.stubs[j])) ==>
      Lookup(Store(p, stub, syn).0, stub.request) == Some(stub)
  {
    var stubs := Append(p, stub).stubs;
    StubMatchesReflexive(stub);
    assert stubs[|p.stubs|] == stub;
    if forall j :: 0 <= j < |p.stubs| ==> !StubMatches(stub.request, p.stubs[j]) {
      var i := FirstMatch(stubs, stub.request);
      assert i.Some?;
    }
  }

  /** Appending never changes what an earlier match finds. */
  lemma StoreKeepsEarlierMatches(p: PersistentStore, stub: RequestStub, syn: UrlSyntax, r: Request)
    requires Lookup(p, r).Some?
    ensures Lookup(Store(p, stub, syn).0, r) == Lookup(p, r)
  {
    FirstIndexAppend(p.stubs, stub, s => StubMatches(r, s));
    var i := FirstMatch(p.stubs, r).value;
    assert Append(p, stub).stubs[i] == p.stubs[i];
  }

  /** The persistent source keeps the interface's laws. */
  lemma OpsLawful(syn: UrlSyntax)
    ensures ClearForgets(Ops(syn)) && StoreRemembers(Ops(syn)) && KnownDelivers(Ops(syn))
  {
    forall p, stub: RequestStub ensures HasStub(Append(p, stub), stub.request) {
      StoreThenLookup(p, stub, syn);
    }
  }

  /** Encodes a list of stubs and decodes it again. */
  lemma {:induction false} DecodeItemsOfEncoded(stubs: seq<RequestStub>, syn: UrlSyntax)
    requires forall i :: 0 <= i < |stubs| ==> Encodable(stubs[i], syn)
    ensures DecodeItems(EncodeAll(stubs, syn), syn) == Ok(NormalizeAll(stubs))
  {
    if |stubs| > 0 {
      var items := EncodeAll(stubs, syn);
      RoundTrip(stubs[0], syn);
      DecodeItemsOfEncoded(stubs[1..], syn);
      assert items[1..] == EncodeAll(stubs[1..], syn);
      assert NormalizeAll(stubs) == [Normalized(stubs[0])] + NormalizeAll(stubs[1..]);
    }
  }

  /**
   The stub file a store writes loads back, in a fresh source, as the whole list in order,
   each stub normalised as decoding does, as long as every stub can be encoded.
   */
  lemma SnapshotReloads(p: PersistentStore, syn: UrlSyntax)
    requires forall i :: 0 <= i < |p.stubs| ==> Encodable(p.stubs[i], syn)
    ensures Load(Some(Snapshot(p, syn)), syn).stubs == NormalizeAll(p.stubs)
  {
    DecodeItemsOfEncoded(p.stubs, syn);
  }

  /** After a store the stub file holds the whole list, the new stub last: a fresh source
      loads all of it. */
  lemma StoreWritesWholeList(p: PersistentStore, stub: RequestStub, syn: UrlSyntax)
    requires forall i :: 0 <= i < |p.stubs| ==> Encodable(p.stubs[i], syn)
    requires Encodable(stub, syn)
    ensures Load(Some(Store(p, stub, syn).1), syn).stubs == NormalizeAll(p.stubs) + [Normalized(stub)]
  {
    var p' := Append(p, stub);
    AllEncodableAppend(p, stub, syn);
    SnapshotReloads(p', syn);
    NormalizeAllAppend(p.stubs, stub);
  }

  lemma AllEncodableAppend(p: PersistentStore, stub: RequestStub, syn: UrlSyntax)
    requires forall i :: 0 <= i < |p.stubs| ==> Encodable(p.stubs[i], syn)
    requires Encodable(stub, syn)
    ensures forall i :: 0 <= i < |Append(p, stub).stubs| ==> Encodable(Append(p, stub).stubs[i], syn)
  {
  }

  lemma NormalizeAllAppend(stubs: seq<RequestStub>, stub: RequestStub)
    ensures NormalizeAll(stubs + [stub]) == NormalizeAll(stubs) + [Normalized(stub)]
  {
    assert forall i :: 0 <= i < |stubs| ==> (stubs + [stub])[i] == stubs[i];
  }

  /** A file that does not decode leaves a source empty. */
  lemma UndecodableFileLoadsNothing(file: Tree, syn: UrlSyntax)
    requires DecodeList(file, syn).Err?
    ensures Load(Some(file), syn).stubs == []
  {
  }
}
