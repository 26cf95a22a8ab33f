/**
 `EphemeralStubSource`: an in-memory source made of three dictionaries keyed by the exact
 request, one for response data, one for responses and one for errors.
 */
module EphemeralStubSource {
  import opened Base
  import opened Http
  import opened RequestStubs
  import opened StubSource

  datatype EphemeralStore = EphemeralStore(
    datas: map<Request, Bytes>,
    responses: map<Request, Response>,
    errors: map<Request, Failure>)

  const Empty := EphemeralStore(map[], map[], map[])

  /** `dict[key] ?? nil` */
  function Find<V>(m: map<Request, V>, r: Request): (v: Option<V>)
    ensures v.Some? <==> r in m
    ensures v.Some? ==> v.value == m[r]
  {
    if r in m then Some(m[r]) else None
  }

  /** `m[key] = value` when the value is there; nothing otherwise. */
  function PutIfSome<V>(m: map<Request, V>, r: Request, v: Option<V>): map<Request, V> {
    match v
    case Some(x) => m[r := x]
    case None => m
  }

  /** `store(_:)`: each component that is present is written under the stub's request; an
      absent component leaves what was there. */
  function Store(e: EphemeralStore, stub: RequestStub): (e': EphemeralStore)
    ensures Find(e'.datas, stub.request) == stub.responseData.OrElse(Find(e.datas, stub.request))
    ensures Find(e'.responses, stub.request) == stub.response.OrElse(Find(e.responses, stub.request))
    ensures Find(e'.errors, stub.request) == stub.error.OrElse(Find(e.errors, stub.request))
  {
    EphemeralStore(
      PutIfSome(e.datas, stub.request, stub.responseData),
      PutIfSome(e.responses, stub.request, stub.response),
      PutIfSome(e.errors, stub.request, stub.error))
  }

  /** `hasStub(_:)`: response data is recorded for exactly this request. */
  function HasStub(e: EphemeralStore, r: Request): (h: bool)
    ensures h <==> Find(e.datas, r).Some?
  {
    r in e.datas
  }

  /** `dataTask(with:)`: the recorded triple, with nil for each component never stored. */
  function Deliver(e: EphemeralStore, r: Request): (d: Delivery)
    ensures d.data.Some? <==> HasStub(e, r)
  {
    Delivery(Find(e.datas, r), Find(e.responses, r), Find(e.errors, r))
  }

  /** Clearing, which the session stub asks for on entering record mode: every dictionary is
      emptied, so no stub is left. */
  function Clear(e: EphemeralStore): (e': EphemeralStore)
    ensures forall r :: !HasStub(e', r) && Deliver(e', r) == Delivery(None, None, None)
  {
    Empty
  }

  /** The source as the session stub sees it; it always delivers. */
  function Ops(): StoreOps<EphemeralStore> {
    StoreOps(Store, HasStub, (e, r) => Some(Deliver(e, r)), Clear)
  }

  /** The ephemeral source keeps the interface's laws. */
  lemma OpsLawful()
    ensures ClearForgets(Ops()) && StoreRemembers(Ops()) && KnownDelivers(Ops())
  {
    forall s, stub: RequestStub | stub.responseData.Some? ensures HasStub(Store(s, stub), stub.request) {
      assert Find(Store(s, stub).datas, stub.request).Some?;
    }
  }

  /** Storing under one request changes nothing for any other request. */
  lemma StoreFrame(e: EphemeralStore, stub: RequestStub, other: Request)
    requires other != stub.request
    ensures HasStub(Store(e, stub), other) <==> HasStub(e, other)
    ensures Deliver(Store(e, stub), other) == Deliver(e, other)
  {
  }

  /** Delivery after a store: each component the stub carries, else what was recorded before. */
  lemma StoreThenDeliver(e: EphemeralStore, stub: RequestStub)
    ensures Deliver(Store(e, stub), stub.request) == Delivery(
      stub.responseData.OrElse(Deliver(e, stub.request).data),
      stub.response.OrElse(Deliver(e, stub.request).response),
      stub.error.OrElse(Deliver(e, stub.request).error))
  {
  }

  /** Stores a list of stubs, first to last. */
  function StoreAll(e: EphemeralStore, stubs: seq<RequestStub>): EphemeralStore
    decreases |stubs|
  {
    if |stubs| == 0 then e else StoreAll(Store(e, stubs[0]), stubs[1..])
  }

  /** Some stub for `r` in the list carried response data. */
  ghost predicate SomeDataFor(stubs: seq<RequestStub>, r: Request) {
    exists i :: 0 <= i < |stubs| && stubs[i].request == r && stubs[i].responseData.Some?
  }

  /**
   Starting empty, a request has a stub exactly when some stored stub for exactly that request
   carried response data; a stub without data, or one for a request that differs in any part,
   does not count.
   */
  lemma {:induction false} HasStubAfterStores(e: EphemeralStore, stubs: seq<RequestStub>, r: Request)
    ensures HasStub(StoreAll(e, stubs), r) <==> HasStub(e, r) || SomeDataFor(stubs, r)
    decreases |stubs|
  {
    if |stubs| > 0 {
      HasStubAfterStores(Store(e, stubs[0]), stubs[1..], r);
      if SomeDataFor(stubs[1..], r) {
        var i :| 0 <= i < |stubs[1..]| && stubs[1..][i].request == r && stubs[1..][i].responseData.Some?;
        assert stubs[i + 1] == stubs[1..][i];
      }
      if SomeDataFor(stubs, r) {
        var i :| 0 <= i < |stubs| && stubs[i].request == r && stubs[i].responseData.Some?;
        if i > 0 {
          assert stubs[1..][i - 1] == stubs[i];
        }
      }
    }
  }

  /** The data delivered for a request is that of the last stub for it that carried data. */
  lemma {:induction false} DataAfterStores(e: EphemeralStore, stubs: seq<RequestStub>, r: Request, i: nat)
    requires i < |stubs| && stubs[i].request == r && stubs[i].responseData.Some?
    requires forall j :: i < j < |stubs| && stubs[j].request == r ==> stubs[j].responseData.None?
    ensures Deliver(StoreAll(e, stubs), r).data == stubs[i].responseData
    decreases |stubs|
  {
    if i == 0 {
      KeepsDataWithoutNew(Store(e, stubs[0]), stubs[1..], r);
    } else {
      DataAfterStores(Store(e, stubs[0]), stubs[1..], r, i - 1);
    }
  }

  /** Stubs for `r` without data leave its recorded data alone. */
  lemma {:induction false} KeepsDataWithoutNew(e: EphemeralStore, stubs: seq<RequestStub>, r: Request)
    requires forall j :: 0 <= j < |stubs| && stubs[j].request == r ==> stubs[j].responseData.None?
    ensures Deliver(StoreAll(e, stubs), r).data == Deliver(e, r).data
    decreases |stubs|
  {
    if |stubs| > 0 {
      assert forall j :: 0 <= j < |stubs[1..]| ==> stubs[1..][j] == stubs[j + 1];
      KeepsDataWithoutNew(Store(e, stubs[0]), stubs[1..], r);
    }
  }
}
