/**
 The stub-source interface the session stub drives: store a stub, ask whether a request has
 one, deliver the recorded `(data, response, error)` for a request, and clear everything.
 Each store is a value; every operation returns the new value.
 */
module StubSource {
  import opened Base
  import opened Http
  import opened RequestStubs

  /**
   A stub source over state `S`. `deliver` gives `None` where the source would stop the
   program instead of delivering (a failed precondition).
   */
  datatype StoreOps<!S> = StoreOps(
    store: (S, RequestStub) -> S,
    hasStub: (S, Request) -> bool,
    deliver: (S, Request) -> Option<Delivery>,
    clear: S -> S)

  /** After `clear`, no request has a stub. */
  ghost predicate ClearForgets<S(!new)>(ops: StoreOps<S>) {
    forall s, r :: !ops.hasStub(ops.clear(s), r)
  }

  /** Storing a stub that carries response data makes its request known. */
  ghost predicate StoreRemembers<S(!new)>(ops: StoreOps<S>) {
    forall s, stub: RequestStub :: stub.responseData.Some? ==> ops.hasStub(ops.store(s, stub), stub.request)
  }

  /** A request the source has a stub for can be delivered. */
  ghost predicate KnownDelivers<S(!new)>(ops: StoreOps<S>) {
    forall s, r :: ops.hasStub(s, r) ==> ops.deliver(s, r).Some?
  }
}
