/**
 `URLSessionStub`: the session a test uses in place of a real one. In playback mode it answers
 from its stub source; in record mode it sends every request to the real session and stores
 the answer; in record-new mode it answers from the stub source what is there and records
 the rest. An optional body processor rewrites bodies before storing and before delivering.
 */
module UrlSessionStub {
  import opened Base
  import opened Http
  import opened RequestStubs
  import opened StubSource
  import EphemeralStubSource

  datatype RecordMode = Playback | Record | RecordNew

  /** `BodyDataProcessor`: three rewrites of optional body data, each told the request. */
  datatype BodyProcessor = BodyProcessor(
    requestBodyForStorage: (Option<Bytes>, Request) -> Option<Bytes>,
    responseBodyForStorage: (Option<Bytes>, Request) -> Option<Bytes>,
    responseBodyForDelivery: (Option<Bytes>, Request) -> Option<Bytes>)

  /** The session stub's state. A missing stub source is possible: the property is optional. */
  datatype Session<S> = Session(recordMode: RecordMode, processor: Option<BodyProcessor>, source: Option<S>)

  /** The real session: what a request would receive over the network. */
  type RealSession = Request -> Delivery

  /** Why a data task cannot be made: no stub source (`abort()`), or the stub source refuses to
      deliver for the request (its own precondition). */
  datatype Fault = MissingStubSource | SourceRefused(request: Request)

  /** `init(stubSource:)`: playback, no body processor. */
  function NewSession<S>(source: S): (s: Session<S>)
    ensures s.recordMode == Playback
    ensures s.processor.None? && s.source == Some(source)
  {
    Session(Playback, None, Some(source))
  }

  /** Assigning `recordMode`: `.record` clears the stub source, on every assignment; the other
      modes leave it alone. */
  function SetRecordMode<S>(s: Session<S>, ops: StoreOps<S>, mode: RecordMode): (s': Session<S>)
    ensures s'.recordMode == mode && s'.processor == s.processor
    ensures s'.source.Some? <==> s.source.Some?
    ensures mode != Record ==> s'.source == s.source
    ensures mode == Record && s.source.Some? ==> s'.source == Some(ops.clear(s.source.value))
  {
    var source := if mode == Record && s.source.Some? then Some(ops.clear(s.source.value)) else s.source;
    Session(mode, s.processor, source)
  }

  /** `prepareBodyData`: both bodies through the storing rewrites, or unchanged without a
      processor. */
  function PrepareBodyData(p: Option<BodyProcessor>, requestBody: Option<Bytes>, responseBody: Option<Bytes>, request: Request)
    : (prepared: (Option<Bytes>, Option<Bytes>))
    ensures p.None? ==> prepared == (requestBody, responseBody)
  {
    match p
    case None => (requestBody, responseBody)
    case Some(proc) => (proc.requestBodyForStorage(requestBody, request), proc.responseBodyForStorage(responseBody, request))
  }

  /** The stub `stub(_:data:response:error:)` stores: the request with its prepared body, the
      prepared response data, and the response and error as given. */
  function StubRecord(p: Option<BodyProcessor>, request: Request, data: Option<Bytes>, response: Option<Response>, error: Option<Failure>)
    : (stub: RequestStub)
    ensures stub.request == request.(httpBody := stub.request.httpBody)
    ensures stub.requestData.None? && stub.response == response && stub.error == error
    ensures p.None? ==> stub.request == request && stub.responseData == data
    ensures p.Some? ==>
      && stub.request.httpBody == p.value.requestBodyForStorage(request.httpBody, request)
      && stub.responseData == p.value.responseBodyForStorage(data, request)
  {
    var (requestBody, responseBody) := PrepareBodyData(p, request.httpBody, data, request);
    RequestStub(request.(httpBody := requestBody), None, response, responseBody, error)
  }

  /** `stub(_:data:response:error:)`: stores that one stub, if there is a stub source. */
  function Stub<S>(s: Session<S>, ops: StoreOps<S>, request: Request, data: Option<Bytes>, response: Option<Response>, error: Option<Failure>)
    : (s': Session<S>)
    ensures s'.recordMode == s.recordMode && s'.processor == s.processor
    ensures s.source.None? ==> s'.source.None?
    ensures s.source.Some? ==> s'.source == Some(ops.store(s.source.value, StubRecord(s.processor, request, data, response, error)))
  {
    match s.source
    case None => s
    case Some(src) => s.(source := Some(ops.store(src, StubRecord(s.processor, request, data, response, error))))
  }

  /** The data handed to the caller for a stored answer: the delivery rewrite's result when it
      gives one, else the stored data. */
  function DeliveryData(p: Option<BodyProcessor>, request: Request, data: Option<Bytes>): (out: Option<Bytes>)
    ensures p.None? ==> out == data
    ensures p.Some? && p.value.responseBodyForDelivery(data, request).Some? ==> out == p.value.responseBodyForDelivery(data, request)
    ensures p.Some? && p.value.responseBodyForDelivery(data, request).None? ==> out == data
  {
    match p
    case None => data
    case Some(proc) => proc.responseBodyForDelivery(data, request).OrElse(data)
  }

  /** Asks the real session and stores its answer; the caller gets the answer unprocessed. With
      no body processor the stored stub is the real answer itself. */
  function Recorded<S>(s: Session<S>, ops: StoreOps<S>, network: RealSession, request: Request)
    : (r: Result<(Session<S>, Delivery), Fault>)
    ensures r.Ok? && r.value.1 == network(request)
    ensures r.value.0.recordMode == s.recordMode && r.value.0.processor == s.processor
    ensures s.source.None? ==> r.value.0.source.None?
    ensures s.source.Some? && s.processor.None? ==>
      var d := network(request);
      r.value.0.source == Some(ops.store(s.source.value, RequestStub(request, None, d.response, d.data, d.error)))
  {
    var d := network(request);
    Ok((Stub(s, ops, request, d.data, d.response, d.error), d))
  }

  /** Answers from the stub source; nothing changes. A source that cannot deliver stops the
      task; otherwise the caller gets the stored response and error, and the stored data through
      the delivery rewrite (unchanged without a processor). */
  function Served<S>(s: Session<S>, src: S, ops: StoreOps<S>, request: Request)
    : (r: Result<(Session<S>, Delivery), Fault>)
    ensures r.Err? <==> ops.deliver(src, request).None?
    ensures r.Err? ==> r.error == SourceRefused(request)
    ensures r.Ok? ==> r.value.0 == s
    ensures r.Ok? ==>
      var stored := ops.deliver(src, request).value;
      && r.value.1.response == stored.response && r.value.1.error == stored.error
      && (s.processor.None? ==> r.value.1 == stored)
  {
    match ops.deliver(src, request)
    case None => Err(SourceRefused(request))
    case Some(d) => Ok((s, d.(data := DeliveryData(s.processor, request, d.data))))
  }

  /** `dataTask(with: request)`: the new state and what the completion handler receives. */
  function DataTask<S>(s: Session<S>, ops: StoreOps<S>, network: RealSession, request: Request): (r: Result<(Session<S>, Delivery), Fault>)
    ensures r == Err(MissingStubSource) <==> s.source.None?
    ensures r.Ok? ==> r.value.0.recordMode == s.recordMode && r.value.0.processor == s.processor
  {
    match s.source
    case None => Err(MissingStubSource)
    case Some(src) =>
      match s.recordMode
      case Record => Recorded(s, ops, network, request)
      case RecordNew => if ops.hasStub(src, request) then Served(s, src, ops, request) else Recorded(s, ops, network, request)
      case Playback => Served(s, src, ops, request)
  }

  /** `dataTask(with: url)`: the same as for a default request to that URL. */
  function DataTaskWithUrl<S>(s: Session<S>, ops: StoreOps<S>, network: RealSession, url: Url): (r: Result<(Session<S>, Delivery), Fault>)
    ensures r == DataTask(s, ops, network, Request(Some(url), Some("GET"), None, None))
  {
    DataTask(s, ops, network, DefaultRequest(url))
  }

  // ---------------------------------------------------------------------------------------------
  // Properties

  /** After assigning `.record` the stub source knows no request, however often it is assigned
      and whatever was stored in between. */
  lemma RecordAssignmentClears<S(!new)>(s: Session<S>, ops: StoreOps<S>, r: Request)
    requires ClearForgets(ops) && s.source.Some?
    ensures !ops.hasStub(SetRecordMode(s, ops, Record).source.value, r)
  {
  }

  /** In record mode every request goes to the real session; its answer is stored through
      `stub` and handed over unprocessed. */
  lemma RecordModeRecords<S>(s: Session<S>, ops: StoreOps<S>, network: RealSession, request: Request)
    requires s.recordMode == Record && s.source.Some?
    ensures var d := network(request);
      DataTask(s, ops, network, request) == Ok((Stub(s, ops, request, d.data, d.response, d.error), d))
  {
  }

  /** In record-new mode a request the source knows is answered from it, and nothing is
      stored. */
  lemma RecordNewServesKnown<S(!new)>(s: Session<S>, ops: StoreOps<S>, network: RealSession, request: Request)
    requires s.recordMode == RecordNew && s.source.Some? && ops.hasStub(s.source.value, request)
    requires KnownDelivers(ops)
    ensures DataTask(s, ops, network, request).Ok?
    ensures DataTask(s, ops, network, request).value.0 == s
    ensures var d := ops.deliver(s.source.value, request).value;
      DataTask(s, ops, network, request).value.1 == d.(data := DeliveryData(s.processor, request, d.data))
  {
  }

  /** In record-new mode a request the source does not know is handled exactly as in record
      mode: sent to the real session, stored through `stub`, handed over unprocessed. */
  lemma RecordNewRecordsUnknown<S>(s: Session<S>, ops: StoreOps<S>, network: RealSession, request: Request)
    requires s.recordMode == RecordNew && s.source.Some? && !ops.hasStub(s.source.value, request)
    ensures var d := network(request);
      DataTask(s, ops, network, request) == Ok((Stub(s, ops, request, d.data, d.response, d.error), d))
  {
  }

  /** In playback mode the real session is never asked and nothing is stored: any two real
      sessions give the same result, and the state does not change. */
  lemma PlaybackIgnoresRealSession<S>(s: Session<S>, ops: StoreOps<S>, network1: RealSession, network2: RealSession, request: Request)
    requires s.recordMode == Playback
    ensures DataTask(s, ops, network1, request) == DataTask(s, ops, network2, request)
    ensures DataTask(s, ops, network1, request).Ok? ==> DataTask(s, ops, network1, request).value.0 == s
  {
  }

  /** In playback mode the caller gets the stored response and error, and the delivery rewrite
      of the stored data when it gives one, else the stored data. */
  lemma PlaybackDelivers<S>(s: Session<S>, ops: StoreOps<S>, network: RealSession, request: Request)
    requires s.recordMode == Playback && s.source.Some?
    ensures ops.deliver(s.source.value, request).None? ==> DataTask(s, ops, network, request) == Err(SourceRefused(request))
    ensures ops.deliver(s.source.value, request).Some? ==>
      var stored := ops.deliver(s.source.value, request).value;
      var given := DataTask(s, ops, network, request).value.1;
      && given.response == stored.response && given.error == stored.error
      && given.data == DeliveryData(s.processor, request, stored.data)
  {
  }

  /**
   With the ephemeral source and no body processor, what record mode stores for a request is
   what playback then delivers for it: switching to record (which clears), making one request
   and switching to playback replays the real answer exactly.
   */
  lemma RecordThenPlayback(source: EphemeralStubSource.EphemeralStore, network: RealSession, request: Request)
    ensures
      var ops := EphemeralStubSource.Ops();
      var recording := SetRecordMode(NewSession(source), ops, Record);
      var recorded := DataTask(recording, ops, network, request);
      && recorded.Ok?
      && var replaying := SetRecordMode(recorded.value.0, ops, Playback);
         DataTask(replaying, ops, network, request) == Ok((replaying, network(request)))
  {
    var ops := EphemeralStubSource.Ops();
    var recording := SetRecordMode(NewSession(source), ops, Record);
    assert recording.source == Some(EphemeralStubSource.Empty);
    var d := network(request);
    var stored := EphemeralStubSource.Store(EphemeralStubSource.Empty, RequestStub(request, None, d.response, d.data, d.error));
    assert DataTask(recording, ops, network, request).value.0.source == Some(stored);
    EphemeralStubSource.StoreThenDeliver(EphemeralStubSource.Empty, RequestStub(request, None, d.response, d.data, d.error));
  }
}
