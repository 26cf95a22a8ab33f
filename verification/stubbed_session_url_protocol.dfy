/**
 `StubbedSessionURLProtocol`: the hook a standard URL session consults for every request. It
 takes requests whose scheme is exactly `http` or `https`, and for one request tells its client
 the stub's data, then its response, then that loading finished.
 */
module StubbedSessionUrlProtocol {
  import opened Base
  import opened Http
  import opened RequestStubs
  import PersistentStubSource

  /** A session task, as far as the hook looks at it. */
  datatype Task = Task(originalRequest: Option<Request>)

  /** What the client is told, in order. */
  datatype Event = DidLoad(data: Bytes) | DidReceive(response: Response) | DidFinish

  /** The scheme of an optional request's URL, absent when either is. */
  function SchemeOf(r: Option<Request>): Option<string> {
    if r.Some? && r.value.url.Some? then r.value.url.value.scheme else None
  }

  /** `canInit(with scheme:)`. */
  predicate SchemeAccepted(scheme: Option<string>) {
    match scheme
    case Some("http") => true
    case Some("https") => true
    case _ => false
  }

  /** `canInit(with: URLRequest)`: exactly the two schemes `http` and `https` are taken,
      spelled in lower case; a request without a URL or a URL without a scheme is not. */
  function CanInitRequest(r: Request): (c: bool)
    ensures c <==>
      r.url.Some? && r.url.value.scheme.Some? && r.url.value.scheme.value in {"http", "https"}
  {
    SchemeAccepted(SchemeOf(Some(r)))
  }

  /** `canInit(with: URLSessionTask)`: a task is taken exactly when it has an original request
      that would be taken. */
  function CanInitTask(t: Task): (c: bool)
    ensures c <==> t.originalRequest.Some? && CanInitRequest(t.originalRequest.value)
  {
    SchemeAccepted(SchemeOf(t.originalRequest))
  }

  /** `canonicalRequest(for:)`: every request is its own canonical form. */
  function CanonicalRequest(r: Request): (c: Request)
    ensures c == r
  {
    r
  }

  /** The events one found stub produces: its data if any, then its response if any. */
  function StubEvents(stub: RequestStub): (ev: seq<Event>)
    ensures DidFinish !in ev
  {
    (if stub.responseData.Some? then [DidLoad(stub.responseData.value)] else [])
    + (if stub.response.Some? then [DidReceive(stub.response.value)] else [])
  }

  /**
   `startLoading()`: look up the task's original request with `lookup` (the stub source's
   `stub(forRequest:)`), report what the stub holds, then finish. Without a client nothing is
   reported at all.
   */
  function StartLoading(task: Option<Task>, lookup: Request -> Option<RequestStub>, hasClient: bool): (ev: seq<Event>)
    ensures !hasClient ==> ev == []
    ensures hasClient ==> |ev| > 0 && ev[|ev| - 1] == DidFinish && multiset(ev)[DidFinish] == 1
  {
    if !hasClient then []
    else
      var found := if task.Some? && task.value.originalRequest.Some? then lookup(task.value.originalRequest.value) else None;
      var reported := if found.Some? then StubEvents(found.value) else [];
      assert multiset(reported)[DidFinish] == 0;
      reported + [DidFinish]
  }

  // ---------------------------------------------------------------------------------------------
  // Properties

  /** `ftp` and `HTTP` are refused. */
  lemma CanInitRefusesOthers(u: Url)
    requires u.scheme == Some("ftp") || u.scheme == Some("HTTP")
    ensures !CanInitRequest(DefaultRequest(u))
  {
  }

  /** A found stub's data is reported before its response, and each event carries the stub's
      own data or response. */
  lemma DataBeforeResponse(task: Option<Task>, lookup: Request -> Option<RequestStub>, hasClient: bool, i: nat, j: nat)
    requires i < j < |StartLoading(task, lookup, hasClient)|
    ensures !(StartLoading(task, lookup, hasClient)[i].DidReceive? && StartLoading(task, lookup, hasClient)[j].DidLoad?)
  {
  }

  /** The events of a loading: for a found stub, its data and response in that order, and the
      finish; for a task without a stub (or without an original request), only the finish. */
  lemma StartLoadingEvents(task: Option<Task>, lookup: Request -> Option<RequestStub>)
    ensures var ev := StartLoading(task, lookup, true);
      if task.Some? && task.value.originalRequest.Some? && lookup(task.value.originalRequest.value).Some? then
        var stub := lookup(task.value.originalRequest.value).value;
        && |ev| == 1 + (if stub.responseData.Some? then 1 else 0) + (if stub.response.Some? then 1 else 0)
        && (ev[0].DidLoad? <==> stub.responseData.Some?)
        && (forall i :: 0 <= i < |ev| && ev[i].DidLoad? ==> Some(ev[i].data) == stub.responseData)
        && (forall i :: 0 <= i < |ev| && ev[i].DidReceive? ==> Some(ev[i].response) == stub.response)
      else ev == [DidFinish]
  {
    var ev := StartLoading(task, lookup, true);
    if task.Some? && task.value.originalRequest.Some? && lookup(task.value.originalRequest.value).Some? {
      var stub := lookup(task.value.originalRequest.value).value;
      assert ev == StubEvents(stub) + [DidFinish];
    }
  }

  /** A lookup that finds a stub with data and response reports exactly those and the
      finish. */
  lemma LoadsFoundStub(r: Request, lookup: Request -> Option<RequestStub>, stub: RequestStub)
    requires lookup(r) == Some(stub)
    requires stub.responseData.Some? && stub.response.Some?
    ensures StartLoading(Some(Task(Some(r))), lookup, true)
      == [DidLoad(stub.responseData.value), DidReceive(stub.response.value), DidFinish]
  {
    assert StubEvents(stub) == [DidLoad(stub.responseData.value), DidReceive(stub.response.value)];
  }

  /**
   End to end with the persistent source: after storing a stub with data and response for a
   request no earlier stub matches, loading a task for that request reports exactly the
   stored data, the stored response, and the finish.
   */
  lemma LoadsStoredStub(p: PersistentStubSource.PersistentStore, stub: RequestStub, syn: UrlSyntax)
    requires stub.responseData.Some? && stub.response.Some?
    requires forall j :: 0 <= j < |p.stubs| ==> !PersistentStubSource.StubMatches(stub.request, p.stubs[j])
    ensures
      var p' := PersistentStubSource.Store(p, stub, syn).0;
      StartLoading(Some(Task(Some(stub.request))), r => PersistentStubSource.Lookup(p', r), true)
        == [DidLoad(stub.responseData.value), DidReceive(stub.response.value), DidFinish]
  {
    PersistentStubSource.StoreThenLookup(p, stub, syn);
    var p' := PersistentStubSource.Store(p, stub, syn).0;
    LoadsFoundStub(stub.request, r => PersistentStubSource.Lookup(p', r), stub);
  }
}
