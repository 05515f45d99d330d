/** The message dispatcher (x/router/dispatcher.go, x/router/model.go) as a
    machine that takes one small step at a time: accepting, middleware, handling,
    pushing, intercepting and publishing, by any number of workers, interleaved
    in any way. Middleware, handlers and interceptors may do anything to what
    they are given: their effects are part of the step. */
module Dispatchers {
  import opened Prelude
  import opened Sums

  datatype Protocol = Protocol(schema: string, version: int)
  {
    predicate IsZero() {
      schema == "" && version == 0
    }
  }

  const NO_PROTOCOL := Protocol("", 0)

  datatype Message = Message(protocol: Protocol, id: string, payload: string)

  /** An error is the list of its causes; the empty list is nil. */
  type Error = seq<Fault>

  datatype Fault = NoHandler | Raised(text: string) | Wrapped(id: string, protocol: Protocol, cause: Error)

  datatype Response = Response(protocol: Protocol, id: string, payload: string, error: Error)

  const ZERO_RESPONSE := Response(NO_PROTOCOL, "", "", [])

  /** A handler call: the key it was looked up by, and the protocol of the
      response it gave. */
  datatype Call = Call(key: Protocol, returned: Protocol)

  /** What has been done for one message: handler calls, and errors shown to the
      error observer. */
  datatype History = History(calls: seq<Call>, observed: seq<Error>)

  /** How far a worker is with its message. The counters say how many functions
      of the chain have run. */
  datatype Phase =
    | ProtocolChain(ran: nat)
    | GeneralChain(ran: nat)
    | Handling
    | Answered(resp: Response)

  /** A worker's message: which one it is, the ID and protocol noted when it was
      taken, the message as middleware has left it, and its history. */
  datatype Job = Job(serial: nat, id: string, protocol: Protocol, req: Message, phase: Phase, history: History)

  datatype Item = Item(serial: nat, history: History, resp: Response)

  datatype Interception =
    | GeneralInterceptors(ran: nat)
    | ProtocolInterceptors(key: Protocol, ran: nat)
    | Intercepted

  /** A response on its way out: as it was pushed, and as interceptors have left
      it. */
  datatype Delivery = Delivery(item: Item, rr: Response, stage: Interception)

  datatype Publication = Publication(item: Item, rr: Response)

  /** A caller of Exec: the message it sent, the publications it may have seen,
      and the one it returned. */
  datatype Caller = Caller(serial: nat, id: string, since: nat, result: Option<nat>)

  datatype State = State(
    accepted: seq<Message>,
    pipe: seq<nat>,
    workers: seq<Option<Job>>,
    outgoing: seq<Item>,
    responders: seq<Option<Delivery>>,
    published: seq<Publication>,
    dropped: seq<Item>,
    callers: seq<Caller>,
    middleware: map<Protocol, nat>,
    interceptors: map<Protocol, nat>,
    handlers: set<Protocol>,
    cancelled: bool)

  /** The steps. Those that run a caller's function say what it did. */
  datatype Step =
    | AddMiddleware(key: Protocol)
    | AddInterceptor(key: Protocol)
    | SetHandler(key: Protocol)
    | Cancel
    | Broadcast(m: Message, generated: string)
    | Exec(m: Message, generated: string, since: nat)
    | Take(w: nat)
    | RunMiddleware(w: nat, req: Message, error: Error)
    | EndChain(w: nat)
    | Handle(w: nat, resp: Response, error: Error, panics: bool)
    | Push(w: nat, ok: bool)
    | TakeResponse(r: nat)
    | RunInterceptor(r: nat, rr: Response, error: Error)
    | EndInterceptors(r: nat)
    | Publish(r: nat)
    | Receive(c: nat, i: nat)

  function Registered(m: map<Protocol, nat>, key: Protocol): nat {
    if key in m then m[key] else 0
  }

  /** The message as it is accepted: with an ID of its own if it came without. */
  function WithID(m: Message, generated: string): Message {
    if m.id != "" then m else m.(id := generated)
  }

  /** The response to a message: the ID is always the message's, the protocol is
      unless the handler chose one, and a middleware error is wrapped. */
  function Finish(job: Job, resp: Response, failure: Error): Response {
    var resp := resp.(id := job.id);
    var resp := if resp.protocol.IsZero() then resp.(protocol := job.protocol) else resp;
    if failure != [] then resp.(error := [Wrapped(job.id, job.protocol, failure)]) else resp
  }

  predicate BusyWorker(s: State, w: nat) {
    w < |s.workers| && s.workers[w].Some?
  }

  predicate BusyResponder(s: State, r: nat) {
    r < |s.responders| && s.responders[r].Some?
  }

  /** When a step can be taken. */
  predicate Enabled(s: State, step: Step) {
    match step
    case AddMiddleware(_) => true
    case AddInterceptor(_) => true
    case SetHandler(key) => !key.IsZero()
    case Cancel => true
    case Broadcast(m, generated) => !m.protocol.IsZero() && generated != "" && |s.pipe| < |s.workers|
    case Exec(m, generated, since) =>
      !m.protocol.IsZero() && generated != "" && |s.pipe| < |s.workers| && since <= |s.published|
    case Take(w) => w < |s.workers| && s.workers[w].None? && s.pipe != [] && s.pipe[0] < |s.accepted|
    case RunMiddleware(w, _, _) =>
      BusyWorker(s, w) && (match s.workers[w].value.phase
                           case ProtocolChain(ran) => ran < Registered(s.middleware, s.workers[w].value.protocol)
                           case GeneralChain(ran) => ran < Registered(s.middleware, NO_PROTOCOL)
                           case _ => false)
    case EndChain(w) =>
      BusyWorker(s, w) && (match s.workers[w].value.phase
                           case ProtocolChain(ran) =>
                             s.cancelled || ran >= Registered(s.middleware, s.workers[w].value.protocol)
                           case GeneralChain(ran) => s.cancelled || ran >= Registered(s.middleware, NO_PROTOCOL)
                           case _ => false)
    case Handle(w, _, error, panics) =>
      BusyWorker(s, w) && s.workers[w].value.phase.Handling? && (panics ==> error != [])
    case Push(w, _) => BusyWorker(s, w) && s.workers[w].value.phase.Answered?
    case TakeResponse(r) => r < |s.responders| && s.responders[r].None? && s.outgoing != []
    case RunInterceptor(r, _, _) =>
      BusyResponder(s, r) && (match s.responders[r].value.stage
                              case GeneralInterceptors(ran) => ran < Registered(s.interceptors, NO_PROTOCOL)
                              case ProtocolInterceptors(key, ran) => ran < Registered(s.interceptors, key)
                              case _ => false)
    case EndInterceptors(r) =>
      BusyResponder(s, r) && (match s.responders[r].value.stage
                              case GeneralInterceptors(ran) => s.cancelled || ran >= Registered(s.interceptors, NO_PROTOCOL)
                              case ProtocolInterceptors(key, ran) => s.cancelled || ran >= Registered(s.interceptors, key)
                              case _ => false)
    case Publish(r) => BusyResponder(s, r) && s.responders[r].value.stage.Intercepted?
    case Receive(c, i) =>
      c < |s.callers| && s.callers[c].result.None? && s.callers[c].since <= i < |s.published|
  }

  function Accept(s: State, m: Message): State {
    s.(accepted := s.accepted + [m], pipe := s.pipe + [|s.accepted|])
  }

  /** A worker's job after one more middleware function. */
  function AfterMiddleware(job: Job, req: Message, error: Error): Job {
    if error != [] then
      var resp := Finish(job, ZERO_RESPONSE.(error := error), error);
      job.(req := req, phase := Answered(resp), history := job.history.(observed := job.history.observed + [resp.error]))
    else
      match job.phase
      case ProtocolChain(ran) => job.(req := req, phase := ProtocolChain(ran + 1))
      case GeneralChain(ran) => job.(req := req, phase := GeneralChain(ran + 1))
      case _ => job
  }

  /** A worker's job after the handler it was looked up, if there is one. A
      handler that panics leaves no response, only an error. */
  function AfterHandler(job: Job, found: bool, resp: Response, error: Error, panics: bool): Job {
    if !found then
      job.(phase := Answered(Finish(job, ZERO_RESPONSE.(error := [NoHandler]), [])))
    else
      var resp := if panics then ZERO_RESPONSE.(error := error) else resp.(error := error + resp.error);
      job.(phase := Answered(Finish(job, resp, [])),
           history := job.history.(calls := job.history.calls + [Call(job.protocol, resp.protocol)]))
  }

  /** A delivery after one more interceptor. An error ends the interceptors; one
      from the general chain replaces the response's error, one from the
      protocol's chain is joined to it. */
  function AfterInterceptor(d: Delivery, rr: Response, error: Error): Delivery {
    match d.stage
    case GeneralInterceptors(ran) =>
      if error != [] then d.(rr := rr.(error := error), stage := Intercepted)
      else d.(rr := rr, stage := GeneralInterceptors(ran + 1))
    case ProtocolInterceptors(key, ran) =>
      if error != [] then d.(rr := rr.(error := error + rr.error), stage := Intercepted)
      else d.(rr := rr, stage := ProtocolInterceptors(key, ran + 1))
    case Intercepted => d
  }

  /** What a step does. */
  function Apply(s: State, step: Step): State
    requires Enabled(s, step)
  {
    match step
    case AddMiddleware(key) => s.(middleware := s.middleware[key := Registered(s.middleware, key) + 1])
    case AddInterceptor(key) => s.(interceptors := s.interceptors[key := Registered(s.interceptors, key) + 1])
    case SetHandler(key) => s.(handlers := s.handlers + {key})
    case Cancel => s.(cancelled := true)
    case Broadcast(m, generated) => Accept(s, WithID(m, generated))
    case Exec(m, generated, since) =>
      var m := WithID(m, generated);
      Accept(s, m).(callers := s.callers + [Caller(|s.accepted|, m.id, since, None)])
    case Take(w) =>
      var n := s.pipe[0];
      var m := s.accepted[n];
      s.(pipe := s.pipe[1..],
         workers := s.workers[w := Some(Job(n, m.id, m.protocol, m, ProtocolChain(0), History([], [])))])
    case RunMiddleware(w, req, error) =>
      s.(workers := s.workers[w := Some(AfterMiddleware(s.workers[w].value, req, error))])
    case EndChain(w) =>
      var job := s.workers[w].value;
      s.(workers := s.workers[w := Some(job.(phase := if job.phase.ProtocolChain? then GeneralChain(0) else Handling))])
    case Handle(w, resp, error, panics) =>
      var job := s.workers[w].value;
      s.(workers := s.workers[w := Some(AfterHandler(job, job.protocol in s.handlers, resp, error, panics))])
    case Push(w, ok) =>
      var job := s.workers[w].value;
      var item := Item(job.serial, job.history, job.phase.resp);
      var s := s.(workers := s.workers[w := None]);
      if ok then s.(outgoing := s.outgoing + [item]) else s.(dropped := s.dropped + [item])
    case TakeResponse(r) =>
      var item := s.outgoing[0];
      s.(outgoing := s.outgoing[1..],
         responders := s.responders[r := Some(Delivery(item, item.resp, GeneralInterceptors(0)))])
    case RunInterceptor(r, rr, error) =>
      s.(responders := s.responders[r := Some(AfterInterceptor(s.responders[r].value, rr, error))])
    case EndInterceptors(r) =>
      var d := s.responders[r].value;
      var stage := if d.stage.GeneralInterceptors? then ProtocolInterceptors(d.rr.protocol, 0) else Intercepted;
      s.(responders := s.responders[r := Some(d.(stage := stage))])
    case Publish(r) =>
      var d := s.responders[r].value;
      s.(responders := s.responders[r := None], published := s.published + [Publication(d.item, d.rr)])
    case Receive(c, i) =>
      var caller := s.callers[c];
      if s.published[i].rr.id == caller.id then s.(callers := s.callers[c := caller.(result := Some(i))]) else s
  }

  /** A new dispatcher has at least one worker. */
  function Initial(workers: int, responders: nat): State {
    var n := if workers < 1 then 1 else workers;
    State([], [], seq(n, _ => None), [], seq(responders, _ => None), [], [], [], map[], map[], {}, false)
  }

  /** The steps can be taken one after another. */
  predicate IsRun(s: State, steps: seq<Step>)
    decreases |steps|
  {
    steps == [] || (Enabled(s, steps[0]) && IsRun(Apply(s, steps[0]), steps[1..]))
  }

  function After(s: State, steps: seq<Step>): State
    requires IsRun(s, steps)
    decreases |steps|
  {
    if steps == [] then s else After(Apply(s, steps[0]), steps[1..])
  }

  // ----- what every step keeps

  ghost function WorkerShare(): Option<Job> -> multiset<nat> {
    (j: Option<Job>) => if j.Some? then multiset{j.value.serial} else multiset{}
  }

  ghost function DeliveryShare(): Option<Delivery> -> multiset<nat> {
    (d: Option<Delivery>) => if d.Some? then multiset{d.value.item.serial} else multiset{}
  }

  ghost function ItemShare(): Item -> multiset<nat> {
    (i: Item) => multiset{i.serial}
  }

  ghost function PublicationShare(): Publication -> multiset<nat> {
    (p: Publication) => multiset{p.item.serial}
  }

  /** Every place a message can be, by the number it was accepted under. */
  ghost function Places(s: State): multiset<nat> {
    multiset(s.pipe) + Total(WorkerShare(), s.workers) + Total(ItemShare(), s.dropped) +
    Total(ItemShare(), s.outgoing) + Total(DeliveryShare(), s.responders) + Total(PublicationShare(), s.published)
  }

  /** The numbers below n, once each. */
  ghost function Numbers(n: nat): multiset<nat> {
    if n == 0 then multiset{} else Numbers(n - 1) + multiset{n - 1}
  }

  /** What a response must be, given its message: under the message's ID, with a
      protocol, and accounted for by exactly one of three histories. */
  ghost predicate Accounted(m: Message, h: History, resp: Response) {
    && resp.id == m.id && !resp.protocol.IsZero()
    && (if h.observed != [] then
          // a middleware function failed: the handler did not run, and the
          // observer saw the wrapped error
          && h.calls == [] && h.observed == [resp.error] && resp.protocol == m.protocol
          && |resp.error| == 1 && resp.error[0].Wrapped?
          && resp.error[0].id == m.id && resp.error[0].protocol == m.protocol && resp.error[0].cause != []
        else if h.calls == [] then
          // there was no handler
          resp.protocol == m.protocol && resp.error == [NoHandler]
        else
          // the handler of the message's protocol ran, once
          && |h.calls| == 1 && h.calls[0].key == m.protocol
          && resp.protocol == if h.calls[0].returned.IsZero() then m.protocol else h.calls[0].returned)
  }

  ghost predicate JobTrue(accepted: seq<Message>, job: Job) {
    && job.serial < |accepted|
    && job.id == accepted[job.serial].id && job.protocol == accepted[job.serial].protocol
    && match job.phase
       case Answered(resp) => Accounted(accepted[job.serial], job.history, resp)
       case _ => job.history == History([], [])
  }

  ghost predicate ItemTrue(accepted: seq<Message>, item: Item) {
    item.serial < |accepted| && Accounted(accepted[item.serial], item.history, item.resp)
  }

  ghost predicate CallerTrue(s: State, c: Caller) {
    && c.serial < |s.accepted| && c.id == s.accepted[c.serial].id
    && (c.result.Some? ==> c.since <= c.result.value < |s.published| && s.published[c.result.value].rr.id == c.id)
  }

  /** Every accepted message is in exactly one place. */
  ghost predicate Conserved(s: State) {
    Places(s) == Numbers(|s.accepted|)
  }

  ghost predicate ContentsTrue(s: State) {
    && (forall n | 0 <= n < |s.accepted| :: !s.accepted[n].protocol.IsZero() && s.accepted[n].id != "")
    && (forall n | n in s.pipe :: n < |s.accepted|)
    && (forall w | 0 <= w < |s.workers| && s.workers[w].Some? :: JobTrue(s.accepted, s.workers[w].value))
    && (forall i | 0 <= i < |s.outgoing| :: ItemTrue(s.accepted, s.outgoing[i]))
    && (forall r | 0 <= r < |s.responders| && s.responders[r].Some? :: ItemTrue(s.accepted, s.responders[r].value.item))
    && (forall i | 0 <= i < |s.published| :: ItemTrue(s.accepted, s.published[i].item))
    && (forall i | 0 <= i < |s.dropped| :: ItemTrue(s.accepted, s.dropped[i]))
  }

  ghost predicate Inv(s: State) {
    && |s.pipe| <= |s.workers|
    && Conserved(s)
    && ContentsTrue(s)
    && (forall c | 0 <= c < |s.callers| :: CallerTrue(s, s.callers[c]))
  }

  lemma PopFront(s: seq<nat>)
    requires s != []
    ensures multiset(s) == multiset(s[1..]) + multiset{s[0]}
  {
    assert s == [s[0]] + s[1..];
  }

  /** A worker that goes on with the same message leaves it in its place. */
  lemma SameWorkerPlace(s: State, w: nat, job: Job)
    requires BusyWorker(s, w) && job.serial == s.workers[w].value.serial
    ensures Places(s.(workers := s.workers[w := Some(job)])) == Places(s)
  {
    TotalReplace(WorkerShare(), s.workers, w, Some(job));
  }

  lemma SameResponderPlace(s: State, r: nat, d: Delivery)
    requires BusyResponder(s, r) && d.item.serial == s.responders[r].value.item.serial
    ensures Places(s.(responders := s.responders[r := Some(d)])) == Places(s)
  {
    TotalReplace(DeliveryShare(), s.responders, r, Some(d));
  }

  lemma TakePlace(s: State, w: nat)
    requires Enabled(s, Take(w))
    ensures Places(Apply(s, Take(w))) == Places(s)
  {
    var s' := Apply(s, Take(w));
    TotalFill(WorkerShare(), s.workers, w, s'.workers[w]);
    PopFront(s.pipe);
    SumShift(multiset{}, multiset(s.pipe[1..]), multiset{}, Total(WorkerShare(), s.workers), multiset{s.pipe[0]});
  }

  lemma PushPlace(s: State, w: nat, ok: bool)
    requires Enabled(s, Push(w, ok))
    ensures Places(Apply(s, Push(w, ok))) == Places(s)
  {
    var x, rest := multiset{s.workers[w].value.serial}, Total(WorkerShare(), s.workers[w := None]);
    TotalEmpty(WorkerShare(), s.workers, w, None);
    assert Total(WorkerShare(), s.workers) == rest + x;
    if ok {
      QueuedPlace(s, w, x, rest);
    } else {
      DroppedPlace(s, w, x, rest);
    }
  }

  lemma QueuedPlace(s: State, w: nat, x: multiset<nat>, rest: multiset<nat>)
    requires Enabled(s, Push(w, true)) && x == multiset{s.workers[w].value.serial}
    requires rest == Total(WorkerShare(), s.workers[w := None]) && Total(WorkerShare(), s.workers) == rest + x
    ensures Places(Apply(s, Push(w, true))) == Places(s)
  {
    var job := s.workers[w].value;
    TotalSnoc(ItemShare(), s.outgoing, Item(job.serial, job.history, job.phase.resp));
    SumShift(multiset(s.pipe), rest, Total(ItemShare(), s.dropped), Total(ItemShare(), s.outgoing), x);
  }

  lemma DroppedPlace(s: State, w: nat, x: multiset<nat>, rest: multiset<nat>)
    requires Enabled(s, Push(w, false)) && x == multiset{s.workers[w].value.serial}
    requires rest == Total(WorkerShare(), s.workers[w := None]) && Total(WorkerShare(), s.workers) == rest + x
    ensures Places(Apply(s, Push(w, false))) == Places(s)
  {
    var job := s.workers[w].value;
    TotalSnoc(ItemShare(), s.dropped, Item(job.serial, job.history, job.phase.resp));
    SumShift(multiset(s.pipe), rest, multiset{}, Total(ItemShare(), s.dropped), x);
  }

  lemma TakeResponsePlace(s: State, r: nat)
    requires Enabled(s, TakeResponse(r))
    ensures Places(Apply(s, TakeResponse(r))) == Places(s)
  {
    var s' := Apply(s, TakeResponse(r));
    TotalFill(DeliveryShare(), s.responders, r, s'.responders[r]);
    TotalPop(ItemShare(), s.outgoing);
    var base := multiset(s.pipe) + Total(WorkerShare(), s.workers) + Total(ItemShare(), s.dropped);
    SumShift(base, Total(ItemShare(), s.outgoing[1..]), multiset{}, Total(DeliveryShare(), s.responders),
             multiset{s.outgoing[0].serial});
  }

  lemma PublishPlace(s: State, r: nat)
    requires Enabled(s, Publish(r))
    ensures Places(Apply(s, Publish(r))) == Places(s)
  {
    var d := s.responders[r].value;
    TotalEmpty(DeliveryShare(), s.responders, r, None);
    TotalSnoc(PublicationShare(), s.published, Publication(d.item, d.rr));
    var base := multiset(s.pipe) + Total(WorkerShare(), s.workers) + Total(ItemShare(), s.dropped) +
                Total(ItemShare(), s.outgoing);
    SumShift(base, Total(DeliveryShare(), s.responders[r := None]), multiset{}, Total(PublicationShare(), s.published),
             multiset{d.item.serial});
  }

  lemma AcceptPlace(s: State, m: Message)
    requires Conserved(s)
    ensures Conserved(Accept(s, m))
  {
  }

  predicate IsWorkerStep(step: Step) {
    step.Take? || step.RunMiddleware? || step.EndChain? || step.Handle? || step.Push?
  }

  predicate IsResponderStep(step: Step) {
    step.TakeResponse? || step.RunInterceptor? || step.EndInterceptors? || step.Publish?
  }

  lemma WorkerStepConserves(s: State, step: Step)
    requires IsWorkerStep(step) && Enabled(s, step)
    ensures Places(Apply(s, step)) == Places(s) && Apply(s, step).accepted == s.accepted
  {
    match step
    case Take(w) => TakePlace(s, w);
    case RunMiddleware(w, req, error) => SameWorkerPlace(s, w, AfterMiddleware(s.workers[w].value, req, error));
    case EndChain(w) => SameWorkerPlace(s, w, Apply(s, step).workers[w].value);
    case Handle(w, resp, error, panics) => SameWorkerPlace(s, w, Apply(s, step).workers[w].value);
    case Push(w, ok) => PushPlace(s, w, ok);
  }

  lemma ResponderStepConserves(s: State, step: Step)
    requires IsResponderStep(step) && Enabled(s, step)
    ensures Places(Apply(s, step)) == Places(s) && Apply(s, step).accepted == s.accepted
  {
    match step
    case TakeResponse(r) => TakeResponsePlace(s, r);
    case RunInterceptor(r, rr, error) => SameResponderPlace(s, r, AfterInterceptor(s.responders[r].value, rr, error));
    case EndInterceptors(r) => SameResponderPlace(s, r, Apply(s, step).responders[r].value);
    case Publish(r) => PublishPlace(s, r);
  }

  lemma StepConserves(s: State, step: Step)
    requires Conserved(s) && Enabled(s, step)
    ensures Conserved(Apply(s, step))
  {
    if IsWorkerStep(step) {
      WorkerStepConserves(s, step);
    } else if IsResponderStep(step) {
      ResponderStepConserves(s, step);
    } else if step.Broadcast? || step.Exec? {
      AcceptPlace(s, WithID(step.m, step.generated));
    }
  }

  lemma JobStaysTrue(accepted: seq<Message>, job: Job, req: Message, error: Error)
    requires JobTrue(accepted, job) && !job.phase.Answered? && !accepted[job.serial].protocol.IsZero()
    ensures JobTrue(accepted, AfterMiddleware(job, req, error))
  {
  }

  lemma HandledStaysTrue(accepted: seq<Message>, job: Job, found: bool, resp: Response, error: Error, panics: bool)
    requires JobTrue(accepted, job) && !job.phase.Answered? && !accepted[job.serial].protocol.IsZero()
    ensures JobTrue(accepted, AfterHandler(job, found, resp, error, panics))
  {
  }

  lemma WorkerKeepsContents(s: State, w: nat, job: Option<Job>)
    requires ContentsTrue(s) && w < |s.workers|
    requires job.Some? ==> JobTrue(s.accepted, job.value)
    ensures ContentsTrue(s.(workers := s.workers[w := job]))
  {
  }

  lemma ResponderKeepsContents(s: State, r: nat, d: Option<Delivery>)
    requires ContentsTrue(s) && r < |s.responders|
    requires d.Some? ==> ItemTrue(s.accepted, d.value.item)
    ensures ContentsTrue(s.(responders := s.responders[r := d]))
  {
  }

  lemma JobTrueLonger(accepted: seq<Message>, m: Message, job: Job)
    requires JobTrue(accepted, job)
    ensures JobTrue(accepted + [m], job)
  {
    assert (accepted + [m])[job.serial] == accepted[job.serial];
  }

  lemma ItemTrueLonger(accepted: seq<Message>, m: Message, item: Item)
    requires ItemTrue(accepted, item)
    ensures ItemTrue(accepted + [m], item)
  {
    assert (accepted + [m])[item.serial] == accepted[item.serial];
  }

  lemma AcceptKeepsContents(s: State, m: Message)
    requires ContentsTrue(s) && !m.protocol.IsZero() && m.id != ""
    ensures ContentsTrue(Accept(s, m))
  {
    var longer := s.accepted + [m];
    forall w | 0 <= w < |s.workers| && s.workers[w].Some? ensures JobTrue(longer, s.workers[w].value) {
      JobTrueLonger(s.accepted, m, s.workers[w].value);
    }
    forall i | 0 <= i < |s.outgoing| ensures ItemTrue(longer, s.outgoing[i]) {
      ItemTrueLonger(s.accepted, m, s.outgoing[i]);
    }
    forall r | 0 <= r < |s.responders| && s.responders[r].Some? ensures ItemTrue(longer, s.responders[r].value.item) {
      ItemTrueLonger(s.accepted, m, s.responders[r].value.item);
    }
    forall i | 0 <= i < |s.published| ensures ItemTrue(longer, s.published[i].item) {
      ItemTrueLonger(s.accepted, m, s.published[i].item);
    }
    forall i | 0 <= i < |s.dropped| ensures ItemTrue(longer, s.dropped[i]) {
      ItemTrueLonger(s.accepted, m, s.dropped[i]);
    }
  }

  lemma QueuesKeepContents(s: State, s': State)
    requires ContentsTrue(s)
    requires s' == s.(pipe := s'.pipe, outgoing := s'.outgoing, published := s'.published, dropped := s'.dropped,
                      middleware := s'.middleware, interceptors := s'.interceptors, handlers := s'.handlers,
                      cancelled := s'.cancelled, callers := s'.callers)
    requires forall n | n in s'.pipe :: n in s.pipe
    requires forall i | 0 <= i < |s'.outgoing| :: ItemTrue(s.accepted, s'.outgoing[i])
    requires forall i | 0 <= i < |s'.published| :: ItemTrue(s.accepted, s'.published[i].item)
    requires forall i | 0 <= i < |s'.dropped| :: ItemTrue(s.accepted, s'.dropped[i])
    ensures ContentsTrue(s')
  {
  }

  lemma WorkerStepKeepsContents(s: State, step: Step)
    requires ContentsTrue(s) && IsWorkerStep(step) && Enabled(s, step)
    ensures ContentsTrue(Apply(s, step))
  {
    var s' := Apply(s, step);
    match step
    case Take(w) =>
      WorkerKeepsContents(s, w, s'.workers[w]);
      QueuesKeepContents(s.(workers := s'.workers), s');
    case RunMiddleware(w, req, error) =>
      JobStaysTrue(s.accepted, s.workers[w].value, req, error);
      WorkerKeepsContents(s, w, s'.workers[w]);
    case EndChain(w) => WorkerKeepsContents(s, w, s'.workers[w]);
    case Handle(w, resp, error, panics) =>
      var job := s.workers[w].value;
      HandledStaysTrue(s.accepted, job, job.protocol in s.handlers, resp, error, panics);
      WorkerKeepsContents(s, w, s'.workers[w]);
    case Push(w, ok) =>
      WorkerKeepsContents(s, w, None);
      QueuesKeepContents(s.(workers := s'.workers), s');
  }

  lemma ResponderStepKeepsContents(s: State, step: Step)
    requires ContentsTrue(s) && IsResponderStep(step) && Enabled(s, step)
    ensures ContentsTrue(Apply(s, step))
  {
    var s' := Apply(s, step);
    match step
    case TakeResponse(r) =>
      ResponderKeepsContents(s, r, s'.responders[r]);
      QueuesKeepContents(s.(responders := s'.responders), s');
    case RunInterceptor(r, rr, error) => ResponderKeepsContents(s, r, s'.responders[r]);
    case EndInterceptors(r) => ResponderKeepsContents(s, r, s'.responders[r]);
    case Publish(r) =>
      ResponderKeepsContents(s, r, None);
      QueuesKeepContents(s.(responders := s'.responders), s');
  }

  lemma StepKeepsContents(s: State, step: Step)
    requires ContentsTrue(s) && Enabled(s, step)
    ensures ContentsTrue(Apply(s, step))
  {
    if IsWorkerStep(step) {
      WorkerStepKeepsContents(s, step);
    } else if IsResponderStep(step) {
      ResponderStepKeepsContents(s, step);
    } else if step.Broadcast? || step.Exec? {
      var m := WithID(step.m, step.generated);
      AcceptKeepsContents(s, m);
      QueuesKeepContents(Accept(s, m), Apply(s, step));
    } else {
      QueuesKeepContents(s, Apply(s, step));
    }
  }

  lemma StepKeepsPipe(s: State, step: Step)
    requires Enabled(s, step) && |s.pipe| <= |s.workers|
    ensures |Apply(s, step).pipe| <= |Apply(s, step).workers|
    ensures s.accepted <= Apply(s, step).accepted && s.published <= Apply(s, step).published
  {
  }

  lemma StepKeepsCallers(s: State, step: Step)
    requires Enabled(s, step)
    requires forall c | 0 <= c < |s.callers| :: CallerTrue(s, s.callers[c])
    ensures forall c | 0 <= c < |Apply(s, step).callers| :: CallerTrue(Apply(s, step), Apply(s, step).callers[c])
  {
    var s' := Apply(s, step);
    forall c | 0 <= c < |s'.callers| ensures CallerTrue(s', s'.callers[c]) {
      if c < |s.callers| {
        assert CallerTrue(s, s.callers[c]);
      }
    }
  }

  /** Whatever step is taken, and whatever the functions in it do, the invariant
      is kept. */
  lemma StepKeepsInv(s: State, step: Step)
    requires Inv(s) && Enabled(s, step)
    ensures Inv(Apply(s, step))
  {
    StepConserves(s, step);
    StepKeepsContents(s, step);
    StepKeepsPipe(s, step);
    StepKeepsCallers(s, step);
  }

  // ----- every reachable state

  lemma {:induction false} NothingAnywhere(workers: int, responders: nat)
    ensures Inv(Initial(workers, responders))
  {
    var s := Initial(workers, responders);
    TotalNone(WorkerShare(), s.workers);
    TotalNone(DeliveryShare(), s.responders);
  }

  lemma {:induction false} RunKeepsInv(s: State, steps: seq<Step>)
    requires Inv(s) && IsRun(s, steps)
    ensures Inv(After(s, steps))
    decreases |steps|
  {
    if steps != [] {
      StepKeepsInv(s, steps[0]);
      RunKeepsInv(Apply(s, steps[0]), steps[1..]);
    }
  }

  /** A state that a dispatcher can get to. */
  ghost predicate Reachable(s: State) {
    exists workers, responders, steps :: IsRun(Initial(workers, responders), steps) && After(Initial(workers, responders), steps) == s
  }

  /** At every reachable state each accepted message is in exactly one place: the
      pipe, a worker, the outgoing queue, a responder, published, or dropped by
      a failed push. The pipe never holds more than there are workers. */
  lemma ReachableInv(s: State)
    requires Reachable(s)
    ensures Inv(s)
  {
    var workers, responders, steps :|
      IsRun(Initial(workers, responders), steps) && After(Initial(workers, responders), steps) == s;
    NothingAnywhere(workers, responders);
    RunKeepsInv(Initial(workers, responders), steps);
  }

  lemma {:induction false} NumbersOnce(n: nat)
    ensures forall k: nat :: Numbers(n)[k] == if k < n then 1 else 0
  {
    if n > 0 { NumbersOnce(n - 1); }
  }

  lemma {:induction false} PublishedCount(ps: seq<Publication>, i: nat, j: nat)
    requires i < j < |ps| && ps[i].item.serial == ps[j].item.serial
    ensures Total(PublicationShare(), ps)[ps[i].item.serial] >= 2
  {
    var k := |ps| - 1;
    if j < k {
      PublishedCount(ps[..k], i, j);
    } else {
      TotalMember(PublicationShare(), ps[..k], ps[i].item.serial);
      assert ps[..k][i] in ps[..k] && ps[i].item.serial in PublicationShare()(ps[i]);
    }
  }

  /** Nothing is published twice. */
  lemma PublishedOnce(s: State)
    requires Inv(s)
    ensures forall i, j | 0 <= i < j < |s.published| :: s.published[i].item.serial != s.published[j].item.serial
  {
    NumbersOnce(|s.accepted|);
    forall i, j | 0 <= i < j < |s.published| && s.published[i].item.serial == s.published[j].item.serial
      ensures Places(s)[s.published[i].item.serial] >= 2
    {
      PublishedCount(s.published, i, j);
    }
  }

  lemma PublishedAndDropped(s: State, i: nat, j: nat)
    requires i < |s.published| && j < |s.dropped| && s.published[i].item.serial == s.dropped[j].serial
    ensures Places(s)[s.dropped[j].serial] >= 2
  {
    var n := s.dropped[j].serial;
    assert s.dropped[j] in s.dropped && n in ItemShare()(s.dropped[j]);
    TotalMember(ItemShare(), s.dropped, n);
    assert s.published[i] in s.published && n in PublicationShare()(s.published[i]);
    TotalMember(PublicationShare(), s.published, n);
  }

  /** What is published was not dropped. */
  lemma PublishedNotDropped(s: State, i: nat, j: nat)
    requires Inv(s) && i < |s.published| && j < |s.dropped|
    ensures s.published[i].item.serial != s.dropped[j].serial
  {
    NumbersOnce(|s.accepted|);
    if s.published[i].item.serial == s.dropped[j].serial {
      PublishedAndDropped(s, i, j);
    }
  }

  // ----- replies to Exec

  /** Interceptors leave the ID of a response alone. */
  predicate KeepsID(s: State, step: Step)
    requires Enabled(s, step)
  {
    step.RunInterceptor? ==> step.rr.id == s.responders[step.r].value.rr.id
  }

  predicate KeepsIDs(s: State, steps: seq<Step>)
    requires IsRun(s, steps)
    decreases |steps|
  {
    steps == [] || (KeepsID(s, steps[0]) && KeepsIDs(Apply(s, steps[0]), steps[1..]))
  }

  /** No two accepted messages have one ID. */
  ghost predicate DistinctIDs(s: State) {
    forall i, j | 0 <= i < j < |s.accepted| :: s.accepted[i].id != s.accepted[j].id
  }

  ghost predicate IDsKept(s: State) {
    && (forall r | 0 <= r < |s.responders| && s.responders[r].Some? ::
          s.responders[r].value.rr.id == s.responders[r].value.item.resp.id)
    && (forall i | 0 <= i < |s.published| :: s.published[i].rr.id == s.published[i].item.resp.id)
  }

  lemma StepKeepsIDs(s: State, step: Step)
    requires IDsKept(s) && Enabled(s, step) && KeepsID(s, step)
    ensures IDsKept(Apply(s, step))
  {
  }

  lemma {:induction false} RunKeepsIDs(s: State, steps: seq<Step>)
    requires IDsKept(s) && IsRun(s, steps) && KeepsIDs(s, steps)
    ensures IDsKept(After(s, steps))
    decreases |steps|
  {
    if steps != [] {
      StepKeepsIDs(s, steps[0]);
      RunKeepsIDs(Apply(s, steps[0]), steps[1..]);
    }
  }

  /** What Exec returns always has the ID of its message. If interceptors leave
      IDs alone, it is the response to a message of that ID, apart from what
      interceptors did to it. If IDs are distinct, it is the response to the very
      message that Exec sent exactly when it has kept the ID it was pushed with. */
  lemma ExecReturnsOwnResponse(workers: int, responders: nat, steps: seq<Step>, c: nat)
    requires IsRun(Initial(workers, responders), steps)
    requires var s := After(Initial(workers, responders), steps); c < |s.callers| && s.callers[c].result.Some?
    ensures var s := After(Initial(workers, responders), steps);
            var caller := s.callers[c];
            && caller.serial < |s.accepted|
            && caller.since <= caller.result.value < |s.published|
            && var p := s.published[caller.result.value];
               && p.rr.id == caller.id == s.accepted[caller.serial].id
               && p.item.serial < |s.accepted|
               && Accounted(s.accepted[p.item.serial], p.item.history, p.item.resp)
               && (KeepsIDs(Initial(workers, responders), steps) ==> s.accepted[p.item.serial].id == caller.id)
               && (DistinctIDs(s) ==> (p.item.serial == caller.serial <==> p.rr.id == p.item.resp.id))
  {
    var s0 := Initial(workers, responders);
    var s := After(s0, steps);
    NothingAnywhere(workers, responders);
    RunKeepsInv(s0, steps);
    assert CallerTrue(s, s.callers[c]);
    var p := s.published[s.callers[c].result.value];
    assert ItemTrue(s.accepted, p.item);
    if KeepsIDs(s0, steps) {
      RunKeepsIDs(s0, steps);
    }
  }

  // ----- what a sender's message becomes

  /** Accepted messages and callers are added to; the earlier ones stay. */
  ghost predicate Extends(s: State, t: State) {
    && s.accepted <= t.accepted && |s.callers| <= |t.callers|
    && forall c | 0 <= c < |s.callers| :: t.callers[c].serial == s.callers[c].serial && t.callers[c].id == s.callers[c].id
  }

  lemma {:induction false} RunExtends(s: State, steps: seq<Step>)
    requires IsRun(s, steps)
    ensures Extends(s, After(s, steps))
    decreases |steps|
  {
    if steps != [] {
      RunExtends(Apply(s, steps[0]), steps[1..]);
    }
  }

  lemma {:induction false} AfterSplit(s: State, steps: seq<Step>, k: nat)
    requires IsRun(s, steps) && k <= |steps|
    ensures IsRun(s, steps[..k]) && IsRun(After(s, steps[..k]), steps[k..])
    ensures After(s, steps) == After(After(s, steps[..k]), steps[k..])
    decreases |steps|
  {
    if k == 0 {
      assert steps[..0] == [] && steps[0..] == steps;
    } else {
      AfterSplit(Apply(s, steps[0]), steps[1..], k - 1);
      assert steps[..k][1..] == steps[1..][..k - 1] && steps[1..][k - 1..] == steps[k..];
    }
  }

  /** A message that comes with an ID is accepted as it is; one without gets the
      generated one, and nothing else of it changes. That is what the dispatcher has
      of it from then on. */
  lemma SentAsGiven(s: State, steps: seq<Step>, k: nat)
    requires IsRun(s, steps) && k < |steps| && (steps[k].Broadcast? || steps[k].Exec?)
    ensures IsRun(s, steps[..k])
    ensures var n, m, t := |After(s, steps[..k]).accepted|, steps[k].m, After(s, steps);
            && n < |t.accepted|
            && (if m.id != "" then t.accepted[n] == m else t.accepted[n] == m.(id := steps[k].generated))
            && t.accepted[n].id != ""
  {
    AfterSplit(s, steps, k);
    var t := After(s, steps[..k]);
    assert steps[k..][0] == steps[k];
    RunExtends(Apply(t, steps[k]), steps[k..][1..]);
  }

  /** What a caller of Exec gets has the ID of the message that it sent, if that had
      one, or else the generated ID. */
  lemma ExecAnswersSender(workers: int, responders: nat, steps: seq<Step>, k: nat)
    requires IsRun(Initial(workers, responders), steps) && k < |steps| && steps[k].Exec?
    ensures IsRun(Initial(workers, responders), steps[..k])
    ensures var c, m, t := |After(Initial(workers, responders), steps[..k]).callers|, steps[k].m, After(Initial(workers, responders), steps);
            && c < |t.callers|
            && (t.callers[c].result.Some? ==>
                  && t.callers[c].result.value < |t.published|
                  && t.published[t.callers[c].result.value].rr.id == if m.id != "" then m.id else steps[k].generated)
  {
    var s := Initial(workers, responders);
    AfterSplit(s, steps, k);
    var t := After(s, steps[..k]);
    assert steps[k..][0] == steps[k];
    RunExtends(Apply(t, steps[k]), steps[k..][1..]);
    NothingAnywhere(workers, responders);
    RunKeepsInv(s, steps);
    assert CallerTrue(After(s, steps), After(s, steps).callers[|t.callers|]);
  }

  // ----- queues

  /** The pipe holds the latest messages, in the order in which they were accepted. */
  ghost predicate PipeInOrder(s: State) {
    |s.pipe| <= |s.accepted| && forall i | 0 <= i < |s.pipe| :: s.pipe[i] == |s.accepted| - |s.pipe| + i
  }

  lemma StepKeepsOrder(s: State, step: Step)
    requires PipeInOrder(s) && Enabled(s, step)
    ensures PipeInOrder(Apply(s, step)) && |Apply(s, step).workers| == |s.workers|
  {
    var t := Apply(s, step);
    if step.Broadcast? || step.Exec? {
      assert t.pipe == s.pipe + [|s.accepted|] && |t.accepted| == |s.accepted| + 1;
    } else if step.Take? {
      assert t.pipe == s.pipe[1..] && t.accepted == s.accepted;
    } else {
      assert t.pipe == s.pipe && t.accepted == s.accepted;
    }
  }

  lemma {:induction false} RunKeepsOrder(s: State, steps: seq<Step>)
    requires PipeInOrder(s) && IsRun(s, steps)
    ensures PipeInOrder(After(s, steps)) && |After(s, steps).workers| == |s.workers|
    decreases |steps|
  {
    if steps != [] {
      StepKeepsOrder(s, steps[0]);
      RunKeepsOrder(Apply(s, steps[0]), steps[1..]);
    }
  }

  /** Messages are taken in the order in which they are accepted, by as many workers
      as were asked for, or one. */
  lemma TakenInOrder(workers: int, responders: nat, steps: seq<Step>)
    requires IsRun(Initial(workers, responders), steps)
    ensures var s := After(Initial(workers, responders), steps);
            PipeInOrder(s) && |s.workers| == if workers < 1 then 1 else workers
  {
    RunKeepsOrder(Initial(workers, responders), steps);
  }
}
