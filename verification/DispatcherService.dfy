/** The bodies of the dispatcher's services (x/router/dispatcher.go), with the
    middleware, handlers and interceptors registered as functions. Each body is a
    run of the dispatcher's machine. */
module DispatcherService {
  import opened Prelude
  import opened Dispatchers

  /** What a middleware function or an interceptor does: the value it leaves, and
      the error it returns or panics with. */
  datatype Effect<+T> = Effect(value: T, error: Error)

  datatype Answer = Gave(resp: Response, error: Error) | Panicked(text: string)

  type Middleware = Message -> Effect<Message>
  type Interceptor = Response -> Effect<Response>
  type Handler = Message -> Answer

  /** What a chain of functions leaves: each runs on what the one before left,
      until one fails. */
  function Outcome<T>(chain: seq<T -> Effect<T>>, given: T): Effect<T> {
    if chain == [] then Effect(given, [])
    else
      var before := Outcome(chain[..|chain| - 1], given);
      if before.error != [] then before else chain[|chain| - 1](before.value)
  }

  lemma OutcomeOneMore<T>(chain: seq<T -> Effect<T>>, k: nat, given: T)
    requires k < |chain| && Outcome(chain[..k], given).error == []
    ensures Outcome(chain[..k + 1], given) == chain[k](Outcome(chain[..k], given).value)
  {
    assert chain[..k + 1][..k] == chain[..k];
  }

  /** A failure ends the chain. */
  lemma {:induction false} OutcomeStops<T>(chain: seq<T -> Effect<T>>, k: nat, given: T)
    requires k <= |chain| && (Outcome(chain[..k], given).error != [] || k == |chain|)
    ensures Outcome(chain, given) == Outcome(chain[..k], given)
  {
    if k == |chain| {
      assert chain[..k] == chain;
    } else {
      var shorter := chain[..|chain| - 1];
      assert shorter[..k] == chain[..k];
      OutcomeStops(shorter, k, given);
    }
  }

  /** Whether the context still holds when a chain asks for its k-th function; the
      chain ends when it does not. */
  type Context = nat -> bool

  /** How many of n functions a chain comes to. */
  function Reached(n: nat, live: Context): (k: nat)
    ensures k <= n
  {
    if n == 0 then 0
    else
      var k := Reached(n - 1, live);
      if k == n - 1 && live(k) then n else k
  }

  /** A context that holds for k functions, and then fails or is not asked again,
      lets k of them run. */
  lemma {:induction false} ReachedAll(n: nat, live: Context, k: nat)
    requires k <= n && (forall j | 0 <= j < k :: live(j))
    ensures Reached(n, live) >= k
    ensures k == n || !live(k) ==> Reached(n, live) == k
  {
    if k < n {
      ReachedAll(n - 1, live, k);
    } else if n > 0 {
      ReachedAll(n - 1, live, k - 1);
    }
  }

  lemma ReachedFully(n: nat, live: Context)
    requires forall k :: live(k)
    ensures Reached(n, live) == n
  {
    ReachedAll(n, live, n);
  }

  /** What a chain leaves under a context. */
  function OutcomeUnder<T>(chain: seq<T -> Effect<T>>, live: Context, given: T): Effect<T> {
    Outcome(chain[..Reached(|chain|, live)], given)
  }

  /** The first k functions have run without failing, and left a value. */
  ghost predicate HasRun<T(!new)>(chain: seq<T -> Effect<T>>, live: Context, k: nat, given: T, value: T) {
    && k <= |chain| && (forall j | 0 <= j < k :: live(j))
    && Outcome(chain[..k], given) == Effect(value, [])
  }

  /** The next function: the context may end the chain, the function may fail, or
      it has run as well. */
  lemma RunNext<T(!new)>(chain: seq<T -> Effect<T>>, live: Context, k: nat, given: T, value: T)
    requires HasRun(chain, live, k, given, value) && k < |chain|
    ensures if !live(k) then
              OutcomeUnder(chain, live, given) == Effect(value, []) && Reached(|chain|, live) == k
            else
              var e := chain[k](value);
              if e.error != [] then OutcomeUnder(chain, live, given) == e
              else HasRun(chain, live, k + 1, given, e.value)
  {
    ReachedAll(|chain|, live, k);
    if live(k) {
      OutcomeOneMore(chain, k, given);
      if chain[k](value).error != [] {
        ReachedAll(|chain|, live, k + 1);
        var ran := chain[..Reached(|chain|, live)];
        assert ran[..k + 1] == chain[..k + 1];
        OutcomeStops(ran, k + 1, given);
      }
    }
  }

  lemma HasRunAll<T(!new)>(chain: seq<T -> Effect<T>>, live: Context, given: T, value: T)
    requires HasRun(chain, live, |chain|, given, value)
    ensures OutcomeUnder(chain, live, given) == Effect(value, []) && Reached(|chain|, live) == |chain|
  {
    ReachedAll(|chain|, live, |chain|);
  }

  lemma HasRunNone<T(!new)>(chain: seq<T -> Effect<T>>, live: Context, given: T)
    ensures HasRun(chain, live, 0, given, given)
  {
    assert chain[..0] == [];
  }

  /** steps lead from s to t. */
  ghost predicate Leads(s: State, steps: seq<Step>, t: State) {
    IsRun(s, steps) && After(s, steps) == t
  }

  lemma {:induction false} LeadsOneMore(s: State, steps: seq<Step>, t: State, step: Step)
    requires Leads(s, steps, t) && Enabled(t, step)
    ensures Leads(s, steps + [step], Apply(t, step))
    decreases |steps|
  {
    if steps == [] {
      assert [step][1..] == [];
    } else {
      LeadsOneMore(Apply(s, steps[0]), steps[1..], t, step);
      assert (steps + [step])[1..] == steps[1..] + [step];
    }
  }

  ghost function WithJob(s: State, w: nat, job: Job): State
    requires w < |s.workers|
  {
    s.(workers := s.workers[w := Some(job)])
  }

  ghost function WithDelivery(s: State, r: nat, d: Delivery): State
    requires r < |s.responders|
  {
    s.(responders := s.responders[r := Some(d)])
  }

  class Dispatcher {
    var middleware: map<Protocol, seq<Middleware>>
    var interceptors: map<Protocol, seq<Interceptor>>
    var handlers: map<Protocol, Handler>

    constructor ()
    {
      middleware, interceptors, handlers := map[], map[], map[];
    }

    function MiddlewareFor(key: Protocol): seq<Middleware>
      reads this
    {
      if key in middleware then middleware[key] else []
    }

    function InterceptorsFor(key: Protocol): seq<Interceptor>
      reads this
    {
      if key in interceptors then interceptors[key] else []
    }

    /** What middleware makes of a message: the functions for its protocol, then
        those for all. */
    ghost function Prepared(req: Message, own: Context, all: Context): Effect<Message>
      reads this
    {
      var first := OutcomeUnder(MiddlewareFor(req.protocol), own, req);
      if first.error != [] then first else OutcomeUnder(MiddlewareFor(NO_PROTOCOL), all, first.value)
    }

    /** The response to a message. Its ID is the message's whatever the handler
        says; its protocol is the message's unless the handler says otherwise; and
        the handler is that of the protocol the message came with. */
    ghost function Reply(req: Message, own: Context, all: Context): Response
      reads this
    {
      var prepared := Prepared(req, own, all);
      if prepared.error != [] then
        Response(req.protocol, req.id, "", [Wrapped(req.id, req.protocol, prepared.error)])
      else if req.protocol !in handlers then
        Response(req.protocol, req.id, "", [NoHandler])
      else
        match handlers[req.protocol](prepared.value)
        case Gave(given, error) =>
          Response(if given.protocol.IsZero() then req.protocol else given.protocol, req.id, given.payload,
                   error + given.error)
        case Panicked(text) => Response(req.protocol, req.id, "", [Raised(text)])
    }

    /** The response as interceptors leave it: those for all, then those for the
        protocol it has by then. A failure of the first replaces the response's
        error; one of the second is joined to it. */
    ghost function Delivered(rr: Response, all: Context, own: Context): Response
      reads this
    {
      var first := OutcomeUnder(InterceptorsFor(NO_PROTOCOL), all, rr);
      if first.error != [] then first.value.(error := first.error)
      else
        var second := OutcomeUnder(InterceptorsFor(first.value.protocol), own, first.value);
        second.value.(error := second.error + second.value.error)
    }

    /** The machine's registries count the functions registered here. */
    ghost predicate Matches(s: State)
      reads this
    {
      && (forall key :: Registered(s.middleware, key) == if key in middleware then |middleware[key]| else 0)
      && (forall key :: Registered(s.interceptors, key) == if key in interceptors then |interceptors[key]| else 0)
      && s.handlers == handlers.Keys
    }

    /** AddMiddleware: at the end of the chain for the protocol, or for all. */
    method AddMiddleware(key: Protocol, it: Middleware)
      modifies this`middleware
      ensures middleware == old(middleware)[key := old(MiddlewareFor(key)) + [it]]
      ensures forall s: State | old(Matches(s)) :: Matches(Apply(s, Step.AddMiddleware(key)))
    {
      middleware := middleware[key := MiddlewareFor(key) + [it]];
    }

    method AddInterceptor(key: Protocol, it: Interceptor)
      modifies this`interceptors
      ensures interceptors == old(interceptors)[key := old(InterceptorsFor(key)) + [it]]
      ensures forall s: State | old(Matches(s)) :: Matches(Apply(s, Step.AddInterceptor(key)))
    {
      interceptors := interceptors[key := InterceptorsFor(key) + [it]];
    }

    /** RegisterHandler refuses the zero protocol and a second handler. */
    method RegisterHandler(key: Protocol, hfn: Handler) returns (ok: bool)
      modifies this`handlers
      ensures ok <==> !key.IsZero() && key !in old(handlers)
      ensures handlers == if ok then old(handlers)[key := hfn] else old(handlers)
      ensures forall s: State | old(Matches(s)) ::
                if ok then Enabled(s, SetHandler(key)) && Matches(Apply(s, SetHandler(key))) else Matches(s)
    {
      if key.IsZero() || key in handlers {
        return false;
      }
      handlers := handlers[key := hfn];
      return true;
    }

    /** OverrideHandler. */
    method OverrideHandler(key: Protocol, hfn: Handler)
      modifies this`handlers
      ensures handlers == if key.IsZero() then old(handlers) else old(handlers)[key := hfn]
      ensures forall s: State | old(Matches(s)) ::
                if key.IsZero() then Matches(s) else Matches(Apply(s, SetHandler(key)))
    {
      if key.IsZero() {
        return;
      }
      handlers := handlers[key := hfn];
    }

    /** doMiddleware, for the worker w of the machine: runs a chain until one of
        its functions fails. */
    method DoMiddleware(
      key: Protocol, req: Message, live: Context, ghost s0: State, ghost before: seq<Step>, ghost s: State, ghost w: nat)
      returns (r: Message, error: Error, ghost steps: seq<Step>, ghost job: Job)
      requires Leads(s0, before, s) && Matches(s) && BusyWorker(s, w) && s.workers[w].value.req == req
      requires s.workers[w].value.phase ==
               if key == NO_PROTOCOL then GeneralChain(0) else ProtocolChain(0)
      requires key == NO_PROTOCOL || key == s.workers[w].value.protocol
      ensures Effect(r, error) == OutcomeUnder(MiddlewareFor(key), live, req)
      ensures Leads(s0, steps, WithJob(s, w, job))
      ensures job.serial == s.workers[w].value.serial && job.id == s.workers[w].value.id
      ensures job.protocol == s.workers[w].value.protocol && job.req == r
      ensures error == [] ==>
                && job.history == s.workers[w].value.history
                && job.phase == if key == NO_PROTOCOL then GeneralChain(Reached(Registered(s.middleware, key), live))
                                else ProtocolChain(Reached(Registered(s.middleware, key), live))
      ensures error != [] ==>
                && job.phase == Answered(Finish(job, ZERO_RESPONSE.(error := error), error))
                && job.history == s.workers[w].value.history.(
                     observed := s.workers[w].value.history.observed + [job.phase.resp.error])
    {
      r, error, steps := req, [], before;
      job := s.workers[w].value;
      assert WithJob(s, w, job) == s;
      var chain := MiddlewareFor(key);
      HasRunNone(chain, live, req);
      for k := 0 to |chain|
        invariant Leads(s0, steps, WithJob(s, w, job))
        invariant error == []
        invariant HasRun(chain, live, k, req, r)
        invariant job == s.workers[w].value.(req := r, phase := if key == NO_PROTOCOL then GeneralChain(k) else ProtocolChain(k))
      {
        RunNext(chain, live, k, req, r);
        if !live(k) {
          return;
        }
        var effect := chain[k](r);
        MiddlewareStep(s0, steps, s, w, job, effect);
        steps := steps + [RunMiddleware(w, effect.value, effect.error)];
        job := AfterMiddleware(job, effect.value, effect.error);
        r := effect.value;
        if effect.error != [] {
          error := effect.error;
          return;
        }
      }
      HasRunAll(chain, live, req, r);
    }

    /** doHandler. */
    method DoHandler(key: Protocol, req: Message) returns (resp: Response)
      ensures key !in handlers ==> resp == ZERO_RESPONSE.(error := [NoHandler])
      ensures key in handlers ==>
                match handlers[key](req)
                case Gave(given, error) => resp == given.(error := error + given.error)
                case Panicked(text) => resp == ZERO_RESPONSE.(error := [Raised(text)])
    {
      if key !in handlers {
        return ZERO_RESPONSE.(error := [NoHandler]);
      }
      var got := handlers[key](req);
      match got {
        case Gave(given, error) => resp := given.(error := error + given.error);
        case Panicked(text) => resp := ZERO_RESPONSE.(error := [Raised(text)]);
      }
    }

    /** The two chains one after the other: the protocol's, then the general one.
        Without an error, the worker is about to handle the message. */
    method RunChains(req: Message, own: Context, all: Context, ghost s: State, ghost w: nat)
      returns (r: Message, error: Error, ghost steps: seq<Step>, ghost job: Job)
      requires Matches(s) && BusyWorker(s, w) && s.workers[w].value.req == req && req.protocol != NO_PROTOCOL
      requires s.workers[w].value.protocol == req.protocol && s.workers[w].value.phase == ProtocolChain(0)
      requires s.cancelled || forall k :: own(k) && all(k)
      ensures Effect(r, error) == Prepared(req, own, all)
      ensures Leads(s, steps, WithJob(s, w, job))
      ensures job.serial == s.workers[w].value.serial && job.id == s.workers[w].value.id
      ensures job.protocol == req.protocol && job.req == r
      ensures error == [] ==> job.phase == Handling && job.history == s.workers[w].value.history
      ensures error != [] ==>
                && job.phase == Answered(Finish(job, ZERO_RESPONSE.(error := error), error))
                && job.history == s.workers[w].value.history.(
                     observed := s.workers[w].value.history.observed + [job.phase.resp.error])
    {
      r, error, steps, job := DoMiddleware(req.protocol, req, own, s, [], s, w);
      if error != [] {
        return;
      }
      ghost var between := NextChain(s, steps, s, w, job, own);
      steps := steps + [EndChain(w)];
      r, error, steps, job := DoMiddleware(NO_PROTOCOL, r, all, s, steps, WithJob(s, w, between), w);
      assert WithJob(WithJob(s, w, between), w, job) == WithJob(s, w, job);
      if error == [] {
        ghost var ready := NextChain(s, steps, s, w, job, all);
        steps, job := steps + [EndChain(w)], ready;
      }
    }

    /** The middleware service's body: middleware for the message's protocol, then
        for all, then the handler; the response is given the message's ID and, if
        it has none, its protocol. The observer is shown middleware errors only.
        The body is a run of the machine from the worker having taken the message
        to the response being ready. */
    method Process(req: Message, own: Context, all: Context, ghost s: State, ghost w: nat)
      returns (resp: Response, observed: seq<Error>, ghost steps: seq<Step>, ghost job: Job)
      requires Matches(s) && BusyWorker(s, w) && !req.protocol.IsZero()
      requires s.cancelled || forall k :: own(k) && all(k)
      requires exists n :: s.workers[w].value == Job(n, req.id, req.protocol, req, ProtocolChain(0), History([], []))
      ensures resp == Reply(req, own, all)
      ensures observed == if Prepared(req, own, all).error != [] then [resp.error] else []
      ensures Leads(s, steps, WithJob(s, w, job))
      ensures job.serial == s.workers[w].value.serial
      ensures job.phase == Answered(resp) && job.history.observed == observed
      ensures Accounted(req, job.history, resp)
    {
      var id, protocol := req.id, req.protocol;
      var r, error;
      r, error, steps, job := RunChains(req, own, all, s, w);
      if error != [] {
        resp := ZERO_RESPONSE.(error := error);
      } else {
        resp := DoHandler(protocol, r);
        ghost var answer := if protocol in handlers then handlers[protocol](r) else Panicked("");
        job := HandlerAnswers(s, steps, s, w, job, protocol in handlers, answer);
        steps := steps + [HandleStep(w, answer)];
      }
      resp := resp.(id := id);
      if resp.protocol.IsZero() {
        resp := resp.(protocol := protocol);
      }
      observed := [];
      if error != [] {
        resp := resp.(error := [Wrapped(id, protocol, error)]);
        observed := [resp.error];
      }
    }

    /** doIntercept, for the responder r of the machine. */
    method DoIntercept(
      key: Protocol, rr: Response, live: Context, ghost s0: State, ghost before: seq<Step>, ghost s: State, ghost r: nat,
      ghost item: Item)
      returns (out: Response, error: Error, ghost steps: seq<Step>, ghost d: Delivery)
      requires Leads(s0, before, s) && Matches(s) && BusyResponder(s, r)
      requires (s.responders[r].value == Delivery(item, rr, GeneralInterceptors(0)) && key == NO_PROTOCOL)
               || s.responders[r].value == Delivery(item, rr, ProtocolInterceptors(key, 0))
      ensures Effect(out, error) == OutcomeUnder(InterceptorsFor(key), live, rr)
      ensures Leads(s0, steps, WithDelivery(s, r, d))
      ensures d == AfterChain(item, s.responders[r].value.stage.GeneralInterceptors?, key, out, error,
                              Reached(Registered(s.interceptors, key), live))
    {
      out, error, steps := rr, [], before;
      d := s.responders[r].value;
      ghost var general := d.stage.GeneralInterceptors?;
      assert WithDelivery(s, r, d) == s;
      var chain := InterceptorsFor(key);
      HasRunNone(chain, live, rr);
      for k := 0 to |chain|
        invariant Leads(s0, steps, WithDelivery(s, r, d))
        invariant error == []
        invariant HasRun(chain, live, k, rr, out)
        invariant d == AfterChain(item, general, key, out, [], k)
      {
        RunNext(chain, live, k, rr, out);
        if !live(k) {
          return;
        }
        var effect := chain[k](out);
        InterceptorStep(s0, steps, s, r, d, effect);
        steps := steps + [RunInterceptor(r, effect.value, effect.error)];
        d := AfterInterceptor(d, effect.value, effect.error);
        out := effect.value;
        if effect.error != [] {
          error := effect.error;
          return;
        }
      }
      HasRunAll(chain, live, rr, out);
    }

    /** The response service's body: the interceptors for all, then those for the
        protocol that the response has by then. The body is a run of the machine
        from the responder having taken the response to its being ready to be
        published. */
    method Intercept(rr: Response, all: Context, own: Context, ghost s: State, ghost r: nat, ghost item: Item)
      returns (out: Response, ghost steps: seq<Step>, ghost d: Delivery)
      requires Matches(s) && BusyResponder(s, r)
      requires s.responders[r].value == Delivery(item, rr, GeneralInterceptors(0))
      requires s.cancelled || forall k :: all(k) && own(k)
      ensures out == Delivered(rr, all, own)
      ensures Leads(s, steps, WithDelivery(s, r, d))
      ensures d == Delivery(item, out, Intercepted)
    {
      var error;
      out, error, steps, d := DoIntercept(NO_PROTOCOL, rr, all, s, [], s, r, item);
      if error != [] {
        out := out.(error := error);
        return;
      }
      ghost var between := NextInterceptors(s, steps, s, r, d, all);
      steps := steps + [EndInterceptors(r)];
      out, error, steps, d := DoIntercept(out.protocol, out, own, s, steps, WithDelivery(s, r, between), r, item);
      assert WithDelivery(WithDelivery(s, r, between), r, d) == WithDelivery(s, r, d);
      if error != [] {
        out := out.(error := error + out.error);
      } else {
        d := NextInterceptors(s, steps, s, r, d, own);
        steps := steps + [EndInterceptors(r)];
      }
    }
  }

  /** With a context that holds, two chains one after the other are one chain. */
  lemma {:induction false} OneChain<T(!new)>(first: seq<T -> Effect<T>>, second: seq<T -> Effect<T>>, given: T)
    ensures Outcome(first + second, given) ==
            var e := Outcome(first, given); if e.error != [] then e else Outcome(second, e.value)
    decreases |second|
  {
    if second == [] {
      assert first + second == first;
    } else {
      var k := |second| - 1;
      assert (first + second)[..|first| + k] == first + second[..k];
      OneChain(first, second[..k], given);
    }
  }

  lemma Unhindered<T(!new)>(chain: seq<T -> Effect<T>>, live: Context, given: T)
    requires forall k :: live(k)
    ensures OutcomeUnder(chain, live, given) == Outcome(chain, given)
  {
    ReachedFully(|chain|, live);
    assert chain[..|chain|] == chain;
  }

  /** While the context holds, a message goes through its protocol's middleware and
      then the general one, and a response through the general interceptors and then
      those of its protocol, as through one chain. */
  lemma ChainsInOrder(d: Dispatcher, req: Message, rr: Response, live: Context)
    requires forall k :: live(k)
    ensures d.Prepared(req, live, live) == Outcome(d.MiddlewareFor(req.protocol) + d.MiddlewareFor(NO_PROTOCOL), req)
    ensures var first := Outcome(d.InterceptorsFor(NO_PROTOCOL), rr);
            var through := Outcome(d.InterceptorsFor(NO_PROTOCOL) + d.InterceptorsFor(first.value.protocol), rr);
            && d.Delivered(rr, live, live).id == through.value.id
            && (through.error == [] ==> d.Delivered(rr, live, live) == through.value)
  {
    Unhindered(d.MiddlewareFor(req.protocol), live, req);
    var prepared := Outcome(d.MiddlewareFor(req.protocol), req);
    Unhindered(d.MiddlewareFor(NO_PROTOCOL), live, prepared.value);
    OneChain(d.MiddlewareFor(req.protocol), d.MiddlewareFor(NO_PROTOCOL), req);
    Unhindered(d.InterceptorsFor(NO_PROTOCOL), live, rr);
    var first := Outcome(d.InterceptorsFor(NO_PROTOCOL), rr);
    Unhindered(d.InterceptorsFor(first.value.protocol), live, first.value);
    OneChain(d.InterceptorsFor(NO_PROTOCOL), d.InterceptorsFor(first.value.protocol), rr);
  }

  /** A delivery after so many interceptors, the last of which may have failed. */
  ghost function AfterChain(item: Item, general: bool, key: Protocol, out: Response, error: Error, ran: nat): Delivery {
    if error != [] then Delivery(item, out.(error := if general then error else error + out.error), Intercepted)
    else Delivery(item, out, if general then GeneralInterceptors(ran) else ProtocolInterceptors(key, ran))
  }

  lemma MiddlewareStep(s0: State, steps: seq<Step>, s: State, w: nat, job: Job, effect: Effect<Message>)
    requires w < |s.workers| && Leads(s0, steps, WithJob(s, w, job))
    requires Enabled(WithJob(s, w, job), RunMiddleware(w, effect.value, effect.error))
    ensures Leads(s0, steps + [RunMiddleware(w, effect.value, effect.error)],
                  WithJob(s, w, AfterMiddleware(job, effect.value, effect.error)))
  {
    var step := RunMiddleware(w, effect.value, effect.error);
    LeadsOneMore(s0, steps, WithJob(s, w, job), step);
    assert Apply(WithJob(s, w, job), step) == WithJob(s, w, AfterMiddleware(job, effect.value, effect.error));
  }

  lemma InterceptorStep(s0: State, steps: seq<Step>, s: State, r: nat, d: Delivery, effect: Effect<Response>)
    requires r < |s.responders| && Leads(s0, steps, WithDelivery(s, r, d))
    requires Enabled(WithDelivery(s, r, d), RunInterceptor(r, effect.value, effect.error))
    ensures Leads(s0, steps + [RunInterceptor(r, effect.value, effect.error)],
                  WithDelivery(s, r, AfterInterceptor(d, effect.value, effect.error)))
  {
    var step := RunInterceptor(r, effect.value, effect.error);
    LeadsOneMore(s0, steps, WithDelivery(s, r, d), step);
    assert Apply(WithDelivery(s, r, d), step) == WithDelivery(s, r, AfterInterceptor(d, effect.value, effect.error));
  }

  /** A worker whose chain is through goes on to the next phase. */
  lemma NextChain(s: State, steps: seq<Step>, t: State, w: nat, job: Job, live: Context) returns (next: Job)
    requires w < |t.workers| && Leads(s, steps, WithJob(t, w, job)) && (t.cancelled || forall k :: live(k))
    requires match job.phase
             case ProtocolChain(ran) => ran == Reached(Registered(t.middleware, job.protocol), live)
             case GeneralChain(ran) => ran == Reached(Registered(t.middleware, NO_PROTOCOL), live)
             case _ => false
    ensures next == job.(phase := if job.phase.ProtocolChain? then GeneralChain(0) else Handling)
    ensures Leads(s, steps + [EndChain(w)], WithJob(t, w, next))
  {
    if !t.cancelled {
      ReachedFully(Registered(t.middleware, if job.phase.ProtocolChain? then job.protocol else NO_PROTOCOL), live);
    }
    next := job.(phase := if job.phase.ProtocolChain? then GeneralChain(0) else Handling);
    LeadsOneMore(s, steps, WithJob(t, w, job), EndChain(w));
    assert Apply(WithJob(t, w, job), EndChain(w)) == WithJob(t, w, next);
  }

  lemma NextInterceptors(s: State, steps: seq<Step>, t: State, r: nat, d: Delivery, live: Context)
    returns (next: Delivery)
    requires r < |t.responders| && Leads(s, steps, WithDelivery(t, r, d)) && (t.cancelled || forall k :: live(k))
    requires match d.stage
             case GeneralInterceptors(ran) => ran == Reached(Registered(t.interceptors, NO_PROTOCOL), live)
             case ProtocolInterceptors(key, ran) => ran == Reached(Registered(t.interceptors, key), live)
             case _ => false
    ensures next == d.(stage := if d.stage.GeneralInterceptors? then ProtocolInterceptors(d.rr.protocol, 0) else Intercepted)
    ensures Leads(s, steps + [EndInterceptors(r)], WithDelivery(t, r, next))
  {
    if !t.cancelled {
      ReachedFully(Registered(t.interceptors, if d.stage.GeneralInterceptors? then NO_PROTOCOL else d.stage.key), live);
    }
    next := d.(stage := if d.stage.GeneralInterceptors? then ProtocolInterceptors(d.rr.protocol, 0) else Intercepted);
    LeadsOneMore(s, steps, WithDelivery(t, r, d), EndInterceptors(r));
    assert Apply(WithDelivery(t, r, d), EndInterceptors(r)) == WithDelivery(t, r, next);
  }

  ghost function HandleStep(w: nat, answer: Answer): Step {
    match answer
    case Gave(resp, error) => Handle(w, resp, error, false)
    case Panicked(text) => Handle(w, ZERO_RESPONSE, [Raised(text)], true)
  }

  lemma HandlerAnswers(s: State, steps: seq<Step>, t: State, w: nat, job: Job, found: bool, answer: Answer) returns (next: Job)
    requires w < |t.workers| && Leads(s, steps, WithJob(t, w, job))
    requires job.phase.Handling? && (found <==> job.protocol in t.handlers)
    ensures next == match answer
                    case Gave(resp, error) => AfterHandler(job, found, resp, error, false)
                    case Panicked(text) => AfterHandler(job, found, ZERO_RESPONSE, [Raised(text)], true)
    ensures Leads(s, steps + [HandleStep(w, answer)], WithJob(t, w, next))
  {
    next := match answer
            case Gave(resp, error) => AfterHandler(job, found, resp, error, false)
            case Panicked(text) => AfterHandler(job, found, ZERO_RESPONSE, [Raised(text)], true);
    var step := HandleStep(w, answer);
    LeadsOneMore(s, steps, WithJob(t, w, job), step);
    assert Apply(WithJob(t, w, job), step) == WithJob(t, w, next);
  }
}
