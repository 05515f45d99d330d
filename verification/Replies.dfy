/** Whose reply a caller of Exec gets (x/router/dispatcher.go), by what
    interceptors may do to responses. */
module Replies {
  import opened Prelude
  import opened Dispatchers

  /** Whether an interceptor may leave the second response when it is given the
      first. */
  type Rewriting = (Response, Response) -> bool

  predicate Allowed(may: Rewriting, s: State, step: Step)
    requires Enabled(s, step)
  {
    step.RunInterceptor? ==> may(s.responders[step.r].value.rr, step.rr)
  }

  /** Interceptors do in a run what they may. */
  predicate AllAllowed(may: Rewriting, s: State, steps: seq<Step>)
    requires IsRun(s, steps)
    decreases |steps|
  {
    steps == [] || (Allowed(may, s, steps[0]) && AllAllowed(may, Apply(s, steps[0]), steps[1..]))
  }

  /** Each response is what an interceptor may make of the one before. */
  ghost predicate IsChain(may: Rewriting, c: seq<Response>) {
    c != [] && forall i | 0 <= i < |c| - 1 :: may(c[i], c[i + 1])
  }

  predicate Identified(rr: Response) {
    !rr.protocol.IsZero() && rr.id != ""
  }

  /** However often interceptors do what they may, a response that had a protocol
      and an ID does not come to have another ID. */
  ghost predicate KeepsOwn(may: Rewriting) {
    forall c: seq<Response> | IsChain(may, c) && Identified(c[0]) :: c[|c| - 1].id == c[0].id || c[|c| - 1].id == ""
  }

  /** Some caller of Exec got the response to another message. */
  ghost predicate Misdirected(s: State) {
    exists c, i :: 0 <= c < |s.callers| && 0 <= i < |s.published| && s.callers[c].result == Some(i) &&
                   s.published[i].item.serial != s.callers[c].serial
  }

  /** No run misdirects a response, as long as message IDs are distinct, exactly
      when what interceptors may do keeps a response its own. */
  lemma NoRunMisdirects(may: Rewriting)
    ensures KeepsOwn(may) <==>
            forall workers, responders, steps |
              IsRun(Initial(workers, responders), steps) && AllAllowed(may, Initial(workers, responders), steps) &&
              DistinctIDs(After(Initial(workers, responders), steps)) ::
              !Misdirected(After(Initial(workers, responders), steps))
  {
    if KeepsOwn(may) {
      forall workers, responders, steps |
        IsRun(Initial(workers, responders), steps) && AllAllowed(may, Initial(workers, responders), steps) &&
        DistinctIDs(After(Initial(workers, responders), steps))
        ensures !Misdirected(After(Initial(workers, responders), steps))
      {
        OwnReplies(may, workers, responders, steps);
      }
    } else {
      var c: seq<Response> :| IsChain(may, c) && Identified(c[0]) && c[|c| - 1].id != c[0].id && c[|c| - 1].id != "";
      var steps, s := MisdirectingRun(may, c);
      assert IsRun(Initial(1, 1), steps) && After(Initial(1, 1), steps) == s && AllAllowed(may, Initial(1, 1), steps);
    }
  }

  // ----- no misdirection

  ghost predicate LeadsTo(may: Rewriting, a: Response, b: Response) {
    exists c :: IsChain(may, c) && c[0] == a && c[|c| - 1] == b
  }

  lemma LeadsToItself(may: Rewriting, a: Response)
    ensures LeadsTo(may, a, a)
  {
    assert IsChain(may, [a]);
  }

  lemma LeadsFurther(may: Rewriting, a: Response, b: Response, b': Response)
    requires LeadsTo(may, a, b) && may(b, b')
    ensures LeadsTo(may, a, b')
  {
    var c :| IsChain(may, c) && c[0] == a && c[|c| - 1] == b;
    assert IsChain(may, c + [b']);
    assert (c + [b'])[0] == a && (c + [b'])[|c|] == b';
  }

  /** What interceptors have made of a response by now is what they may, but for
      the error that one of them may have ended with. */
  ghost predicate DeliveryLed(may: Rewriting, d: Delivery) {
    if d.stage.Intercepted? then LedToID(may, d.item.resp, d.rr.id) else LeadsTo(may, d.item.resp, d.rr)
  }

  ghost predicate LedToID(may: Rewriting, a: Response, id: string) {
    exists b :: LeadsTo(may, a, b) && b.id == id
  }

  ghost predicate AllLed(may: Rewriting, s: State) {
    && (forall r | 0 <= r < |s.responders| && s.responders[r].Some? :: DeliveryLed(may, s.responders[r].value))
    && forall i | 0 <= i < |s.published| :: LedToID(may, s.published[i].item.resp, s.published[i].rr.id)
  }

  lemma InterceptorLeads(may: Rewriting, d: Delivery, rr: Response, error: Error)
    requires DeliveryLed(may, d) && !d.stage.Intercepted? && may(d.rr, rr)
    ensures DeliveryLed(may, AfterInterceptor(d, rr, error))
  {
    LeadsFurther(may, d.item.resp, d.rr, rr);
  }

  lemma StepKeepsLed(may: Rewriting, s: State, step: Step)
    requires AllLed(may, s) && Enabled(s, step) && Allowed(may, s, step)
    ensures AllLed(may, Apply(s, step))
  {
    if step.RunInterceptor? {
      InterceptorLeads(may, s.responders[step.r].value, step.rr, step.error);
    } else if step.TakeResponse? {
      LeadsToItself(may, s.outgoing[0].resp);
    } else if step.EndInterceptors? {
      assert DeliveryLed(may, s.responders[step.r].value);
    } else if step.Publish? {
      assert DeliveryLed(may, s.responders[step.r].value);
    }
  }

  lemma {:induction false} RunKeepsLed(may: Rewriting, s: State, steps: seq<Step>)
    requires AllLed(may, s) && IsRun(s, steps) && AllAllowed(may, s, steps)
    ensures AllLed(may, After(s, steps))
    decreases |steps|
  {
    if steps != [] {
      StepKeepsLed(may, s, steps[0]);
      RunKeepsLed(may, Apply(s, steps[0]), steps[1..]);
    }
  }

  lemma OwnReplies(may: Rewriting, workers: int, responders: nat, steps: seq<Step>)
    requires KeepsOwn(may)
    requires IsRun(Initial(workers, responders), steps) && AllAllowed(may, Initial(workers, responders), steps)
    requires DistinctIDs(After(Initial(workers, responders), steps))
    ensures !Misdirected(After(Initial(workers, responders), steps))
  {
    var s := After(Initial(workers, responders), steps);
    RunKeepsLed(may, Initial(workers, responders), steps);
    assert Reachable(s);
    ReachableInv(s);
    forall c, i | 0 <= c < |s.callers| && 0 <= i < |s.published| && s.callers[c].result == Some(i)
      ensures s.published[i].item.serial == s.callers[c].serial
    {
      ExecReturnsOwnResponse(workers, responders, steps, c);
      OwnID(may, s, c, i);
    }
  }

  lemma OwnID(may: Rewriting, s: State, c: nat, i: nat)
    requires KeepsOwn(may) && AllLed(may, s) && Inv(s)
    requires c < |s.callers| && i < |s.published| && s.callers[c].result == Some(i)
    ensures s.published[i].rr.id == s.published[i].item.resp.id
  {
    var p := s.published[i];
    assert CallerTrue(s, s.callers[c]);
    assert ItemTrue(s.accepted, p.item);
    var b :| LeadsTo(may, p.item.resp, b) && b.id == p.rr.id;
    var chain :| IsChain(may, chain) && chain[0] == p.item.resp && chain[|chain| - 1] == b;
    assert Identified(chain[0]);
  }

  // ----- a run that misdirects

  /** steps lead from s0 to s and do what interceptors may. */
  ghost predicate Goes(may: Rewriting, s0: State, steps: seq<Step>, s: State) {
    IsRun(s0, steps) && After(s0, steps) == s && AllAllowed(may, s0, steps)
  }

  lemma {:induction false} GoesOneMore(may: Rewriting, s0: State, steps: seq<Step>, s: State, step: Step)
    requires Goes(may, s0, steps, s) && Enabled(s, step) && Allowed(may, s, step)
    ensures Goes(may, s0, steps + [step], Apply(s, step))
    decreases |steps|
  {
    if steps == [] {
      assert [step][1..] == [];
    } else {
      GoesOneMore(may, Apply(s0, steps[0]), steps[1..], s, step);
      assert (steps + [step])[1..] == steps[1..] + [step];
    }
  }

  lemma Go(may: Rewriting, s0: State, steps: seq<Step>, s: State, step: Step) returns (steps': seq<Step>, t: State)
    requires Goes(may, s0, steps, s) && Enabled(s, step) && Allowed(may, s, step)
    ensures t == Apply(s, step) && Goes(may, s0, steps', t)
  {
    GoesOneMore(may, s0, steps, s, step);
    steps', t := steps + [step], Apply(s, step);
  }

  /** The chain's first response is pushed, the message it answers having been
      broadcast; a caller of Exec waits for the ID of the chain's last; the
      interceptors make the one of the other; and the caller gets it. */
  lemma MisdirectingRun(may: Rewriting, c: seq<Response>) returns (steps: seq<Step>, s: State)
    requires IsChain(may, c) && Identified(c[0]) && c[|c| - 1].id != c[0].id && c[|c| - 1].id != ""
    ensures Goes(may, Initial(1, 1), steps, s) && DistinctIDs(s) && Misdirected(s)
  {
    var s0 := Initial(1, 1);
    steps, s := Register(may, s0, c[0].protocol, |c| - 1);
    steps, s := PushFirst(may, s0, steps, s, c[0]);
    steps, s := Wait(may, s0, steps, s, Message(c[0].protocol, c[|c| - 1].id, ""));
    steps, s := InterceptAll(may, s0, steps, s, c);
    steps, s := ReceiveOther(may, s0, steps, s);
  }

  /** A caller of Exec sends a second message. */
  lemma Wait(may: Rewriting, s0: State, steps: seq<Step>, s: State, m: Message) returns (steps': seq<Step>, t: State)
    requires Goes(may, s0, steps, s) && !m.protocol.IsZero() && m.id != ""
    requires |s.accepted| == 1 && s.pipe == [] && |s.workers| == 1 && s.callers == []
    ensures Goes(may, s0, steps', t)
    ensures t == s.(accepted := [s.accepted[0], m], pipe := [1], callers := [Caller(1, m.id, 0, None)])
  {
    steps', t := Go(may, s0, steps, s, Exec(m, "g", 0));
  }

  /** It gets the response to the first. */
  lemma ReceiveOther(may: Rewriting, s0: State, steps: seq<Step>, s: State) returns (steps': seq<Step>, t: State)
    requires Goes(may, s0, steps, s) && |s.accepted| == 2 && s.accepted[0].id != s.accepted[1].id
    requires |s.published| == 1 && s.published[0].item.serial == 0
    requires s.callers == [Caller(1, s.published[0].rr.id, 0, None)]
    ensures Goes(may, s0, steps', t) && DistinctIDs(t) && Misdirected(t)
  {
    steps', t := Go(may, s0, steps, s, Receive(0, 0));
    assert t.callers[0].result == Some(0) && t.published[0].item.serial != t.callers[0].serial;
  }

  /** So many interceptors for a protocol. */
  lemma {:induction false} Register(may: Rewriting, s0: State, key: Protocol, n: nat) returns (steps: seq<Step>, s: State)
    requires s0 == Initial(1, 1)
    ensures Goes(may, s0, steps, s) && s == s0.(interceptors := s.interceptors)
    ensures forall k :: Registered(s.interceptors, k) == if k == key then n else 0
  {
    if n == 0 {
      steps, s := [], s0;
    } else {
      var before;
      steps, before := Register(may, s0, key, n - 1);
      steps, s := Go(may, s0, steps, before, AddInterceptor(key));
      forall k ensures Registered(s.interceptors, k) == if k == key then n else 0 {
        assert Registered(before.interceptors, k) == if k == key then n - 1 else 0;
      }
    }
  }

  /** A message is broadcast and answered by the given response. */
  lemma PushFirst(may: Rewriting, s0: State, steps: seq<Step>, s: State, rr: Response) returns (steps': seq<Step>, t: State)
    requires s0 == Initial(1, 1) && Goes(may, s0, steps, s) && s == s0.(interceptors := s.interceptors)
    requires Identified(rr)
    ensures Goes(may, s0, steps', t)
    ensures |t.outgoing| == 1 && t.outgoing[0].serial == 0 && t.outgoing[0].resp == rr
    ensures |t.accepted| == 1 && t.accepted[0].id == rr.id
    ensures t == s.(accepted := t.accepted, outgoing := t.outgoing, handlers := t.handlers)
  {
    steps', t := Go(may, s0, steps, s, SetHandler(rr.protocol));
    steps', t := TakeFirst(may, s0, steps', t, Message(rr.protocol, rr.id, ""));
    steps', t := AnswerAndPush(may, s0, steps', t, rr);
    assert t.workers == s.workers;
  }

  /** A message is taken and has no middleware to go through. */
  lemma TakeFirst(may: Rewriting, s0: State, steps: seq<Step>, s: State, m: Message) returns (steps': seq<Step>, t: State)
    requires Goes(may, s0, steps, s) && !m.protocol.IsZero() && m.id != ""
    requires s.accepted == [] && s.pipe == [] && s.workers == [None] && s.middleware == map[]
    ensures Goes(may, s0, steps', t)
    ensures t == s.(accepted := [m], workers := [Some(Job(0, m.id, m.protocol, m, Handling, History([], [])))])
  {
    steps', t := Go(may, s0, steps, s, Broadcast(m, "g"));
    steps', t := Go(may, s0, steps', t, Take(0));
    var job := Job(0, m.id, m.protocol, m, ProtocolChain(0), History([], []));
    assert t == s.(accepted := [m], workers := [Some(job)]);
    steps', t := EndChains(may, s0, steps', t, job);
  }

  lemma EndChains(may: Rewriting, s0: State, steps: seq<Step>, s: State, job: Job) returns (steps': seq<Step>, t: State)
    requires Goes(may, s0, steps, s) && s.workers == [Some(job)] && job.phase == ProtocolChain(0)
    requires s.middleware == map[]
    ensures Goes(may, s0, steps', t) && t == s.(workers := [Some(job.(phase := Handling))])
  {
    steps', t := Go(may, s0, steps, s, EndChain(0));
    assert t == s.(workers := [Some(job.(phase := GeneralChain(0)))]);
    steps', t := Go(may, s0, steps', t, EndChain(0));
  }

  lemma AnswerAndPush(may: Rewriting, s0: State, steps: seq<Step>, s: State, rr: Response)
    returns (steps': seq<Step>, t: State)
    requires Goes(may, s0, steps, s) && Identified(rr) && s.outgoing == [] && rr.protocol in s.handlers
    requires |s.workers| == 1 && s.workers[0].Some? && s.workers[0].value.phase.Handling?
    requires s.workers[0].value.protocol == rr.protocol && s.workers[0].value.id == rr.id
    ensures Goes(may, s0, steps', t)
    ensures t == s.(workers := [None], outgoing := t.outgoing) && |t.outgoing| == 1
    ensures t.outgoing[0].serial == s.workers[0].value.serial && t.outgoing[0].resp == rr
  {
    steps', t := Go(may, s0, steps, s, Handle(0, rr, [], false));
    steps', t := Go(may, s0, steps', t, Push(0, true));
  }

  /** The response in the queue is taken, and the protocol's interceptors make the
      chain's last of it. */
  lemma InterceptAll(may: Rewriting, s0: State, steps: seq<Step>, s: State, c: seq<Response>)
    returns (steps': seq<Step>, t: State)
    requires Goes(may, s0, steps, s) && IsChain(may, c) && Identified(c[0])
    requires |s.outgoing| == 1 && s.outgoing[0].resp == c[0] && s.responders == [None] && s.published == []
    requires Registered(s.interceptors, NO_PROTOCOL) == 0 && Registered(s.interceptors, c[0].protocol) == |c| - 1
    ensures Goes(may, s0, steps', t) && t.accepted == s.accepted && t.callers == s.callers
    ensures t.published == [Publication(s.outgoing[0], c[|c| - 1])]
  {
    steps', t := TakeIt(may, s0, steps, s, c[0].protocol);
    steps', t := InterceptSome(may, s0, steps', t, c, |c| - 1);
    steps', t := PublishIt(may, s0, steps', t, c[0].protocol);
  }

  lemma TakeIt(may: Rewriting, s0: State, steps: seq<Step>, s: State, key: Protocol) returns (steps': seq<Step>, t: State)
    requires Goes(may, s0, steps, s) && |s.outgoing| == 1 && s.responders == [None]
    requires s.outgoing[0].resp.protocol == key && Registered(s.interceptors, NO_PROTOCOL) == 0
    ensures Goes(may, s0, steps', t)
    ensures var item := s.outgoing[0];
            t == s.(outgoing := [], responders := [Some(Delivery(item, item.resp, ProtocolInterceptors(key, 0)))])
  {
    steps', t := Go(may, s0, steps, s, TakeResponse(0));
    steps', t := Go(may, s0, steps', t, EndInterceptors(0));
  }

  lemma PublishIt(may: Rewriting, s0: State, steps: seq<Step>, s: State, key: Protocol) returns (steps': seq<Step>, t: State)
    requires Goes(may, s0, steps, s) && |s.responders| == 1 && s.responders[0].Some?
    requires s.responders[0].value.stage == ProtocolInterceptors(key, Registered(s.interceptors, key))
    ensures Goes(may, s0, steps', t)
    ensures var d := s.responders[0].value;
            t == s.(responders := [None], published := s.published + [Publication(d.item, d.rr)])
  {
    steps', t := Go(may, s0, steps, s, EndInterceptors(0));
    steps', t := Go(may, s0, steps', t, Publish(0));
  }

  lemma {:induction false} InterceptSome(may: Rewriting, s0: State, steps: seq<Step>, s: State, c: seq<Response>, n: nat)
    returns (steps': seq<Step>, t: State)
    requires Goes(may, s0, steps, s) && IsChain(may, c) && n < |c|
    requires |s.responders| == 1 && s.responders[0].Some?
    requires Registered(s.interceptors, c[0].protocol) == |c| - 1
    requires s.responders[0].value.rr == c[0] && s.responders[0].value.stage == ProtocolInterceptors(c[0].protocol, 0)
    ensures Goes(may, s0, steps', t)
    ensures t == s.(responders := [Some(Delivery(s.responders[0].value.item, c[n], ProtocolInterceptors(c[0].protocol, n)))])
  {
    if n == 0 {
      steps', t := steps, s;
    } else {
      steps', t := InterceptSome(may, s0, steps, s, c, n - 1);
      steps', t := Go(may, s0, steps', t, RunInterceptor(0, c[n], []));
    }
  }

  // ----- one interceptor at a time

  /** If interceptors leave a response that has a protocol and an ID with both,
      looking at them one at a time is enough. */
  lemma OneAtATime(may: Rewriting)
    requires forall a, b | may(a, b) && Identified(a) :: Identified(b)
    ensures KeepsOwn(may) <==> forall a, b | may(a, b) && Identified(a) :: b.id == a.id
  {
    if forall a, b | may(a, b) && Identified(a) :: b.id == a.id {
      forall c: seq<Response> | IsChain(may, c) && Identified(c[0]) ensures c[|c| - 1].id == c[0].id {
        ChainKeeps(may, c, |c| - 1);
      }
    } else {
      var a, b :| may(a, b) && Identified(a) && b.id != a.id;
      assert IsChain(may, [a, b]);
    }
  }

  lemma {:induction false} ChainKeeps(may: Rewriting, c: seq<Response>, n: nat)
    requires forall a, b | may(a, b) && Identified(a) :: Identified(b) && b.id == a.id
    requires IsChain(may, c) && Identified(c[0]) && n < |c|
    ensures Identified(c[n]) && c[n].id == c[0].id
  {
    if n > 0 {
      ChainKeeps(may, c, n - 1);
      assert may(c[n - 1], c[n]);
    }
  }
}
