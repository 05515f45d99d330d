/** What the layering loop of a build order delivers after so many iterations,
    told in rounds (tools/gadget/gendget.go). A round goes through the queue once,
    sets aside what is ready, and then comes back for what was passed over until
    the counter has come round; the ready packages then make a group. */
module Rounds {
  import opened Prelude
  import opened Ordering

  /** Package names and the names each one depends on. */
  type Dependencies = map<string, set<string>>

  datatype Layering = Layering(order: seq<seq<string>>, next: seq<string>)

  ghost predicate IsReady(g: Dependencies, done: set<string>, x: string) {
    x in g && g[x] <= done
  }

  /** The ready packages, in the queue's order. */
  ghost function Ready(g: Dependencies, done: set<string>, q: seq<string>): (r: seq<string>)
    ensures |r| <= |q|
  {
    if q == [] then []
    else Ready(g, done, q[..|q| - 1]) + if IsReady(g, done, q[|q| - 1]) then [q[|q| - 1]] else []
  }

  /** The others. */
  ghost function Waiting(g: Dependencies, done: set<string>, q: seq<string>): (r: seq<string>)
    ensures |r| + |Ready(g, done, q)| == |q|
  {
    if q == [] then []
    else Waiting(g, done, q[..|q| - 1]) + if IsReady(g, done, q[|q| - 1]) then [] else [q[|q| - 1]]
  }

  /** The packages up to the last ready one. */
  ghost function UpToReady(g: Dependencies, done: set<string>, q: seq<string>): (l: nat)
    ensures |Ready(g, done, q)| <= l <= |q|
    ensures l == 0 <==> Ready(g, done, q) == []
  {
    if q == [] then 0 else if IsReady(g, done, q[|q| - 1]) then |q| else UpToReady(g, done, q[..|q| - 1])
  }

  /** A round ends when every waiting package has come by since the last ready
      one. */
  ghost function RoundLength(g: Dependencies, done: set<string>, q: seq<string>): nat {
    UpToReady(g, done, q) + |Waiting(g, done, q)|
  }

  /** The queue of the next round: the packages behind the last ready one, then
      those that were passed over before it. */
  ghost function NextQueue(g: Dependencies, done: set<string>, q: seq<string>): seq<string> {
    var l := UpToReady(g, done, q);
    q[l..] + Waiting(g, done, q[..l])
  }

  ghost function InNameOrder(names: seq<string>): seq<string> {
    InsertionSort(CompareString, names)
  }

  lemma InNameOrderIsSort(names: seq<string>)
    ensures multiset(InNameOrder(names)) == multiset(names) && Sorted(CompareString, InNameOrder(names))
  {
    StringPreorder(Elements(names));
    InsertionSortStable(CompareString, Elements(names), names);
  }

  lemma NameOrderUnique(names: seq<string>, r: seq<string>)
    requires multiset(r) == multiset(names) && Sorted(CompareString, r)
    ensures r == InNameOrder(names)
  {
    InNameOrderIsSort(names);
    SortedStringsUnique(r, InNameOrder(names));
  }

  /** The finished groups and the pending one after n iterations. */
  ghost function RunFor(g: Dependencies, order: seq<seq<string>>, done: set<string>, q: seq<string>, n: nat): Layering
    decreases n
  {
    var ready := Ready(g, done, q);
    if ready == [] || n <= RoundLength(g, done, q) then Layering(order, Ready(g, done, q[..Min(n, |q|)]))
    else
      RunFor(g, order + [InNameOrder(ready)], done + Elements(ready), NextQueue(g, done, q), n - RoundLength(g, done, q))
  }

  /** How many iterations do something when nothing cuts the run short. */
  ghost function WholeRun(g: Dependencies, done: set<string>, q: seq<string>): nat
    decreases |q|
  {
    var ready := Ready(g, done, q);
    if ready == [] then 10 * |q|
    else if Waiting(g, done, q) == [] then |q|
    else
      NextQueueLength(g, done, q);
      RoundLength(g, done, q) + WholeRun(g, done + Elements(ready), NextQueue(g, done, q))
  }

  /** Whether that run ends without having placed every package. */
  ghost predicate GivesUp(g: Dependencies, done: set<string>, q: seq<string>)
    decreases |q|
  {
    var ready := Ready(g, done, q);
    if ready == [] then q != []
    else
      NextQueueLength(g, done, q);
      Waiting(g, done, q) != [] && GivesUp(g, done + Elements(ready), NextQueue(g, done, q))
  }

  // ----- the queue of a round

  lemma TakeSnoc<T>(s: seq<T>, k: nat)
    requires k < |s|
    ensures s[..k + 1][..k] == s[..k] && s[..k + 1][k] == s[k] && |s[..k + 1]| == k + 1
  {
  }

  lemma OneMore(g: Dependencies, done: set<string>, q: seq<string>, p: nat)
    requires p < |q|
    ensures Ready(g, done, q[..p + 1]) == Ready(g, done, q[..p]) + if IsReady(g, done, q[p]) then [q[p]] else []
    ensures Waiting(g, done, q[..p + 1]) == Waiting(g, done, q[..p]) + if IsReady(g, done, q[p]) then [] else [q[p]]
    ensures UpToReady(g, done, q[..p + 1]) == if IsReady(g, done, q[p]) then p + 1 else UpToReady(g, done, q[..p])
  {
    TakeSnoc(q, p);
  }

  lemma WithoutLast<T>(a: seq<T>, q: seq<T>, l: nat)
    requires l < |q|
    ensures q[..|q| - 1][..l] == q[..l]
    ensures a + q[..|q| - 1][l..] + [q[|q| - 1]] == a + q[l..]
  {
    assert q[..|q| - 1][l..] + [q[|q| - 1]] == q[l..];
  }

  /** Behind the last ready package there are only waiting ones. */
  lemma {:induction false} BehindReady(g: Dependencies, done: set<string>, q: seq<string>)
    ensures var l := UpToReady(g, done, q);
            && Waiting(g, done, q) == Waiting(g, done, q[..l]) + q[l..]
            && Ready(g, done, q) == Ready(g, done, q[..l])
  {
    var l := UpToReady(g, done, q);
    if l == |q| {
      TakeAll(q);
    } else {
      BehindReady(g, done, q[..|q| - 1]);
      WithoutLast(Waiting(g, done, q[..l]), q, l);
    }
  }

  lemma NextQueueLength(g: Dependencies, done: set<string>, q: seq<string>)
    ensures |NextQueue(g, done, q)| == |Waiting(g, done, q)|
    ensures Ready(g, done, q) != [] ==> |NextQueue(g, done, q)| < |q|
  {
    BehindReady(g, done, q);
  }

  lemma {:induction false} ReadyMember(g: Dependencies, done: set<string>, q: seq<string>, x: string)
    ensures x in Ready(g, done, q) <==> x in q && IsReady(g, done, x)
    ensures x in Waiting(g, done, q) <==> x in q && !IsReady(g, done, x)
  {
    if q != [] {
      assert q == q[..|q| - 1] + [q[|q| - 1]];
      ReadyMember(g, done, q[..|q| - 1], x);
    }
  }

  // ----- a round, one package at a time

  /** Packages have been popped p times in this round. */
  ghost predicate InRound(
    g: Dependencies, done: set<string>, q: seq<string>, p: nat, next: seq<string>, queue: seq<string>, runs: nat)
  {
    var front, waiting := q[..Min(p, |q|)], Waiting(g, done, q);
    && next == Ready(g, done, front)
    && p == UpToReady(g, done, front) + runs
    && |queue| == |q| - |next|
    && (p <= |q| ==> queue == q[p..] + Waiting(g, done, front))
    && (p > |q| && next != [] ==> p <= RoundLength(g, done, q) && queue == waiting[p - |q|..] + waiting[..p - |q|])
    && (p > |q| && next == [] ==> p <= 10 * |q|)
  }

  lemma Beginning(g: Dependencies, done: set<string>, q: seq<string>)
    ensures InRound(g, done, q, 0, [], q, 0)
  {
    assert q[..0] == [] && q[0..] == q;
  }

  /** Somewhere in the first time round, the queue's front is the next package of
      the round. */
  lemma PopFirst(
    g: Dependencies, done: set<string>, q: seq<string>, p: nat, next: seq<string>, queue: seq<string>, runs: nat)
    requires InRound(g, done, q, p, next, queue, runs) && p < |q|
    ensures queue != [] && queue[0] == q[p]
    ensures if IsReady(g, done, q[p]) then InRound(g, done, q, p + 1, next + [q[p]], queue[1..], 0)
            else InRound(g, done, q, p + 1, next, queue[1..] + [q[p]], runs + 1)
  {
    OneMore(g, done, q, p);
    FrontOff(q, p, Waiting(g, done, q[..p]), queue);
  }

  lemma FrontOff<T>(q: seq<T>, p: nat, passed: seq<T>, queue: seq<T>)
    requires p < |q| && queue == q[p..] + passed
    ensures queue != [] && queue[0] == q[p] && queue[1..] == q[p + 1..] + passed
    ensures queue[1..] + [q[p]] == q[p + 1..] + (passed + [q[p]])
  {
  }

  /** One turn of a queue that has turned k times. */
  lemma TurnOn<T>(s: seq<T>, k: nat, queue: seq<T>)
    requires k < |s| && queue == s[k..] + s[..k]
    ensures queue[0] == s[k] && queue[1..] + [queue[0]] == s[k + 1..] + s[..k + 1]
  {
  }

  lemma ReadyGrows(g: Dependencies, done: set<string>, q: seq<string>, p: nat)
    requires p <= |q|
    ensures Ready(g, done, q[..p]) != [] ==> Ready(g, done, q) != []
  {
    var front := q[..p];
    if Ready(g, done, front) != [] {
      var x := Ready(g, done, front)[0];
      ReadyMember(g, done, front, x);
      ReadyMember(g, done, q, x);
    }
  }

  /** With something pending, the counter has come round exactly when the round is
      over. */
  lemma CounterRound(
    g: Dependencies, done: set<string>, q: seq<string>, p: nat, next: seq<string>, queue: seq<string>, runs: nat)
    requires InRound(g, done, q, p, next, queue, runs) && next != []
    ensures Ready(g, done, q) != [] && p <= RoundLength(g, done, q)
    ensures runs == |queue| <==> p == RoundLength(g, done, q) && p >= |q|
    ensures p >= |q| ==> next == Ready(g, done, q)
  {
    ReadyGrows(g, done, q, Min(p, |q|));
    if p >= |q| {
      TakeAll(q);
    }
  }

  /** Later, the queue is the waiting packages, turned. */
  lemma QueueTurned(
    g: Dependencies, done: set<string>, q: seq<string>, p: nat, next: seq<string>, queue: seq<string>, runs: nat)
    requires InRound(g, done, q, p, next, queue, runs) && p >= |q| && next != []
    ensures var waiting, k := Waiting(g, done, q), p - |q|;
            k <= |waiting| && queue == waiting[k..] + waiting[..k]
  {
    CounterRound(g, done, q, p, next, queue, runs);
    TakeAll(q);
  }

  /** What is popped then is waiting. */
  lemma PopAgain(
    g: Dependencies, done: set<string>, q: seq<string>, p: nat, next: seq<string>, queue: seq<string>, runs: nat)
    requires InRound(g, done, q, p, next, queue, runs) && p >= |q| && next != [] && queue != []
    requires runs != |queue|
    ensures !IsReady(g, done, queue[0])
    ensures InRound(g, done, q, p + 1, next, queue[1..] + [queue[0]], runs + 1)
  {
    QueueTurned(g, done, q, p, next, queue, runs);
    CounterRound(g, done, q, p, next, queue, runs);
    TakeAll(q);
    TurnOn(Waiting(g, done, q), p - |q|, queue);
    ReadyMember(g, done, q, queue[0]);
    TurnedOnce(g, done, q, p, next, queue[1..] + [queue[0]], runs);
  }

  lemma TurnedOnce(
    g: Dependencies, done: set<string>, q: seq<string>, p: nat, next: seq<string>, turned: seq<string>, runs: nat)
    requires p >= |q| && next != [] && next == Ready(g, done, q) && p == UpToReady(g, done, q) + runs
    requires p < RoundLength(g, done, q) && p + 1 - |q| <= |Waiting(g, done, q)|
    requires var waiting := Waiting(g, done, q); turned == waiting[p + 1 - |q|..] + waiting[..p + 1 - |q|]
    ensures InRound(g, done, q, p + 1, next, turned, runs + 1)
  {
    TakeAll(q);
  }

  /** One package popped, ready or not. */
  lemma Pop(
    g: Dependencies, done: set<string>, q: seq<string>, p: nat, next: seq<string>, queue: seq<string>, runs: nat)
    requires InRound(g, done, q, p, next, queue, runs) && queue != []
    requires next != [] ==> runs != |queue|
    requires runs < 10 * |queue|
    requires p >= |q| && next == [] ==> !IsReady(g, done, queue[0])
    ensures if IsReady(g, done, queue[0]) then InRound(g, done, q, p + 1, next + [queue[0]], queue[1..], 0)
            else InRound(g, done, q, p + 1, next, queue[1..] + [queue[0]], runs + 1)
  {
    if p < |q| {
      PopFirst(g, done, q, p, next, queue, runs);
    } else if next != [] {
      PopAgain(g, done, q, p, next, queue, runs);
    }
  }

  // ----- the round in the run

  /** Cut short, the run delivers what is pending. */
  lemma Interrupted(
    g: Dependencies, order: seq<seq<string>>, done: set<string>, q: seq<string>, p: nat, next: seq<string>,
    queue: seq<string>, runs: nat)
    requires InRound(g, done, q, p, next, queue, runs)
    ensures RunFor(g, order, done, q, p) == Layering(order, next)
    ensures p <= WholeRun(g, done, q)
  {
    if next != [] {
      CounterRound(g, done, q, p, next, queue, runs);
    } else if p >= |q| {
      TakeAll(q);
    }
  }

  /** The next round begins. */
  lemma RoundOver(
    g: Dependencies, order: seq<seq<string>>, done: set<string>, q: seq<string>, p: nat, next: seq<string>,
    queue: seq<string>, runs: nat, m: nat)
    requires InRound(g, done, q, p, next, queue, runs) && next != [] && queue != [] && runs == |queue| && m > 0
    ensures queue == NextQueue(g, done, q)
    ensures RunFor(g, order, done, q, p + m) == RunFor(g, order + [InNameOrder(next)], done + Elements(next), queue, m)
    ensures WholeRun(g, done, q) == p + WholeRun(g, done + Elements(next), queue)
    ensures GivesUp(g, done, q) <==> GivesUp(g, done + Elements(next), queue)
  {
    CounterRound(g, done, q, p, next, queue, runs);
    BehindReady(g, done, q);
    var l := UpToReady(g, done, q);
    var passed, waiting, k := Waiting(g, done, q[..l]), Waiting(g, done, q), p - |q|;
    TakeAll(q);
    assert k == |passed|;
    assert waiting[..k] == passed && waiting[k..] == q[l..];
    assert queue == waiting[k..] + waiting[..k];
  }

  /** With nothing queued, the run is complete. */
  lemma EndOfRun(
    g: Dependencies, done: set<string>, q: seq<string>, p: nat, next: seq<string>, queue: seq<string>, runs: nat)
    requires InRound(g, done, q, p, next, queue, runs) && queue == []
    ensures p == WholeRun(g, done, q) && !GivesUp(g, done, q)
  {
    TakeAll(q);
    if next != [] {
      CounterRound(g, done, q, p, next, queue, runs);
    }
  }

  /** After ten rounds without a ready package it has failed. */
  lemma GaveUp(
    g: Dependencies, done: set<string>, q: seq<string>, p: nat, next: seq<string>, queue: seq<string>, runs: nat)
    requires InRound(g, done, q, p, next, queue, runs) && queue != [] && next == [] && runs >= 10 * |queue|
    ensures p == WholeRun(g, done, q) && GivesUp(g, done, q)
  {
    TakeAll(q);
  }

  // ----- rounds, one after another

  /** After iters iterations, of which p in the round of q: running on for n in all
      is running on from order and q. */
  ghost predicate Along(
    g: Dependencies, first: seq<string>, waiting: seq<string>, n: nat, iters: nat, order: seq<seq<string>>,
    done: set<string>, q: seq<string>, p: nat)
  {
    && p <= iters <= n
    && WholeRun(g, Elements(first), waiting) == iters - p + WholeRun(g, done, q)
    && (GivesUp(g, Elements(first), waiting) <==> GivesUp(g, done, q))
    && RunFor(g, [first], Elements(first), waiting, n) == RunFor(g, order, done, q, n - (iters - p))
  }

  lemma AlongFlush(
    g: Dependencies, first: seq<string>, waiting: seq<string>, n: nat, iters: nat, order: seq<seq<string>>,
    done: set<string>, q: seq<string>, p: nat, next: seq<string>, queue: seq<string>, runs: nat)
    requires Along(g, first, waiting, n, iters, order, done, q, p) && iters < n
    requires InRound(g, done, q, p, next, queue, runs) && next != [] && queue != [] && runs == |queue|
    ensures Along(g, first, waiting, n, iters, order + [InNameOrder(next)], done + Elements(next), queue, 0)
    ensures InRound(g, done + Elements(next), queue, 0, [], queue, 0)
  {
    RoundOver(g, order, done, q, p, next, queue, runs, n - iters);
    Beginning(g, done + Elements(next), queue);
  }

  /** What is delivered when the run is cut after p packages of a round. */
  lemma AlongDelivers(
    g: Dependencies, first: seq<string>, waiting: seq<string>, n: nat, order: seq<seq<string>>, done: set<string>,
    q: seq<string>, p: nat, next: seq<string>, queue: seq<string>, runs: nat)
    requires Along(g, first, waiting, n, n, order, done, q, p)
    requires InRound(g, done, q, p, next, queue, runs)
    ensures RunFor(g, [first], Elements(first), waiting, n) == Layering(order, next)
    ensures n <= WholeRun(g, Elements(first), waiting)
  {
    Interrupted(g, order, done, q, p, next, queue, runs);
  }

  /** A run with nothing left that could be built gives up after ten times round. */
  lemma {:induction false} TenTimesRound(g: Dependencies, done: set<string>, q: seq<string>)
    requires q != [] && forall x | x in q :: x in g && !(g[x] <= done)
    ensures WholeRun(g, done, q) == 10 * |q| && GivesUp(g, done, q)
  {
    var ready := Ready(g, done, q);
    if ready != [] {
      ReadyMember(g, done, q, ready[0]);
    }
  }

  // ----- the first round

  /** Cut within the first time round the queue, the run delivers the bottom group
      and those of the packages it came to whose dependencies are all in it. */
  lemma CutEarly(g: Dependencies, first: seq<string>, waiting: seq<string>, n: nat)
    requires n <= |waiting|
    ensures RunFor(g, [first], Elements(first), waiting, n) == Layering([first], Ready(g, Elements(first), waiting[..n]))
    ensures forall x :: x in Ready(g, Elements(first), waiting[..n]) <==>
                        x in waiting[..n] && x in g && g[x] <= Elements(first)
  {
    forall x ensures x in Ready(g, Elements(first), waiting[..n]) <==>
                     x in waiting[..n] && x in g && g[x] <= Elements(first)
    {
      ReadyMember(g, Elements(first), waiting[..n], x);
    }
  }
}
