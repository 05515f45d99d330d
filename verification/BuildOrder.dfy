/** The layered build order of a Go module's packages
    (tools/gadget/gendget.go), with the two package indexes it reads
    (tools/gadget/daggen.go). */
module BuildOrders {
  import opened Prelude
  import opened Ordering
  import opened Rounds

  datatype PackageInfo = PackageInfo(
    moduleName: string, packageName: string, localDirectory: string, dependencies: seq<string>)

  type Packages = seq<PackageInfo>

  datatype BuildOrder = BuildOrder(order: seq<seq<string>>, packages: Packages, path: string)

  datatype BuildError = NoModules | IrresolvableDependency

  /** Package collection keys its result by name, so names are distinct. */
  ghost predicate DistinctNames(pkgs: Packages) {
    forall i, j | 0 <= i < j < |pkgs| :: pkgs[i].packageName != pkgs[j].packageName
  }

  ghost function Names(pkgs: Packages): seq<string> {
    seq(|pkgs|, i requires 0 <= i < |pkgs| => pkgs[i].packageName)
  }

  ghost function DependenciesOf(pkgs: Packages): Dependencies
    requires DistinctNames(pkgs)
  {
    map i | 0 <= i < |pkgs| :: pkgs[i].packageName := Elements(pkgs[i].dependencies)
  }

  // ----- what a layering is

  ghost function Members(order: seq<seq<string>>): set<string> {
    Elements(Flat(order))
  }

  /** The packages in groups below k. */
  ghost function Below(order: seq<seq<string>>, k: nat): set<string>
    requires k <= |order|
  {
    Members(order[..k])
  }

  /** Every member of group k has its dependencies below k and, above the
      bottom group, not all of them below k - 1. */
  ghost predicate Placed(g: Dependencies, order: seq<seq<string>>, k: nat)
    requires k < |order|
  {
    forall x | x in order[k] ::
      x in g && g[x] <= Below(order, k) && (k > 0 ==> !(g[x] <= Below(order, k - 1)))
  }

  /** Group k holds every package that could be built once the groups below
      it are. */
  ghost predicate Saturated(g: Dependencies, order: seq<seq<string>>, k: nat)
    requires k < |order|
  {
    forall x | x in g && g[x] <= Below(order, k) :: x in Below(order, k + 1)
  }

  ghost predicate FinishedGroup(g: Dependencies, order: seq<seq<string>>, k: nat)
    requires k < |order|
  {
    && Placed(g, order, k)
    && Saturated(g, order, k)
    && Sorted(CompareString, order[k])
    && (k > 0 ==> order[k] != [])
  }

  /** All groups are finished. */
  ghost predicate Finished(g: Dependencies, order: seq<seq<string>>) {
    order != [] && forall k | 0 <= k < |order| :: FinishedGroup(g, order, k)
  }

  /** All groups are finished, except that the last one may be unsorted and,
      if the run was cut short, incomplete. */
  ghost predicate Layered(g: Dependencies, order: seq<seq<string>>) {
    && order != []
    && Placed(g, order, |order| - 1)
    && (|order| > 1 ==> order[|order| - 1] != [])
    && (forall k | 0 <= k < |order| - 1 :: FinishedGroup(g, order, k))
    && multiset(Flat(order)) <= multiset(g.Keys)
  }

  /** Every package is in exactly one group, once. */
  ghost predicate Complete(g: Dependencies, order: seq<seq<string>>) {
    multiset(Flat(order)) == multiset(g.Keys)
  }

  /** Some packages can never be built: each depends on one of them or on a
      package that is not there. */
  ghost predicate IsObstruction(g: Dependencies, s: set<string>) {
    s != {} && s <= g.Keys && forall x | x in s :: exists d :: d in g[x] && (d in s || d !in g)
  }

  ghost predicate Obstructed(g: Dependencies) {
    exists s :: IsObstruction(g, s)
  }

  // ----- the two package indexes

  method IndexByPackageName(pkgs: Packages) returns (out: map<string, PackageInfo>)
    ensures out.Keys == Elements(Names(pkgs))
    ensures forall i | 0 <= i < |pkgs| :: pkgs[i].packageName in out
    ensures forall i | 0 <= i < |pkgs| && (forall j | i < j < |pkgs| :: pkgs[j].packageName != pkgs[i].packageName) ::
              out[pkgs[i].packageName] == pkgs[i]
  {
    out := map[];
    for idx := 0 to |pkgs|
      invariant forall n :: n in out <==> exists i | 0 <= i < idx :: pkgs[i].packageName == n
      invariant forall i | 0 <= i < idx && (forall j | i < j < idx :: pkgs[j].packageName != pkgs[i].packageName) ::
                  out[pkgs[i].packageName] == pkgs[i]
    {
      out := out[pkgs[idx].packageName := pkgs[idx]];
    }
    forall n ensures n in out <==> n in Elements(Names(pkgs)) {
      assert forall i | 0 <= i < |pkgs| :: Names(pkgs)[i] == pkgs[i].packageName;
    }
  }

  method Graph(pkgs: Packages) returns (nodes: seq<(string, seq<string>)>)
    ensures |nodes| == |pkgs|
    ensures forall i | 0 <= i < |pkgs| :: nodes[i] == (pkgs[i].packageName, pkgs[i].dependencies)
  {
    nodes := [];
    for idx := 0 to |pkgs|
      invariant |nodes| == idx
      invariant forall i | 0 <= i < idx :: nodes[i] == (pkgs[i].packageName, pkgs[i].dependencies)
    {
      nodes := nodes + [(pkgs[idx].packageName, pkgs[idx].dependencies)];
    }
  }

  lemma NamesAreKeys(pkgs: Packages)
    requires DistinctNames(pkgs)
    ensures multiset(Names(pkgs)) == multiset(DependenciesOf(pkgs).Keys)
    ensures |DependenciesOf(pkgs)| == |pkgs|
  {
    var g, names := DependenciesOf(pkgs), Names(pkgs);
    assert NoDuplicates(names);
    assert g.Keys == Elements(names) by {
      forall n | n in g ensures n in names {
        var i :| 0 <= i < |pkgs| && pkgs[i].packageName == n;
        assert names[i] == n;
      }
    }
    forall n ensures multiset(names)[n] == multiset(g.Keys)[n] {
      if n in names {
        NoDuplicatesCount(names, n);
        var i :| 0 <= i < |names| && names[i] == n;
        assert n == pkgs[i].packageName;
      }
    }
    NoDuplicatesCardinality(names, g.Keys);
  }

  // ----- the state of the layering loop

  /** x cannot be built from the packages in done. */
  ghost predicate Blocked(g: Dependencies, x: string, done: set<string>) {
    x in g && !(g[x] <= done)
  }

  /** What every iteration keeps. The counter's meaning is the last clause: the
      last min(runs, |queue|) packages in the queue are blocked. */
  ghost predicate LoopInvariant(
    g: Dependencies, order: seq<seq<string>>, seen: set<string>, next: seq<string>, queue: seq<string>, runs: nat)
  {
    && Finished(g, order)
    && seen == Members(order)
    && multiset(Flat(order)) + multiset(next) + multiset(queue) == multiset(g.Keys)
    && (forall x | x in next :: x in g && g[x] <= seen)
    && (forall x | x in next + queue :: Blocked(g, x, Below(order, |order| - 1)))
    && (next != [] ==> runs <= |queue|)
    && (forall i | |queue| - Min(runs, |queue|) <= i < |queue| :: Blocked(g, queue[i], seen))
  }

  lemma BelowExtended(order: seq<seq<string>>, group: seq<string>, k: nat)
    requires k <= |order|
    ensures Below(order + [group], k) == Below(order, k)
    ensures Below(order + [group], |order| + 1) == Members(order) + Elements(group)
    ensures Flat(order + [group]) == Flat(order) + group
  {
    BelowSame(order, group, k);
    FlatSnoc(order, group);
    ElementsConcat(Flat(order), group);
    TakeAll(order + [group]);
  }

  lemma BelowSame(order: seq<seq<string>>, group: seq<string>, k: nat)
    requires k <= |order|
    ensures Below(order + [group], k) == Below(order, k)
  {
    assert (order + [group])[..k] == order[..k];
  }

  lemma FinishedExtended(g: Dependencies, order: seq<seq<string>>, group: seq<string>, k: nat)
    requires k < |order| && FinishedGroup(g, order, k)
    ensures FinishedGroup(g, order + [group], k)
  {
    BelowExtended(order, group, k);
    if k > 0 { BelowExtended(order, group, k - 1); }
    BelowExtended(order, group, k + 1);
  }

  /** Where a package is, by counting. */
  lemma Somewhere(g: Dependencies, order: seq<seq<string>>, next: seq<string>, queue: seq<string>, x: string)
    requires multiset(Flat(order)) + multiset(next) + multiset(queue) == multiset(g.Keys)
    ensures x in g <==> x in Flat(order) || x in next || x in queue
    ensures x in next || x in queue ==> x !in Flat(order)
  {
    assert x in g <==> x in multiset(g.Keys);
    assert x in Flat(order) <==> x in multiset(Flat(order));
    assert x in next <==> x in multiset(next);
    assert x in queue <==> x in multiset(queue);
    assert multiset(g.Keys)[x] <= 1;
  }

  /** The package at the front of the queue is known and not yet built. */
  lemma Queued0(
    g: Dependencies, order: seq<seq<string>>, seen: set<string>, next: seq<string>, queue: seq<string>, runs: nat)
    requires LoopInvariant(g, order, seen, next, queue, runs) && queue != []
    ensures queue[0] in g && queue[0] !in seen
  {
    assert queue[0] in queue;
    Somewhere(g, order, next, queue, queue[0]);
  }

  /** Appending a pending group places it. */
  lemma AppendPlaced(g: Dependencies, order: seq<seq<string>>, group: seq<string>)
    requires Finished(g, order)
    requires forall x | x in group :: x in g && g[x] <= Members(order)
    requires forall x | x in group :: Blocked(g, x, Below(order, |order| - 1))
    ensures forall k | 0 <= k < |order| :: FinishedGroup(g, order + [group], k)
    ensures Placed(g, order + [group], |order|)
    ensures Flat(order + [group]) == Flat(order) + group
  {
    forall k | 0 <= k < |order| ensures FinishedGroup(g, order + [group], k) {
      FinishedExtended(g, order, group, k);
    }
    BelowExtended(order, group, |order|);
    BelowExtended(order, group, |order| - 1);
    assert order[..|order|] == order;
  }

  /** The counter has come round: every queued package is blocked, so the
      pending group is complete and can be flushed. */
  lemma Flush(
    g: Dependencies, order: seq<seq<string>>, seen: set<string>, next: seq<string>, queue: seq<string>, runs: nat,
    group: seq<string>)
    requires LoopInvariant(g, order, seen, next, queue, runs)
    requires runs == |queue| && next != []
    requires multiset(group) == multiset(next) && Sorted(CompareString, group)
    ensures LoopInvariant(g, order + [group], seen + Elements(group), [], queue, 0)
  {
    SameElements(next, group);
    forall x | x in group ensures x in next {
      assert x in Elements(group);
    }
    forall x | x in group ensures Blocked(g, x, Below(order, |order| - 1)) {
      assert x in next + queue;
    }
    AppendPlaced(g, order, group);
    BelowExtended(order, group, |order|);
    var order' := order + [group];
    assert order[..|order|] == order && order'[..|order'|] == order';
    forall x | x in queue ensures Blocked(g, x, seen) {
      var i :| 0 <= i < |queue| && queue[i] == x;
    }
    forall x | x in g && g[x] <= Below(order', |order|) ensures x in Below(order', |order| + 1) {
      Somewhere(g, order, next, queue, x);
      if x in next {
        assert x in Elements(next);
      }
    }
    assert |group| == |next|;
    assert FinishedGroup(g, order', |order|);
  }

  /** The popped package is ready: it joins the pending group. */
  lemma Advance(
    g: Dependencies, order: seq<seq<string>>, seen: set<string>, next: seq<string>, queue: seq<string>, runs: nat)
    requires LoopInvariant(g, order, seen, next, queue, runs)
    requires queue != [] && !Blocked(g, queue[0], seen)
    ensures queue[0] in g
    ensures LoopInvariant(g, order, seen, next + [queue[0]], queue[1..], 0)
  {
    var x := queue[0];
    assert x in queue;
    Somewhere(g, order, next, queue, x);
    assert queue == [x] + queue[1..];
    assert forall y | y in (next + [x]) + queue[1..] :: y in next + queue;
  }

  /** The popped package is blocked: it goes to the back of the queue. */
  lemma Block(
    g: Dependencies, order: seq<seq<string>>, seen: set<string>, next: seq<string>, queue: seq<string>, runs: nat)
    requires LoopInvariant(g, order, seen, next, queue, runs)
    requires queue != [] && Blocked(g, queue[0], seen)
    requires next != [] ==> runs < |queue|
    ensures LoopInvariant(g, order, seen, next, queue[1..] + [queue[0]], runs + 1)
  {
    var x, queue' := queue[0], queue[1..] + [queue[0]];
    assert queue == [x] + queue[1..];
    assert forall y | y in next + queue' :: y in next + queue;
    forall i | |queue'| - Min(runs + 1, |queue'|) <= i < |queue'| ensures Blocked(g, queue'[i], seen) {
      if i < |queue| - 1 {
        assert queue'[i] == queue[i + 1];
      }
    }
  }

  /** A full round without progress and nothing pending: the queue itself is
      the obstruction. */
  lemma Stuck(
    g: Dependencies, order: seq<seq<string>>, seen: set<string>, next: seq<string>, queue: seq<string>, runs: nat)
    requires LoopInvariant(g, order, seen, next, queue, runs)
    requires queue != [] && runs >= 10 * |queue|
    ensures next == []
    ensures Obstructed(g)
  {
    var s := Elements(queue);
    assert queue[0] in s;
    forall x | x in s
      ensures x in g && exists d :: d in g[x] && (d in s || d !in g)
    {
      var i :| 0 <= i < |queue| && queue[i] == x;
      assert Blocked(g, x, seen);
      var d :| d in g[x] && d !in seen;
      Somewhere(g, order, next, queue, d);
    }
    assert IsObstruction(g, s);
  }

  /** When everything counted as seen is everything there is, nothing is
      queued. */
  lemma AllSeen(g: Dependencies, order: seq<seq<string>>, seen: set<string>, next: seq<string>, queue: seq<string>)
    requires multiset(Flat(order)) + multiset(next) + multiset(queue) == multiset(g.Keys)
    requires seen == Members(order) && |seen| >= |g|
    ensures next == [] && queue == []
  {
    SetOfSeqCardinality(Flat(order), seen);
    assert |multiset(Flat(order)) + multiset(next) + multiset(queue)| == |Flat(order)| + |next| + |queue|;
    assert |multiset(g.Keys)| == |g.Keys| == |g|;
  }

  /** The loop's exit: the pending group, if any, goes last and unsorted. */
  lemma Deliver(
    g: Dependencies, order: seq<seq<string>>, seen: set<string>, next: seq<string>, queue: seq<string>, runs: nat)
    requires LoopInvariant(g, order, seen, next, queue, runs)
    ensures var result := if next != [] then order + [next] else order;
            Layered(g, result) && (queue == [] ==> Complete(g, result))
  {
    forall x | x in next ensures Blocked(g, x, Below(order, |order| - 1)) {
      assert x in next + queue;
    }
    if next == [] {
      assert FinishedGroup(g, order, |order| - 1);
    } else {
      AppendPlaced(g, order, next);
    }
  }

  /** The packages without dependencies, sorted, and the others. */
  ghost predicate IsBottom(g: Dependencies, group: seq<string>, queue: seq<string>) {
    && multiset(group) + multiset(queue) == multiset(g.Keys)
    && Sorted(CompareString, group)
    && (forall x | x in group :: x in g && g[x] == {})
    && (forall x | x in queue :: x in g && g[x] != {})
  }

  /** The packages without dependencies make the bottom group. */
  lemma FirstGroup(g: Dependencies, group: seq<string>, queue: seq<string>)
    requires IsBottom(g, group, queue)
    ensures LoopInvariant(g, [group], Elements(group), [], queue, 0)
  {
    var order := [group];
    assert order[..0] == [] && order[..1] == order;
    BelowExtended([], group, 0);
    assert [] + [group] == order;
    forall x | x in g && g[x] <= Below(order, 0) ensures x in Below(order, 1) {
      assert x in multiset(g.Keys);
      assert x in multiset(group) || x in multiset(queue);
    }
    assert FinishedGroup(g, order, 0);
  }

  ghost function Triangle(n: nat): nat {
    if n == 0 then 0 else n + Triangle(n - 1)
  }

  lemma {:induction false} TriangleClosed(n: nat)
    ensures 2 * Triangle(n) == n * (n + 1)
  {
    if n > 0 { TriangleClosed(n - 1); }
  }

  /** The most iterations that n packages with dependencies take. */
  ghost function MostIterations(n: nat): int {
    11 * (n * (n + 1) / 2) - n + 1
  }

  lemma MostIsTriangle(n: nat)
    ensures MostIterations(n) == 11 * Triangle(n) - n + 1
  {
    TriangleClosed(n);
  }

  /** Each round has at least one package fewer in its queue. */
  lemma {:induction false} WholeRunBound(g: Dependencies, done: set<string>, q: seq<string>)
    ensures WholeRun(g, done, q) <= 11 * Triangle(|q|) - |q|
    decreases |q|
  {
    TriangleGrows(|q|, |q|);
    var ready := Ready(g, done, q);
    if ready != [] && Waiting(g, done, q) != [] {
      NextQueueLength(g, done, q);
      WholeRunBound(g, done + Elements(ready), NextQueue(g, done, q));
      LessToDo(|Waiting(g, done, q)|, |q|);
    }
  }

  lemma LessToDo(m: nat, n: nat)
    requires m < n
    ensures n + 11 * Triangle(m) <= 11 * Triangle(n) - n
  {
    TriangleGrows(m, n - 1);
  }

  lemma {:induction false} TriangleGrows(m: nat, n: nat)
    requires m <= n
    ensures m <= Triangle(m) <= Triangle(n)
  {
    if m < n {
      TriangleGrows(m, n - 1);
    } else if m > 0 {
      TriangleGrows(m - 1, n - 1);
    }
  }

  /** The packages that have dependencies, and so are queued. */
  ghost function Queued(pkgs: Packages): seq<PackageInfo> {
    Filter((p: PackageInfo) => p.dependencies != [], pkgs)
  }

  /** The names of the packages without dependencies, or of those with some, in
      input order. */
  ghost function NamesWhere(pkgs: Packages, bare: bool): seq<string> {
    if pkgs == [] then []
    else
      var last := pkgs[|pkgs| - 1];
      NamesWhere(pkgs[..|pkgs| - 1], bare) + if (last.dependencies == []) == bare then [last.packageName] else []
  }

  ghost predicate DependsOn(index: map<string, PackageInfo>, g: Dependencies, n: string)
    requires n in index && n in g
  {
    Elements(index[n].dependencies) == g[n]
  }

  /** The index says of each package what it depends on. */
  ghost predicate Describes(index: map<string, PackageInfo>, g: Dependencies) {
    index.Keys == g.Keys && forall n | n in index :: DependsOn(index, g, n)
  }

  lemma IndexAgrees(pkgs: Packages, index: map<string, PackageInfo>)
    requires DistinctNames(pkgs)
    requires index.Keys == Elements(Names(pkgs))
    requires forall i | 0 <= i < |pkgs| :: pkgs[i].packageName in index && index[pkgs[i].packageName] == pkgs[i]
    ensures Describes(index, DependenciesOf(pkgs))
  {
    assert forall i | 0 <= i < |pkgs| :: Names(pkgs)[i] == pkgs[i].packageName;
  }

  /** The packages without dependencies, sorted, and the others, in input
      order. */
  method SplitReady(pkgs: Packages, index: map<string, PackageInfo>, nodes: seq<(string, seq<string>)>)
    returns (next: seq<string>, queue: seq<string>)
    requires DistinctNames(pkgs)
    requires |nodes| == |pkgs|
    requires forall i | 0 <= i < |pkgs| :: nodes[i] == (pkgs[i].packageName, pkgs[i].dependencies)
    requires forall i | 0 <= i < |pkgs| :: pkgs[i].packageName in index && index[pkgs[i].packageName] == pkgs[i]
    ensures multiset(next) + multiset(queue) == multiset(Names(pkgs))
    ensures forall x | x in next :: x in DependenciesOf(pkgs) && DependenciesOf(pkgs)[x] == {}
    ensures forall x | x in queue :: x in DependenciesOf(pkgs) && DependenciesOf(pkgs)[x] != {}
    ensures next == NamesWhere(pkgs, true) && queue == NamesWhere(pkgs, false)
    ensures |queue| == |Queued(pkgs)|
  {
    next, queue := [], [];
    for k := 0 to |nodes|
      invariant next == NamesWhere(pkgs[..k], true) && queue == NamesWhere(pkgs[..k], false)
    {
      var (node, edges) := nodes[k];
      var info := index[node];
      NamesStep(pkgs, k, true);
      NamesStep(pkgs, k, false);
      if |edges| == 0 && |info.dependencies| == 0 {
        next := next + [node];
      } else {
        queue := queue + [node];
      }
    }
    TakeAll(pkgs);
    NamesCounted(pkgs);
    QueuedNames(pkgs);
    NamesParted(pkgs, true);
    NamesParted(pkgs, false);
  }

  lemma NamesStep(pkgs: Packages, k: nat, bare: bool)
    requires k < |pkgs|
    ensures NamesWhere(pkgs[..k + 1], bare) ==
            NamesWhere(pkgs[..k], bare) + if (pkgs[k].dependencies == []) == bare then [pkgs[k].packageName] else []
  {
    assert pkgs[..k + 1][..k] == pkgs[..k];
  }

  /** Every package is on one of the two sides. */
  lemma {:induction false} NamesCounted(pkgs: Packages)
    ensures multiset(NamesWhere(pkgs, true)) + multiset(NamesWhere(pkgs, false)) == multiset(Names(pkgs))
  {
    if pkgs != [] {
      var init, name := pkgs[..|pkgs| - 1], pkgs[|pkgs| - 1].packageName;
      NamesCounted(init);
      assert Names(pkgs) == Names(init) + [name];
      SnocCount(NamesWhere(init, true), name);
      SnocCount(NamesWhere(init, false), name);
      SnocCount(Names(init), name);
    }
  }

  lemma NamesParted(pkgs: Packages, bare: bool)
    requires DistinctNames(pkgs)
    ensures forall x | x in NamesWhere(pkgs, bare) :: x in DependenciesOf(pkgs) && (DependenciesOf(pkgs)[x] == {}) == bare
  {
    forall x | x in NamesWhere(pkgs, bare)
      ensures x in DependenciesOf(pkgs) && (DependenciesOf(pkgs)[x] == {}) == bare
    {
      var k := NameWhere(pkgs, bare, x);
      DependenciesAt(pkgs, k);
    }
  }

  lemma {:induction false} NameWhere(pkgs: Packages, bare: bool, x: string) returns (k: nat)
    requires x in NamesWhere(pkgs, bare)
    ensures k < |pkgs| && pkgs[k].packageName == x && (pkgs[k].dependencies == []) == bare
  {
    k := |pkgs| - 1;
    if x in NamesWhere(pkgs[..k], bare) {
      k := NameWhere(pkgs[..k], bare, x);
    }
  }

  lemma DependenciesAt(pkgs: Packages, k: nat)
    requires DistinctNames(pkgs) && k < |pkgs|
    ensures pkgs[k].packageName in DependenciesOf(pkgs)
    ensures DependenciesOf(pkgs)[pkgs[k].packageName] == {} <==> pkgs[k].dependencies == []
  {
    if pkgs[k].dependencies != [] {
      assert pkgs[k].dependencies[0] in Elements(pkgs[k].dependencies);
    }
  }

  lemma QueuedStep(pkgs: Packages, k: nat)
    requires k < |pkgs|
    ensures |Queued(pkgs[..k + 1])| == |Queued(pkgs[..k])| + if pkgs[k].dependencies == [] then 0 else 1
  {
    FilterOneMore((p: PackageInfo) => p.dependencies != [], pkgs, k);
  }

  method AddAll(seen: set<string>, group: seq<string>) returns (r: set<string>)
    ensures r == seen + Elements(group)
  {
    r := seen;
    for k := 0 to |group|
      invariant r == seen + Elements(group[..k])
    {
      r := r + {group[k]};
    }
    assert group[..|group|] == group;
  }

  method SomeMissing(dependencies: seq<string>, seen: set<string>) returns (missing: bool)
    ensures missing <==> !(Elements(dependencies) <= seen)
  {
    for k := 0 to |dependencies|
      invariant forall j | 0 <= j < k :: dependencies[j] in seen
    {
      if dependencies[k] !in seen {
        assert dependencies[k] in Elements(dependencies);
        return true;
      }
    }
    return false;
  }

  /** The layering loop: None when it gives up. The pending group is returned
      beside the finished ones. */
  method LayeringLoop(
    index: map<string, PackageInfo>, ghost g: Dependencies, first: seq<string>, waiting: seq<string>, total: nat,
    ctxErr: nat -> bool, ghost cut: nat)
    returns (r: Option<Layering>, iters: nat)
    requires Describes(index, g) && |g| == total > 0
    requires IsBottom(g, first, waiting)
    requires FailsFirstAt(ctxErr, cut, WholeRun(g, Elements(first), waiting) + 1)
    ensures iters == Iterations(g, first, waiting, cut) && r == LoopResult(g, first, waiting, cut)
  {
    var seen := AddAll({}, first);
    var buildOrder := [first];
    var next: seq<string> := [];
    var queue := waiting;
    var runsSinceProgress: nat := 0;
    iters := 0;
    ghost var trace := Begins(g, first, waiting);
    while true
      invariant IsTrace(g, first, waiting, trace) && |trace| == iters + 1
      invariant LastOf(trace) == Loop(buildOrder, seen, next, queue, runsSinceProgress)
      invariant iters < cut
      decreases WholeRun(g, Elements(first), waiting) + 1 - iters
    {
      Where(g, first, waiting, trace);
      iters := iters + 1;
      if total == 0 || |seen| >= total || |queue| == 0 || ctxErr(iters) {
        r := Some(Layering(buildOrder, next));
        Delivers(g, first, waiting, cut, trace, r);
        return r, iters;
      }
      if runsSinceProgress == |queue| && |next| > 0 {
        buildOrder, seen := FlushNext(buildOrder, seen, next);
        next := [];
        runsSinceProgress := 0;
      }
      ghost var f := Loop(buildOrder, seen, next, queue, runsSinceProgress);
      assert f == Flushed(LastOf(trace));
      if runsSinceProgress >= |queue| * 10 {
        r := None;
        Fails(g, first, waiting, cut, trace, r);
        return r, iters;
      }

      next, queue, runsSinceProgress := PopOne(index, g, f, seen, next, queue, runsSinceProgress);
      trace := OneMoreIteration(g, first, waiting, trace, f);
    }
  }

  /** The loop's variables at the beginning, and after each iteration that did not
      end it. */
  ghost predicate IsTrace(g: Dependencies, first: seq<string>, waiting: seq<string>, trace: seq<Loop>) {
    && trace != [] && trace[0] == Loop([first], Elements(first), [], waiting, 0)
    && forall i, j | 0 <= i < j == i + 1 < |trace| :: IsIteration(g, trace[i], trace[j])
  }

  ghost predicate IsIteration(g: Dependencies, k: Loop, l: Loop) {
    k.queue != [] && Flushed(k).runs < 10 * |k.queue| && l == Popped(g, Flushed(k))
  }

  ghost function LastOf(trace: seq<Loop>): Loop
    requires trace != []
  {
    trace[|trace| - 1]
  }

  lemma Begins(g: Dependencies, first: seq<string>, waiting: seq<string>) returns (trace: seq<Loop>)
    ensures trace == [Loop([first], Elements(first), [], waiting, 0)] && IsTrace(g, first, waiting, trace)
  {
    trace := [Loop([first], Elements(first), [], waiting, 0)];
  }

  lemma OneMoreIteration(g: Dependencies, first: seq<string>, waiting: seq<string>, trace: seq<Loop>, f: Loop)
    returns (trace': seq<Loop>)
    requires IsTrace(g, first, waiting, trace)
    requires f == Flushed(LastOf(trace)) && f.queue != [] && f.runs < 10 * |f.queue|
    ensures trace' == trace + [Popped(g, f)] && |trace'| == |trace| + 1 && IsTrace(g, first, waiting, trace')
  {
    trace' := trace + [Popped(g, f)];
    assert IsIteration(g, LastOf(trace), Popped(g, f));
  }

  /** The context has failed when iteration cut reads it, and not before; later than
      the most iterations it may fail or not. */
  ghost predicate FailsFirstAt(ctxErr: nat -> bool, cut: nat, most: nat) {
    cut > 0 && (forall i | 1 <= i < cut :: !ctxErr(i)) && (cut <= most ==> ctxErr(cut))
  }

  lemma {:induction false} SomeFirst(ctxErr: nat -> bool, most: nat) returns (cut: nat)
    ensures FailsFirstAt(ctxErr, cut, most) && cut <= most + 1
  {
    if most == 0 {
      cut := 1;
    } else {
      cut := SomeFirst(ctxErr, most - 1);
      if cut == most && !ctxErr(cut) {
        cut := cut + 1;
      }
    }
  }

  /** The loop ends where the context fails, or else when all is done. */
  ghost function Iterations(g: Dependencies, first: seq<string>, waiting: seq<string>, cut: nat): nat {
    Min(cut, WholeRun(g, Elements(first), waiting) + 1)
  }

  /** It ends with what the rounds come to by then, or with nothing when it gives up
      before the context has failed. */
  ghost function LoopResult(g: Dependencies, first: seq<string>, waiting: seq<string>, cut: nat): Option<Layering>
    requires cut > 0
  {
    if WholeRun(g, Elements(first), waiting) + 1 < cut && GivesUp(g, Elements(first), waiting) then None
    else Some(RunFor(g, [first], Elements(first), waiting, Iterations(g, first, waiting, cut) - 1))
  }

  lemma Delivers(
    g: Dependencies, first: seq<string>, waiting: seq<string>, cut: nat, trace: seq<Loop>, r: Option<Layering>)
    requires IsBottom(g, first, waiting)
    requires IsTrace(g, first, waiting, trace) && |trace| <= cut
    requires (LastOf(trace).queue == [] || |trace| == cut) && r == Some(Layering(LastOf(trace).order, LastOf(trace).next))
    ensures |trace| == Iterations(g, first, waiting, cut) && r == LoopResult(g, first, waiting, cut)
  {
    Stop(g, first, waiting, trace);
  }

  lemma Fails(
    g: Dependencies, first: seq<string>, waiting: seq<string>, cut: nat, trace: seq<Loop>, r: Option<Layering>)
    requires IsBottom(g, first, waiting)
    requires IsTrace(g, first, waiting, trace) && |trace| < cut
    requires var l := LastOf(trace); l.queue != [] && Flushed(l).runs >= 10 * |l.queue| && r.None?
    ensures |trace| == Iterations(g, first, waiting, cut) && r == LoopResult(g, first, waiting, cut)
  {
    Stop(g, first, waiting, trace);
  }

  /** The finished groups and the pending one are as the loop keeps them; if it was
      not cut short, nothing is left over. */
  ghost predicate IsLayering(g: Dependencies, l: Layering, whole: bool) {
    exists seen, queue, runs :: LoopInvariant(g, l.order, seen, l.next, queue, runs) && (whole ==> queue == [])
  }

  /** What the loop ends with is a layering, or there is an obstruction. */
  lemma ResultIsLayering(g: Dependencies, first: seq<string>, waiting: seq<string>, cut: nat)
    requires IsBottom(g, first, waiting) && cut > 0
    ensures match LoopResult(g, first, waiting, cut)
            case Some(l) => IsLayering(g, l, WholeRun(g, Elements(first), waiting) + 1 < cut)
            case None => Obstructed(g)
  {
    var trace := Reaches(g, first, waiting, Iterations(g, first, waiting, cut) - 1);
    Stop(g, first, waiting, trace);
    Kept(g, first, waiting, trace);
    if |trace| == WholeRun(g, Elements(first), waiting) + 1 {
      AtTheEnd(g, first, waiting, trace);
    }
  }

  lemma AtTheEnd(g: Dependencies, first: seq<string>, waiting: seq<string>, trace: seq<Loop>)
    requires IsBottom(g, first, waiting) && IsTrace(g, first, waiting, trace)
    requires |trace| == WholeRun(g, Elements(first), waiting) + 1
    ensures if GivesUp(g, Elements(first), waiting) then Obstructed(g) else LastOf(trace).queue == []
  {
    Stop(g, first, waiting, trace);
    var l := LastOf(trace);
    if l.queue != [] && Flushed(l).runs < 10 * |l.queue| {
      var longer := OneMoreIteration(g, first, waiting, trace, Flushed(l));
      Stop(g, first, waiting, longer);
    }
  }

  /** The loop gets as far as the whole run. */
  lemma {:induction false} Reaches(g: Dependencies, first: seq<string>, waiting: seq<string>, n: nat)
    returns (trace: seq<Loop>)
    requires IsBottom(g, first, waiting) && n <= WholeRun(g, Elements(first), waiting)
    ensures IsTrace(g, first, waiting, trace) && |trace| == n + 1
  {
    if n == 0 {
      trace := Begins(g, first, waiting);
    } else {
      trace := Reaches(g, first, waiting, n - 1);
      Stop(g, first, waiting, trace);
      trace := OneMoreIteration(g, first, waiting, trace, Flushed(LastOf(trace)));
    }
  }

  /** The loop's variables. */
  datatype Loop = Loop(order: seq<seq<string>>, seen: set<string>, next: seq<string>, queue: seq<string>, runs: nat)

  ghost predicate FlushDue(l: Loop) {
    l.runs == |l.queue| && l.next != []
  }

  ghost function Flushed(l: Loop): Loop {
    if FlushDue(l) then Loop(l.order + [InNameOrder(l.next)], l.seen + Elements(l.next), [], l.queue, 0) else l
  }

  ghost function Popped(g: Dependencies, l: Loop): Loop {
    if l.queue == [] then l
    else if IsReady(g, l.seen, l.queue[0]) then l.(next := l.next + [l.queue[0]], queue := l.queue[1..], runs := 0)
    else l.(queue := l.queue[1..] + [l.queue[0]], runs := l.runs + 1)
  }

  /** The pending group, sorted, becomes the next group. */
  method FlushNext(order: seq<seq<string>>, seen: set<string>, next: seq<string>)
    returns (order': seq<seq<string>>, seen': set<string>)
    ensures order' == order + [InNameOrder(next)] && seen' == seen + Elements(next)
  {
    var group := SortStrings(next);
    NameOrderUnique(next, group);
    SameElements(next, group);
    seen' := AddAll(seen, group);
    order' := order + [group];
  }

  /** Pops one package: it joins the pending group if nothing it depends on is
      missing, or else goes to the back of the queue. */
  method PopOne(
    index: map<string, PackageInfo>, ghost g: Dependencies, ghost f: Loop, seen: set<string>, next: seq<string>,
    queue: seq<string>, runs: nat)
    returns (next': seq<string>, queue': seq<string>, runs': nat)
    requires Describes(index, g)
    requires queue != [] && queue[0] in g && queue[0] !in seen
    requires f == Loop(f.order, seen, next, queue, runs)
    ensures Popped(g, f) == Loop(f.order, seen, next', queue', runs')
  {
    var node := queue[0];
    if node in seen {
      // a queued package has not been seen, since names are distinct
      assert false;
    }
    assert DependsOn(index, g, node);
    var missing := SomeMissing(index[node].dependencies, seen);
    if missing {
      return next, queue[1..] + [node], runs + 1;
    }
    return next + [node], queue[1..], 0;
  }

  // ----- the loop runs in rounds

  /** The loop's variables after some iterations on the way to n, p of them in the
      round of q. */
  ghost predicate AtRound(
    g: Dependencies, first: seq<string>, waiting: seq<string>, n: nat, iters: nat, l: Loop, q: seq<string>, p: nat)
  {
    && LoopInvariant(g, l.order, l.seen, l.next, l.queue, l.runs)
    && InRound(g, l.seen, q, p, l.next, l.queue, l.runs)
    && Along(g, first, waiting, n, iters, l.order, l.seen, q, p)
  }

  ghost predicate AtSomeRound(g: Dependencies, first: seq<string>, waiting: seq<string>, n: nat, iters: nat, l: Loop) {
    exists q, p: nat :: AtRound(g, first, waiting, n, iters, l, q, p)
  }

  ghost function LoopAfter(g: Dependencies, first: seq<string>, waiting: seq<string>, n: nat): Loop {
    if n == 0 then Loop([first], Elements(first), [], waiting, 0)
    else Popped(g, Flushed(LoopAfter(g, first, waiting, n - 1)))
  }

  ghost predicate Running(g: Dependencies, first: seq<string>, waiting: seq<string>, n: nat) {
    n > 0 ==>
      && Running(g, first, waiting, n - 1)
      && var l := Flushed(LoopAfter(g, first, waiting, n - 1));
         l.queue != [] && l.runs < 10 * |l.queue|
  }

  lemma {:induction false} TraceIs(g: Dependencies, first: seq<string>, waiting: seq<string>, trace: seq<Loop>, n: nat)
    requires IsTrace(g, first, waiting, trace) && n < |trace|
    ensures Running(g, first, waiting, n) && trace[n] == LoopAfter(g, first, waiting, n)
  {
    if n > 0 {
      TraceIs(g, first, waiting, trace, n - 1);
      assert IsIteration(g, trace[n - 1], trace[n]);
    }
  }

  lemma {:induction false} LoopInRounds(g: Dependencies, first: seq<string>, waiting: seq<string>, n: nat, iters: nat)
    returns (l: Loop)
    requires IsBottom(g, first, waiting)
    requires iters <= n && Running(g, first, waiting, iters)
    ensures l == LoopAfter(g, first, waiting, iters) && AtSomeRound(g, first, waiting, n, iters, l)
    decreases iters
  {
    if iters == 0 {
      l := LoopAfter(g, first, waiting, 0);
      AtFirstRound(g, first, waiting, n, l);
    } else {
      l := LoopInRounds(g, first, waiting, n, iters - 1);
      l := OnePast(g, first, waiting, n, iters - 1, l);
    }
  }

  lemma AtFirstRound(g: Dependencies, first: seq<string>, waiting: seq<string>, n: nat, l: Loop)
    requires IsBottom(g, first, waiting) && l == Loop([first], Elements(first), [], waiting, 0)
    ensures AtSomeRound(g, first, waiting, n, 0, l)
  {
    FirstGroup(g, first, waiting);
    Beginning(g, Elements(first), waiting);
    assert AtRound(g, first, waiting, n, 0, l, waiting, 0);
  }

  lemma OnePast(g: Dependencies, first: seq<string>, waiting: seq<string>, n: nat, iters: nat, l: Loop) returns (l': Loop)
    requires AtSomeRound(g, first, waiting, n, iters, l) && iters < n
    requires l.queue != [] && Flushed(l).runs < 10 * |l.queue|
    ensures l' == Popped(g, Flushed(l)) && AtSomeRound(g, first, waiting, n, iters + 1, l')
  {
    l' := Popped(g, Flushed(l));
    var q, p: nat :| AtRound(g, first, waiting, n, iters, l, q, p);
    if FlushDue(l) {
      FlushRound(g, first, waiting, n, iters, l, q, p);
      PopRound(g, first, waiting, n, iters, Flushed(l), l.queue, 0);
    } else {
      PopRound(g, first, waiting, n, iters, l, q, p);
    }
  }

  lemma FlushRound(
    g: Dependencies, first: seq<string>, waiting: seq<string>, n: nat, iters: nat, l: Loop, q: seq<string>, p: nat)
    requires AtRound(g, first, waiting, n, iters, l, q, p) && iters < n && FlushDue(l) && l.queue != []
    ensures AtRound(g, first, waiting, n, iters, Flushed(l), l.queue, 0)
  {
    FlushInvariant(g, l);
    AlongFlush(g, first, waiting, n, iters, l.order, l.seen, q, p, l.next, l.queue, l.runs);
  }

  lemma FlushInvariant(g: Dependencies, l: Loop)
    requires LoopInvariant(g, l.order, l.seen, l.next, l.queue, l.runs)
    ensures var f := Flushed(l); LoopInvariant(g, f.order, f.seen, f.next, f.queue, f.runs)
  {
    if FlushDue(l) {
      InNameOrderIsSort(l.next);
      SameElements(l.next, InNameOrder(l.next));
      Flush(g, l.order, l.seen, l.next, l.queue, l.runs, InNameOrder(l.next));
    }
  }

  lemma PopRound(
    g: Dependencies, first: seq<string>, waiting: seq<string>, n: nat, iters: nat, l: Loop, q: seq<string>, p: nat)
    requires AtRound(g, first, waiting, n, iters, l, q, p) && iters < n
    requires l.queue != [] && !FlushDue(l) && l.runs < 10 * |l.queue|
    ensures AtRound(g, first, waiting, n, iters + 1, Popped(g, l), q, p + 1)
  {
    PopInvariant(g, l);
    PopInRound(g, l, q, p);
  }

  lemma PopInRound(g: Dependencies, l: Loop, q: seq<string>, p: nat)
    requires LoopInvariant(g, l.order, l.seen, l.next, l.queue, l.runs)
    requires InRound(g, l.seen, q, p, l.next, l.queue, l.runs)
    requires l.queue != [] && !FlushDue(l) && l.runs < 10 * |l.queue|
    ensures var f := Popped(g, l); InRound(g, f.seen, q, p + 1, f.next, f.queue, f.runs)
  {
    if p >= |q| && l.next == [] {
      // once round without anything ready, nothing in the queue is
      assert Blocked(g, l.queue[0], l.seen);
    }
    Pop(g, l.seen, q, p, l.next, l.queue, l.runs);
  }

  lemma PopInvariant(g: Dependencies, l: Loop)
    requires LoopInvariant(g, l.order, l.seen, l.next, l.queue, l.runs) && l.queue != [] && !FlushDue(l)
    ensures var f := Popped(g, l); LoopInvariant(g, f.order, f.seen, f.next, f.queue, f.runs)
  {
    Queued0(g, l.order, l.seen, l.next, l.queue, l.runs);
    if IsReady(g, l.seen, l.queue[0]) {
      Advance(g, l.order, l.seen, l.next, l.queue, l.runs);
    } else {
      Block(g, l.order, l.seen, l.next, l.queue, l.runs);
    }
  }

  /** What the run comes to if it stops here: delivering, because it is cut short or
      nothing is queued, or giving up. */
  lemma Stop(g: Dependencies, first: seq<string>, waiting: seq<string>, trace: seq<Loop>)
    requires IsBottom(g, first, waiting)
    requires IsTrace(g, first, waiting, trace)
    ensures var l, n := LastOf(trace), |trace| - 1;
            RunFor(g, [first], Elements(first), waiting, n) == Layering(l.order, l.next)
    ensures var l, n := LastOf(trace), |trace| - 1;
            var whole, fails := WholeRun(g, Elements(first), waiting), GivesUp(g, Elements(first), waiting);
            && n <= whole
            && (l.queue == [] ==> n == whole && !fails)
            && (l.queue != [] && !FlushDue(l) && l.runs >= 10 * |l.queue| ==> n == whole && fails && Obstructed(g))
  {
    var l, n := LastOf(trace), |trace| - 1;
    var q, p := InSomeRound(g, first, waiting, trace);
    AlongDelivers(g, first, waiting, n, l.order, l.seen, q, p, l.next, l.queue, l.runs);
    if l.queue == [] {
      EndOfRun(g, l.seen, q, p, l.next, l.queue, l.runs);
    } else if !FlushDue(l) && l.runs >= 10 * |l.queue| {
      Stuck(g, l.order, l.seen, l.next, l.queue, l.runs);
      GaveUp(g, l.seen, q, p, l.next, l.queue, l.runs);
    }
  }

  lemma InSomeRound(g: Dependencies, first: seq<string>, waiting: seq<string>, trace: seq<Loop>)
    returns (q: seq<string>, p: nat)
    requires IsBottom(g, first, waiting)
    requires IsTrace(g, first, waiting, trace)
    ensures AtRound(g, first, waiting, |trace| - 1, |trace| - 1, LastOf(trace), q, p)
  {
    TraceIs(g, first, waiting, trace, |trace| - 1);
    var l := LoopInRounds(g, first, waiting, |trace| - 1, |trace| - 1);
    q, p :| AtRound(g, first, waiting, |trace| - 1, |trace| - 1, l, q, p);
  }

  lemma Kept(g: Dependencies, first: seq<string>, waiting: seq<string>, trace: seq<Loop>)
    requires IsBottom(g, first, waiting)
    requires IsTrace(g, first, waiting, trace)
    ensures var l := LastOf(trace); IsLayering(g, Layering(l.order, l.next), l.queue == [])
  {
    var q, p := InSomeRound(g, first, waiting, trace);
  }

  /** What an iteration needs to know: the queue's front is a package not yet seen,
      and when everything has been seen nothing is left. */
  lemma Where(g: Dependencies, first: seq<string>, waiting: seq<string>, trace: seq<Loop>)
    requires IsBottom(g, first, waiting)
    requires IsTrace(g, first, waiting, trace)
    ensures |trace| <= WholeRun(g, Elements(first), waiting) + 1
    ensures var l := LastOf(trace);
            && (|l.seen| >= |g| ==> l.queue == [])
            && (l.queue != [] ==> l.queue[0] in g && l.queue[0] !in Flushed(l).seen)
  {
    Stop(g, first, waiting, trace);
    var q, p := InSomeRound(g, first, waiting, trace);
    Front(g, LastOf(trace));
  }

  lemma Front(g: Dependencies, l: Loop)
    requires LoopInvariant(g, l.order, l.seen, l.next, l.queue, l.runs)
    ensures |l.seen| >= |g| ==> l.queue == []
    ensures l.queue != [] ==> l.queue[0] in g && l.queue[0] !in Flushed(l).seen
  {
    if |l.seen| >= |g| {
      AllSeen(g, l.order, l.seen, l.next, l.queue);
    }
    if l.queue != [] {
      FlushInvariant(g, l);
      var f := Flushed(l);
      Queued0(g, f.order, f.seen, f.next, f.queue, f.runs);
    }
  }

  ghost function Bottom(pkgs: Packages): seq<string> {
    InNameOrder(NamesWhere(pkgs, true))
  }

  ghost function WholeRunOf(pkgs: Packages): nat
    requires DistinctNames(pkgs)
  {
    WholeRun(DependenciesOf(pkgs), Elements(Bottom(pkgs)), NamesWhere(pkgs, false))
  }

  /** The pending group, if there is one, goes last. */
  ghost function Closed(l: Layering): seq<seq<string>> {
    if l.next != [] then l.order + [l.next] else l.order
  }

  /** What n iterations of the rounds deliver for the packages. */
  ghost function DeliveredAfter(pkgs: Packages, n: nat): seq<seq<string>>
    requires DistinctNames(pkgs)
  {
    Closed(RunFor(DependenciesOf(pkgs), [Bottom(pkgs)], Elements(Bottom(pkgs)), NamesWhere(pkgs, false), n))
  }

  /** The run stops at the first iteration that finds the context failed, or else
      when it has done all there is to do, and delivers what the rounds come to by
      then. It fails when it gives up and the context has not failed by then. */
  ghost predicate IsRun(pkgs: Packages, ctxErr: nat -> bool, r: Option<seq<seq<string>>>, iters: nat)
    requires DistinctNames(pkgs)
  {
    && 1 <= iters <= WholeRunOf(pkgs) + 1
    && (forall i | 1 <= i < iters :: !ctxErr(i))
    && (iters <= WholeRunOf(pkgs) ==> ctxErr(iters))
    && (r.None? <==> !ctxErr(iters) && GivesUp(DependenciesOf(pkgs), Elements(Bottom(pkgs)), NamesWhere(pkgs, false)))
    && (r.Some? ==> r.value == DeliveredAfter(pkgs, iters - 1))
  }

  /** GetBuildOrder, given the packages it collected. ctxErr(i) says whether the
      context has failed when iteration i reads it. */
  method GetBuildOrder(path: string, pkgs: Packages, ctxErr: nat -> bool)
    returns (r: Result<BuildOrder, BuildError>, iters: nat)
    requires DistinctNames(pkgs)
    ensures pkgs == [] <==> r == Err(NoModules)
    ensures r == Err(IrresolvableDependency) ==> Obstructed(DependenciesOf(pkgs))
    ensures r.Ok? ==> r.value.packages == pkgs && r.value.path == path
    ensures r.Ok? ==> Layered(DependenciesOf(pkgs), r.value.order)
    ensures r.Ok? ==> Complete(DependenciesOf(pkgs), r.value.order) || ctxErr(iters)
    ensures r.Ok? ==> forall k | 0 <= k < |r.value.order| - 1 :: InDictionaryOrder(r.value.order[k])
    ensures pkgs != [] && (forall i :: !ctxErr(i)) ==> (r.Err? <==> Obstructed(DependenciesOf(pkgs)))
    ensures pkgs != [] ==> IsRun(pkgs, ctxErr, if r.Ok? then Some(r.value.order) else None, iters)
    ensures iters <= MostIterations(|Queued(pkgs)|)
  {
    iters := 0;
    MostIsTriangle(|Queued(pkgs)|);
    if |pkgs| == 0 {
      TriangleGrows(0, |Queued(pkgs)|);
      return Err(NoModules), iters;
    }
    var order;
    order, iters := Layer(pkgs, ctxErr);
    if order.None? {
      return Err(IrresolvableDependency), iters;
    }
    forall k | 0 <= k < |order.value| - 1 {
      FinishedInOrder(DependenciesOf(pkgs), order.value, k);
    }
    return Ok(BuildOrder(order.value, pkgs, path)), iters;
  }

  /** A finished group is in dictionary order. */
  lemma FinishedInOrder(g: Dependencies, order: seq<seq<string>>, k: nat)
    requires k < |order| && FinishedGroup(g, order, k)
    ensures InDictionaryOrder(order[k])
  {
    SortedNames(order[k]);
  }

  /** The layering of some packages. */
  method Layer(pkgs: Packages, ctxErr: nat -> bool) returns (order: Option<seq<seq<string>>>, iters: nat)
    requires DistinctNames(pkgs) && pkgs != []
    ensures order.None? ==> Obstructed(DependenciesOf(pkgs))
    ensures order.Some? ==>
              && Layered(DependenciesOf(pkgs), order.value)
              && (Complete(DependenciesOf(pkgs), order.value) || ctxErr(iters))
              && (Complete(DependenciesOf(pkgs), order.value) ==> !Obstructed(DependenciesOf(pkgs)))
    ensures IsRun(pkgs, ctxErr, order, iters)
    ensures iters <= MostIterations(|Queued(pkgs)|)
  {
    var index := IndexByPackageName(pkgs);
    var nodes := Graph(pkgs);
    ghost var g := DependenciesOf(pkgs);
    NamesAreKeys(pkgs);
    IndexAgrees(pkgs, index);

    var next, queue := SplitReady(pkgs, index, nodes);
    var first := SortStrings(next);
    NameOrderUnique(next, first);
    BottomOf(pkgs, g, next, first, queue);
    ghost var cut := SomeFirst(ctxErr, WholeRunOf(pkgs) + 1);
    var layering;
    layering, iters := LayeringLoop(index, g, first, queue, |nodes|, ctxErr, cut);
    ResultIsLayering(g, first, queue, cut);
    order := Conclude(layering, g, WholeRunOf(pkgs) + 1 < cut);
    EndsRun(pkgs, ctxErr, layering, iters, cut, order);
    EndsInTime(pkgs, iters);
  }

  lemma BottomOf(pkgs: Packages, g: Dependencies, next: seq<string>, first: seq<string>, queue: seq<string>)
    requires multiset(next) + multiset(queue) == multiset(g.Keys)
    requires forall x | x in next :: x in g && g[x] == {}
    requires forall x | x in queue :: x in g && g[x] != {}
    requires multiset(first) == multiset(next) && Sorted(CompareString, first)
    ensures IsBottom(g, first, queue)
  {
    SameElements(next, first);
    assert forall x | x in first :: x in Elements(next);
  }

  lemma EndsRun(
    pkgs: Packages, ctxErr: nat -> bool, layering: Option<Layering>, iters: nat, cut: nat,
    order: Option<seq<seq<string>>>)
    requires DistinctNames(pkgs) && FailsFirstAt(ctxErr, cut, WholeRunOf(pkgs) + 1)
    requires iters == Iterations(DependenciesOf(pkgs), Bottom(pkgs), NamesWhere(pkgs, false), cut)
    requires layering == LoopResult(DependenciesOf(pkgs), Bottom(pkgs), NamesWhere(pkgs, false), cut)
    requires order == if layering.Some? then Some(Closed(layering.value)) else None
    ensures IsRun(pkgs, ctxErr, order, iters)
    ensures WholeRunOf(pkgs) + 1 < cut || ctxErr(iters)
  {
  }

  lemma EndsInTime(pkgs: Packages, iters: nat)
    requires DistinctNames(pkgs) && iters <= WholeRunOf(pkgs) + 1
    ensures iters <= MostIterations(|Queued(pkgs)|)
  {
    WholeRunBound(DependenciesOf(pkgs), Elements(Bottom(pkgs)), NamesWhere(pkgs, false));
    MostIsTriangle(|Queued(pkgs)|);
    QueuedNames(pkgs);
  }

  lemma {:induction false} QueuedNames(pkgs: Packages)
    ensures |NamesWhere(pkgs, false)| == |Queued(pkgs)|
  {
    if pkgs != [] {
      var k := |pkgs| - 1;
      QueuedNames(pkgs[..k]);
      QueuedStep(pkgs, k);
      TakeAll(pkgs);
    }
  }

  /** The pending group, if any, goes last, as it is. */
  method Conclude(layering: Option<Layering>, ghost g: Dependencies, ghost whole: bool)
    returns (order: Option<seq<seq<string>>>)
    requires layering.Some? ==> IsLayering(g, layering.value, whole)
    ensures order == if layering.Some? then Some(Closed(layering.value)) else None
    ensures order.Some? ==>
              && Layered(g, order.value)
              && (whole ==> Complete(g, order.value))
              && (Complete(g, order.value) ==> !Obstructed(g))
  {
    if layering.None? {
      return None;
    }
    var next := layering.value.next;
    ghost var seen, left, runs :| LoopInvariant(g, layering.value.order, seen, next, left, runs) && (whole ==> left == []);
    Deliver(g, layering.value.order, seen, next, left, runs);
    var buildOrder := layering.value.order;
    if |next| > 0 {
      buildOrder := buildOrder + [next];
    }
    if Complete(g, buildOrder) {
      CompleteMeansUnobstructed(g, buildOrder);
    }
    return Some(buildOrder);
  }

  // ----- when the run fails

  lemma {:induction false} BelowKnown(g: Dependencies, order: seq<seq<string>>, k: nat)
    requires k <= |order| && forall j | 0 <= j < k :: Placed(g, order, j)
    ensures Below(order, k) <= g.Keys
  {
    if k > 0 {
      BelowKnown(g, order, k - 1);
      BelowStep(order, k - 1);
      assert Placed(g, order, k - 1);
    }
  }

  /** An obstruction is never built, however far the run gets. */
  lemma {:induction false} ObstructionNeverPlaced(g: Dependencies, order: seq<seq<string>>, s: set<string>, k: nat)
    requires IsObstruction(g, s)
    requires k <= |order| && forall j | 0 <= j < k :: Placed(g, order, j)
    ensures Below(order, k) !! s
  {
    if k > 0 {
      ObstructionNeverPlaced(g, order, s, k - 1);
      BelowStep(order, k - 1);
      BelowKnown(g, order, k - 1);
      assert Placed(g, order, k - 1);
      ObstructionBlocks(g, s, Below(order, k - 1));
      assert forall x | x in Elements(order[k - 1]) :: g[x] <= Below(order, k - 1);
    }
  }

  lemma ObstructionBlocks(g: Dependencies, s: set<string>, built: set<string>)
    requires IsObstruction(g, s) && built <= g.Keys && built !! s
    ensures forall x | x in s :: !(g[x] <= built)
  {
    forall x | x in s ensures !(g[x] <= built) {
      var d :| d in g[x] && (d in s || d !in g);
    }
  }

  lemma BelowStep(order: seq<seq<string>>, k: nat)
    requires k < |order|
    ensures Below(order, k + 1) == Below(order, k) + Elements(order[k])
    ensures Flat(order[..k + 1]) == Flat(order[..k]) + order[k]
  {
    assert order[..k + 1] == order[..k] + [order[k]];
    FlatSnoc(order[..k], order[k]);
    ElementsConcat(Flat(order[..k]), order[k]);
  }

  lemma LayeredPlaced(g: Dependencies, order: seq<seq<string>>)
    requires Layered(g, order)
    ensures forall k | 0 <= k < |order| :: Placed(g, order, k)
  {
    forall k | 0 <= k < |order| ensures Placed(g, order, k) {
      if k < |order| - 1 { assert FinishedGroup(g, order, k); }
    }
  }

  /** A complete layering exists only without an obstruction. */
  lemma CompleteMeansUnobstructed(g: Dependencies, order: seq<seq<string>>)
    requires Layered(g, order) && Complete(g, order)
    ensures !Obstructed(g)
  {
    LayeredPlaced(g, order);
    forall s | s != {} && s <= g.Keys ensures !IsObstruction(g, s) {
      var x :| x in s;
      assert x in multiset(g.Keys);
      assert order[..|order|] == order;
      assert x in Below(order, |order|);
      if IsObstruction(g, s) {
        ObstructionNeverPlaced(g, order, s, |order|);
      }
    }
  }

  // ----- the group index is the length of the longest dependency chain

  /** Each package of the chain is a dependency of the one after it. */
  ghost predicate Chain(g: Dependencies, c: seq<string>) {
    && c != []
    && (forall i | 0 <= i < |c| :: c[i] in g)
    && (forall i | 0 <= i < |c| - 1 :: c[i] in g[c[i + 1]])
  }

  lemma {:induction false} ChainBelow(g: Dependencies, order: seq<seq<string>>, k: nat, c: seq<string>)
    requires Layered(g, order) && k < |order|
    requires Chain(g, c) && c[|c| - 1] in order[k]
    ensures |c| <= k + 1
    decreases |c|
  {
    LayeredPlaced(g, order);
    assert Placed(g, order, k);
    if |c| > 1 {
      var shorter := c[..|c| - 1];
      var d := shorter[|shorter| - 1];
      assert d in g[c[|c| - 1]];
      assert d in Flat(order[..k]);
      InFlat(order[..k], d);
      var j :| 0 <= j < k && d in order[..k][j];
      ChainBelow(g, order, j, shorter);
    }
  }

  lemma {:induction false} ChainTo(g: Dependencies, order: seq<seq<string>>, k: nat, x: string) returns (c: seq<string>)
    requires Layered(g, order) && k < |order| && x in order[k]
    ensures Chain(g, c) && c[|c| - 1] == x && |c| == k + 1
  {
    LayeredPlaced(g, order);
    assert Placed(g, order, k);
    if k == 0 {
      c := [x];
    } else {
      BelowStep(order, k - 1);
      var d :| d in g[x] && d !in Below(order, k - 1);
      assert d in order[k - 1];
      c := ChainTo(g, order, k - 1, d);
      ChainExtended(g, c, x);
      c := c + [x];
    }
  }

  lemma ChainExtended(g: Dependencies, c: seq<string>, x: string)
    requires Chain(g, c) && x in g && c[|c| - 1] in g[x]
    ensures Chain(g, c + [x])
  {
  }

  /** A package in group k has a dependency chain of k + 1 packages up to it,
      and none longer. This holds of interrupted runs too. */
  lemma GroupIsLongestChain(g: Dependencies, order: seq<seq<string>>, k: nat, x: string)
    requires Layered(g, order) && k < |order| && x in order[k]
    ensures exists c :: Chain(g, c) && c[|c| - 1] == x && |c| == k + 1
    ensures forall c | Chain(g, c) && c[|c| - 1] == x :: |c| <= k + 1
  {
    var c := ChainTo(g, order, k, x);
    forall c | Chain(g, c) && c[|c| - 1] == x ensures |c| <= k + 1 {
      ChainBelow(g, order, k, c);
    }
  }

  /** Where the dependencies of a package in group k are: all below k and, above
      the bottom group, at least one in group k - 1. */
  lemma DependenciesOfGroup(g: Dependencies, order: seq<seq<string>>, k: nat, x: string)
    requires Layered(g, order) && k < |order| && x in order[k]
    ensures x in g
    ensures forall d | d in g[x] :: exists j | 0 <= j < k :: d in order[j]
    ensures k > 0 ==> exists d :: d in g[x] && d in order[k - 1]
  {
    LayeredPlaced(g, order);
    assert Placed(g, order, k);
    forall d | d in g[x] ensures exists j | 0 <= j < k :: d in order[j] {
      assert d in Flat(order[..k]);
      InFlat(order[..k], d);
      var j :| 0 <= j < k && d in order[..k][j];
      assert d in order[j];
    }
    if k > 0 {
      BelowStep(order, k - 1);
      var d :| d in g[x] && d !in Below(order, k - 1);
      assert d in order[k - 1];
    }
  }

  // ----- the result does not depend on the input order

  lemma SameDependencies(pkgs: Packages, pkgs': Packages)
    requires DistinctNames(pkgs) && DistinctNames(pkgs')
    requires multiset(pkgs) == multiset(pkgs')
    ensures DependenciesOf(pkgs) == DependenciesOf(pkgs')
  {
    SameElements(pkgs, pkgs');
    DependenciesWithin(pkgs, pkgs');
    DependenciesWithin(pkgs', pkgs);
  }

  lemma DependenciesWithin(pkgs: Packages, pkgs': Packages)
    requires DistinctNames(pkgs) && DistinctNames(pkgs')
    requires Elements(pkgs) == Elements(pkgs')
    ensures forall n | n in DependenciesOf(pkgs) ::
              n in DependenciesOf(pkgs') && DependenciesOf(pkgs')[n] == DependenciesOf(pkgs)[n]
  {
    forall n | n in DependenciesOf(pkgs)
      ensures n in DependenciesOf(pkgs') && DependenciesOf(pkgs')[n] == DependenciesOf(pkgs)[n]
    {
      var i :| 0 <= i < |pkgs| && pkgs[i].packageName == n;
      assert pkgs[i] in Elements(pkgs);
      DependenciesOfMember(pkgs, pkgs[i]);
      DependenciesOfMember(pkgs', pkgs[i]);
    }
  }

  lemma DependenciesOfMember(pkgs: Packages, p: PackageInfo)
    requires DistinctNames(pkgs) && p in pkgs
    ensures p.packageName in DependenciesOf(pkgs)
    ensures DependenciesOf(pkgs)[p.packageName] == Elements(p.dependencies)
  {
    var i :| 0 <= i < |pkgs| && pkgs[i] == p;
  }

  lemma {:induction false} FlatPrefix(order: seq<seq<string>>, k: nat)
    requires k <= |order|
    ensures multiset(Flat(order[..k])) <= multiset(Flat(order))
    decreases |order| - k
  {
    if k == |order| {
      assert order[..k] == order;
    } else {
      BelowStep(order, k);
      FlatPrefix(order, k + 1);
    }
  }

  /** No package is in two groups, or twice in one. */
  lemma GroupsDisjoint(g: Dependencies, order: seq<seq<string>>, k: nat)
    requires Layered(g, order) && k < |order|
    ensures Below(order, k) !! Elements(order[k])
    ensures NoDuplicates(order[k])
  {
    BelowStep(order, k);
    FlatPrefix(order, k + 1);
    forall x | x in order[k] ensures x !in Below(order, k) && multiset(order[k])[x] <= 1 {
      assert multiset(Flat(order[..k + 1]))[x] == multiset(Flat(order[..k]))[x] + multiset(order[k])[x];
      assert multiset(Flat(order[..k + 1]))[x] <= multiset(g.Keys)[x] <= 1;
      assert x in multiset(order[k]);
      assert x in Below(order, k) <==> x in multiset(Flat(order[..k]));
    }
    CountNoDuplicates(order[k]);
  }

  lemma {:induction false} SameBelow(g: Dependencies, order: seq<seq<string>>, order': seq<seq<string>>, k: nat)
    requires Layered(g, order) && Layered(g, order')
    requires k < |order| && k < |order'|
    ensures Below(order, k) == Below(order', k)
  {
    if k > 0 {
      SameBelow(g, order, order', k - 1);
      BelowWithin(g, order, order', k - 1);
      BelowWithin(g, order', order, k - 1);
    }
  }

  lemma BelowWithin(g: Dependencies, order: seq<seq<string>>, order': seq<seq<string>>, k: nat)
    requires Layered(g, order) && Layered(g, order')
    requires k < |order| && k < |order'| - 1
    requires Below(order, k) == Below(order', k)
    ensures Below(order, k + 1) <= Below(order', k + 1)
  {
    LayeredPlaced(g, order);
    BelowStep(order, k);
    BelowStep(order', k);
    assert FinishedGroup(g, order', k);
    assert Placed(g, order, k);
  }

  lemma SameGroup(g: Dependencies, order: seq<seq<string>>, order': seq<seq<string>>, k: nat)
    requires Layered(g, order) && Layered(g, order')
    requires k < |order| - 1 && k < |order'| - 1
    ensures order[k] == order'[k]
  {
    SameBelow(g, order, order', k);
    SameBelow(g, order, order', k + 1);
    BelowStep(order, k);
    BelowStep(order', k);
    GroupsDisjoint(g, order, k);
    GroupsDisjoint(g, order', k);
    assert Elements(order[k]) == Below(order, k + 1) - Below(order, k);
    assert Elements(order'[k]) == Below(order', k + 1) - Below(order', k);
    SameSetSameMultiset(order[k], order'[k]);
    assert FinishedGroup(g, order, k) && FinishedGroup(g, order', k);
    SortedStringsUnique(order[k], order'[k]);
  }

  /** An interrupted run delivers a prefix of what the whole run delivers: the
      same groups, then part of the next one. */
  lemma InterruptedIsPrefix(g: Dependencies, whole: seq<seq<string>>, part: seq<seq<string>>)
    requires Layered(g, whole) && Complete(g, whole)
    requires Layered(g, part)
    ensures |part| <= |whole|
    ensures forall k | 0 <= k < |part| - 1 :: part[k] == whole[k]
    ensures Elements(part[|part| - 1]) <= Elements(whole[|part| - 1])
  {
    NotLonger(g, whole, part);
    forall k | 0 <= k < |part| - 1 ensures part[k] == whole[k] {
      SameGroup(g, part, whole, k);
    }
    var k := |part| - 1;
    SameBelow(g, part, whole, k);
    GroupsDisjoint(g, part, k);
    BelowStep(whole, k);
    assert Placed(g, part, k);
    forall x | x in part[k] ensures x in whole[k] {
      if k < |whole| - 1 {
        assert FinishedGroup(g, whole, k);
      } else {
        assert whole[..|whole|] == whole;
        assert x in multiset(g.Keys);
        assert x in Flat(whole);
      }
      assert x in Elements(part[k]);
    }
  }

  lemma BeyondWhole(g: Dependencies, whole: seq<seq<string>>, part: seq<seq<string>>)
    requires Layered(g, whole) && Complete(g, whole)
    requires Layered(g, part) && |part| > |whole|
    ensures Elements(part[|whole|]) <= Below(part, |whole|)
  {
    var k := |whole|;
    LayeredPlaced(g, part);
    LayeredPlaced(g, whole);
    SameBelow(g, part, whole, k - 1);
    BelowStep(part, k - 1);
    BelowStep(whole, k - 1);
    assert FinishedGroup(g, part, k - 1);
    assert whole[..k] == whole;
    assert Placed(g, part, k) && Placed(g, whole, k - 1);
    forall x | x in part[k] ensures x in Below(part, k) {
      assert x in multiset(g.Keys);
      assert x in Flat(whole);
      assert x in Below(whole, k - 1) || x in whole[k - 1];
    }
  }

  lemma NotLonger(g: Dependencies, whole: seq<seq<string>>, part: seq<seq<string>>)
    requires Layered(g, whole) && Complete(g, whole)
    requires Layered(g, part)
    ensures |part| <= |whole|
  {
    if |part| > |whole| {
      var k := |whole|;
      if k < |part| - 1 { assert FinishedGroup(g, part, k); }
      assert part[k][0] in Elements(part[k]);
      GroupsDisjoint(g, part, k);
      BeyondWhole(g, whole, part);
    }
  }

  /** Two complete runs over the same packages, met in any order, agree: every
      group but the last is the same sequence, and the last has the same
      members. */
  lemma OrderIndependent(pkgs: Packages, pkgs': Packages, order: seq<seq<string>>, order': seq<seq<string>>)
    requires DistinctNames(pkgs) && DistinctNames(pkgs') && multiset(pkgs) == multiset(pkgs')
    requires Layered(DependenciesOf(pkgs), order) && Complete(DependenciesOf(pkgs), order)
    requires Layered(DependenciesOf(pkgs'), order') && Complete(DependenciesOf(pkgs'), order')
    ensures |order| == |order'|
    ensures forall k | 0 <= k < |order| - 1 :: order[k] == order'[k]
    ensures multiset(order[|order| - 1]) == multiset(order'[|order| - 1])
  {
    SameDependencies(pkgs, pkgs');
    var g := DependenciesOf(pkgs);
    InterruptedIsPrefix(g, order, order');
    InterruptedIsPrefix(g, order', order);
    GroupsDisjoint(g, order, |order| - 1);
    GroupsDisjoint(g, order', |order| - 1);
    SameSetSameMultiset(order[|order| - 1], order'[|order| - 1]);
  }

  // ----- narrowing

  ghost function Within(limits: set<string>): string -> bool {
    x => x in limits
  }

  /** The groups restricted to limits, without those that become empty. */
  ghost function Narrowed(order: seq<seq<string>>, limits: set<string>): seq<seq<string>> {
    if order == [] then []
    else
      var rest := Narrowed(order[..|order| - 1], limits);
      var kept := Filter(Within(limits), order[|order| - 1]);
      if kept == [] then rest else rest + [kept]
  }

  lemma NarrowedOneMore(order: seq<seq<string>>, limits: set<string>, k: nat, kept: seq<string>)
    requires k < |order| && kept == Filter(Within(limits), order[k][..|order[k]|])
    ensures Narrowed(order[..k + 1], limits) == Narrowed(order[..k], limits) + if kept == [] then [] else [kept]
  {
    assert order[k][..|order[k]|] == order[k];
    assert order[..k + 1][..k] == order[..k];
  }

  method Narrow(bo: BuildOrder, limits: set<string>) returns (out: BuildOrder)
    ensures out.packages == bo.packages && out.path == bo.path
    ensures out.order == Narrowed(bo.order, limits)
  {
    var narrowed: seq<seq<string>> := [];
    for k := 0 to |bo.order|
      invariant narrowed == Narrowed(bo.order[..k], limits)
    {
      var group := bo.order[k];
      var ng: seq<string> := [];
      for idx := 0 to |group|
        invariant ng == Filter(Within(limits), group[..idx])
      {
        FilterOneMore(Within(limits), group, idx);
        if group[idx] in limits {
          ng := ng + [group[idx]];
        }
      }
      NarrowedOneMore(bo.order, limits, k, ng);
      if |ng| > 0 {
        narrowed := narrowed + [ng];
      }
    }
    assert bo.order[..|bo.order|] == bo.order;
    out := BuildOrder(narrowed, bo.packages, bo.path);
  }

  /** Narrowing filters the flattened order. */
  lemma {:induction false} NarrowFilters(order: seq<seq<string>>, limits: set<string>)
    ensures Flat(Narrowed(order, limits)) == Filter(Within(limits), Flat(order))
  {
    if order != [] {
      var init, last := order[..|order| - 1], order[|order| - 1];
      var kept := Filter(Within(limits), last);
      NarrowFilters(init, limits);
      FilterConcat(Within(limits), Flat(init), last);
      FlatSnoc(Narrowed(init, limits), kept);
      assert Flat(Narrowed(init, limits)) + kept == Filter(Within(limits), Flat(order));
    }
  }

  /** Narrowing leaves no empty group. */
  lemma {:induction false} NarrowLeavesNoEmpty(order: seq<seq<string>>, limits: set<string>)
    ensures forall k | 0 <= k < |Narrowed(order, limits)| :: Narrowed(order, limits)[k] != []
  {
    if order != [] {
      NarrowLeavesNoEmpty(order[..|order| - 1], limits);
    }
  }

  /** Each narrowed group is what is left of one group of the input, with what
      is left of the groups below that one below it. */
  lemma {:induction false} NarrowOrigin(order: seq<seq<string>>, limits: set<string>, i: nat) returns (k: nat)
    requires i < |Narrowed(order, limits)|
    ensures k < |order|
    ensures Narrowed(order, limits)[i] == Filter(Within(limits), order[k])
    ensures Flat(Narrowed(order, limits)[..i]) == Filter(Within(limits), Flat(order[..k]))
  {
    var init := order[..|order| - 1];
    var rest := Narrowed(init, limits);
    if i < |rest| {
      k := NarrowOrigin(init, limits, i);
      assert Narrowed(order, limits)[..i] == rest[..i];
      assert init[..k] == order[..k];
    } else {
      k := |order| - 1;
      NarrowFilters(init, limits);
      assert Narrowed(order, limits)[..i] == rest;
    }
  }

  /** Dependencies that are listed at all are listed in earlier groups. */
  ghost predicate RespectsDependencies(g: Dependencies, order: seq<seq<string>>) {
    forall k, x, d | 0 <= k < |order| && x in order[k] && x in g && d in g[x] && d in Members(order) ::
      d in Below(order, k)
  }

  lemma NarrowRespectsDependencies(g: Dependencies, order: seq<seq<string>>, limits: set<string>)
    requires RespectsDependencies(g, order)
    ensures RespectsDependencies(g, Narrowed(order, limits))
  {
    var out := Narrowed(order, limits);
    forall i, x, d | 0 <= i < |out| && x in out[i] && x in g && d in g[x] && d in Members(out)
      ensures d in Below(out, i)
    {
      var k := NarrowOrigin(order, limits, i);
      NarrowFilters(order, limits);
      assert x in order[k] && d in Members(order) && d in limits;
      assert d in Below(order, k);
    }
  }

  /** What the layering loop delivers can be narrowed. */
  lemma LayeredRespectsDependencies(g: Dependencies, order: seq<seq<string>>)
    requires Layered(g, order)
    ensures RespectsDependencies(g, order)
  {
    LayeredPlaced(g, order);
    forall k, x, d | 0 <= k < |order| && x in order[k] && x in g && d in g[x] && d in Members(order)
      ensures d in Below(order, k)
    {
      assert Placed(g, order, k);
    }
  }
}
