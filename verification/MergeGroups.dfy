/** What alias expansion and the merging of groups by dotted key come to
    (subexec/subexec.go, resolveAliasesAndMergeGroups), on groups as values. */
module MergeGroups {
  import opened Prelude
  import opened Ordering
  import opened Groups

  // ----- what expansion and merging produce

  /** The group belongs to this very host, and such groups are not wanted. */
  predicate Skipped(g: Group, includeLocal: bool, hostname: string) {
    g.host.HostAt? && !includeLocal && g.host.name != "" && g.host.name == hostname
  }

  function AliasCopies(g: Group): seq<Group> {
    seq(|g.aliases|, i requires 0 <= i < |g.aliases| => g.(name := g.aliases[i], aliases := []))
  }

  /** The groups that are not skipped, each followed by its alias copies. */
  ghost function Expanded(groups: seq<Group>, includeLocal: bool, hostname: string): seq<Group> {
    if groups == [] then []
    else
      var g := groups[|groups| - 1];
      Expanded(groups[..|groups| - 1], includeLocal, hostname) +
      if Skipped(g, includeLocal, hostname) then [] else [g] + AliasCopies(g)
  }

  ghost function Keys(w: seq<Group>): seq<string> {
    seq(|w|, i requires 0 <= i < |w| => w[i].Key())
  }

  /** k is the first position of its key. */
  ghost predicate IsFirst(keys: seq<string>, k: nat)
    requires k < |keys|
  {
    forall j | 0 <= j < k :: keys[j] != keys[k]
  }

  /** The group at k with every later group of its key before n merged into it,
      in order, except those it refuses. */
  ghost function MergedUpTo(w: seq<Group>, keys: seq<string>, k: nat, n: nat): Group
    requires |keys| == |w| && k < n <= |w|
  {
    if n == k + 1 then w[k]
    else
      var m := MergedUpTo(w, keys, k, n - 1);
      if keys[n - 1] == keys[k] && Accepts(m, w[n - 1]) then Merge(m, w[n - 1]) else m
  }

  /** heads lists the first position of each key, in order. */
  ghost predicate AreHeads(keys: seq<string>, heads: seq<nat>) {
    && (forall i, j | 0 <= i < j < |heads| :: heads[i] < heads[j])
    && (forall k: nat :: k in heads <==> k < |keys| && IsFirst(keys, k))
  }

  /** r is g with its commands in order. */
  ghost predicate CommandsSorted(g: Group, r: Group) {
    r == g.(commands := r.commands) && IsStableSort(CompareCommands, g.commands, r.commands)
  }

  /** The merged groups, in order of first position, each with its commands
      sorted. */
  ghost predicate AreMerged(w: seq<Group>, keys: seq<string>, heads: seq<nat>, merged: seq<Group>)
    requires |keys| == |w|
  {
    && AreHeads(keys, heads)
    && |merged| == |heads|
    && forall i | 0 <= i < |heads| :: heads[i] < |w| && CommandsSorted(MergedUpTo(w, keys, heads[i], |w|), merged[i])
  }

  /** r is a permutation of the groups and, when their hosts can be told apart by
      name, the stable sort of them. */
  ghost predicate IsGroupSort(groups: seq<Group>, r: seq<Group>) {
    && multiset(r) == multiset(groups)
    && (HostsTellApart(Hosts(Elements(groups))) ==> IsStableSort(CompareGroups, groups, r))
  }

  /** What becomes of the expanded groups: nothing if their keys are distinct;
      otherwise they are merged, and the merged groups sorted. */
  ghost predicate AreResolved(w: seq<Group>, heads: seq<nat>, merged: seq<Group>, result: seq<Group>) {
    if NoDuplicates(Keys(w)) then result == w
    else AreMerged(w, Keys(w), heads, merged) && IsGroupSort(merged, result)
  }

  function FirstOf(keys: seq<string>, key: string): (k: nat)
    requires key in keys
    ensures k < |keys| && keys[k] == key && forall j | 0 <= j < k :: keys[j] != key
  {
    if keys[0] == key then 0 else 1 + FirstOf(keys[1..], key)
  }

  function CompareSecond(lhv: (string, nat), rhv: (string, nat)): int {
    CompareInt(lhv.1, rhv.1)
  }

  /** The index as a list of its entries, in whatever order the map gives. */
  method Entries(index: map<string, nat>) returns (entries: seq<(string, nat)>)
    ensures forall k, n :: (k, n) in entries <==> k in index && index[k] == n
    ensures forall i, j | 0 <= i < j < |entries| :: entries[i].0 != entries[j].0
  {
    entries := [];
    var rest := index.Keys;
    while rest != {}
      invariant rest <= index.Keys
      invariant forall k, n :: (k, n) in entries <==> k in index.Keys - rest && index[k] == n
      invariant forall i, j | 0 <= i < j < |entries| :: entries[i].0 != entries[j].0
    {
      var k :| k in rest;
      forall i | 0 <= i < |entries| ensures entries[i].0 != k {
        assert (entries[i].0, entries[i].1) in entries;
      }
      entries := entries + [(k, index[k])];
      rest := rest - {k};
    }
  }

  /** The positions in the index, in order: going through the map leaves no
      trace. */
  method IndexInOrder(ghost keys: seq<string>, index: map<string, nat>) returns (heads: seq<nat>)
    requires IsIndex(keys, |keys|, index)
    ensures AreHeads(keys, heads)
  {
    var entries := Entries(index);
    ghost var d := Elements(entries);
    assert TotalPreorderOn(CompareSecond, d);
    var sorted := SortStableFunc(entries, CompareSecond);
    heads := seq(|sorted|, i requires 0 <= i < |sorted| => sorted[i].1);
    HeadsFromEntries(keys, index, entries, sorted, heads);
  }

  lemma HeadsFromEntries(
    keys: seq<string>, index: map<string, nat>, entries: seq<(string, nat)>, sorted: seq<(string, nat)>, heads: seq<nat>)
    requires IsIndex(keys, |keys|, index)
    requires forall k, n :: (k, n) in entries <==> k in index && index[k] == n
    requires forall i, j | 0 <= i < j < |entries| :: entries[i].0 != entries[j].0
    requires multiset(sorted) == multiset(entries) && Sorted(CompareSecond, sorted)
    requires |heads| == |sorted| && forall i | 0 <= i < |heads| :: heads[i] == sorted[i].1
    ensures AreHeads(keys, heads)
  {
    SameElements(entries, sorted);
    assert NoDuplicates(entries);
    SameCountNoDuplicates(entries, sorted);
    forall e | e in sorted ensures e.0 in index && index[e.0] == e.1 && keys[e.1] == e.0 && IsFirst(keys, e.1) {
      assert e in Elements(entries);
      assert (e.0, e.1) in entries;
    }
    forall i, j | 0 <= i < j < |heads| ensures heads[i] < heads[j] {
      assert sorted[i] in sorted && sorted[j] in sorted && sorted[i] != sorted[j];
      assert CompareSecond(sorted[i], sorted[j]) <= 0;
    }
    forall k: nat ensures k in heads <==> k < |keys| && IsFirst(keys, k) {
      if k < |keys| && IsFirst(keys, k) {
        assert index[keys[k]] == k;
        assert (keys[k], k) in entries && (keys[k], k) in Elements(sorted);
        var i :| 0 <= i < |sorted| && sorted[i] == (keys[k], k);
        assert heads[i] == k;
      } else {
        assert forall i | 0 <= i < |heads| :: sorted[i] in sorted;
      }
    }
  }

  lemma SameCountNoDuplicates<T>(s: seq<T>, r: seq<T>)
    requires NoDuplicates(s) && multiset(r) == multiset(s)
    ensures NoDuplicates(r)
  {
    forall x | x in r ensures multiset(r)[x] <= 1 {
      assert x in multiset(s);
      NoDuplicatesCount(s, x);
    }
    CountNoDuplicates(r);
  }

  /** The index leads from each key among the first n to its first position. */
  ghost predicate IsIndex(keys: seq<string>, n: nat, index: map<string, nat>)
    requires n <= |keys|
  {
    && (forall key | key in index :: index[key] < n && keys[index[key]] == key && IsFirst(keys, index[key]))
    && (forall k | 0 <= k < n :: keys[k] in index)
  }

  ghost predicate MergedSoFar(w: seq<Group>, keys: seq<string>, n: nat, now: seq<Group>)
    requires |keys| == |w| == |now| && n <= |w|
  {
    && (forall k | 0 <= k < n && IsFirst(keys, k) :: now[k] == MergedUpTo(w, keys, k, n))
    && (forall k | n <= k < |w| :: now[k] == w[k])
  }

  /** The group at k still matters when n groups have been seen: it is the first
      of its key, or has not been seen. */
  ghost predicate Live(keys: seq<string>, n: nat, k: nat) {
    k < |keys| && (n <= k || IsFirst(keys, k))
  }

  /** The next group: the first of its key stays, a later one is merged into
      the first. */
  lemma MergeStep(w: seq<Group>, keys: seq<string>, n: nat, now: seq<Group>, next: seq<Group>)
    requires |keys| == |w| == |now| == |next| && n < |w| && keys[n] in keys
    requires MergedSoFar(w, keys, n, now)
    requires var at := FirstOf(keys, keys[n]);
             && (at < n ==> next[at] == if Accepts(now[at], now[n]) then Merge(now[at], now[n]) else now[at])
             && forall k | 0 <= k < |w| && Live(keys, n + 1, k) && (k == at ==> at == n) :: next[k] == now[k]
    ensures MergedSoFar(w, keys, n + 1, next)
  {
    var at := FirstOf(keys, keys[n]);
    forall k | 0 <= k < n + 1 && IsFirst(keys, k) ensures next[k] == MergedUpTo(w, keys, k, n + 1) {
      assert Live(keys, n + 1, k);
      if k < n && k != at {
        assert keys[k] != keys[n];
      }
    }
    forall k | n + 1 <= k < |w| ensures next[k] == w[k] {
      assert Live(keys, n + 1, k);
    }
  }

  /** The index leads to the first position of each key, and grows by those that
      are new. */
  lemma IndexStep(keys: seq<string>, n: nat, index: map<string, nat>)
    requires n < |keys| && IsIndex(keys, n, index)
    ensures keys[n] in index <==> !IsFirst(keys, n)
    ensures keys[n] in index ==> index[keys[n]] == FirstOf(keys, keys[n]) && IsIndex(keys, n + 1, index)
    ensures keys[n] !in index ==> IsIndex(keys, n + 1, index[keys[n] := n])
  {
    if keys[n] !in index {
      assert forall k | 0 <= k < n :: keys[k] != keys[n];
    }
  }

  lemma DuplicateStep(keys: seq<string>, n: nat)
    requires n < |keys|
    ensures NoDuplicates(keys[..n + 1]) <==> NoDuplicates(keys[..n]) && IsFirst(keys, n)
  {
    var a, b := keys[..n], keys[..n + 1];
    if NoDuplicates(b) {
      assert forall j | 0 <= j < n :: b[j] == keys[j] && b[n] == keys[n];
    }
  }
}
