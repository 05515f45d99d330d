/** What resolving and merging keeps whatever arrays the groups share
    (subexec/subexec.go, resolveAliasesAndMergeGroups): keys, identities, hints,
    the number of commands, their order, and the order of the groups. Nothing here
    asks that groups with aliases fill their arrays. */
module Outcomes {
  import opened Prelude
  import opened Ordering
  import opened Groups
  import opened MergeGroups
  import opened MergeLaws
  import opened Slices
  import opened Configurations
  import opened SharedArrays

  // ----- all of a group but what its commands are

  /** A group with every command blanked out. */
  function Shape(g: Group): Group {
    g.(commands := Blanks(|g.commands|))
  }

  function Shapes(w: seq<Group>): (r: seq<Group>)
    ensures |r| == |w|
  {
    seq(|w|, k requires 0 <= k < |w| => Shape(w[k]))
  }

  lemma ShapeOfMerge(cg: Group, rhv: Group)
    ensures Shape(Merge(cg, rhv)) == Merge(Shape(cg), Shape(rhv))
  {
    assert Blanks(|cg.commands|) + Blanks(|rhv.commands|) == Blanks(|cg.commands| + |rhv.commands|);
    assert Blanks(|rhv.commands|) + Blanks(|cg.commands|) == Blanks(|cg.commands| + |rhv.commands|);
  }

  lemma {:induction false} ShapeOfMerged(w: seq<Group>, keys: seq<string>, k: nat, n: nat)
    requires |keys| == |w| && k < n <= |w|
    ensures MergedUpTo(Shapes(w), keys, k, n) == Shape(MergedUpTo(w, keys, k, n))
    decreases n
  {
    if n > k + 1 {
      ShapeOfMerged(w, keys, k, n - 1);
      ShapeOfMerge(MergedUpTo(w, keys, k, n - 1), w[n - 1]);
    }
  }

  /** The shape of one slice merged into another does not depend on what else is
      on their arrays. */
  lemma IntoShape(ap: Appending, grow: Growth, s: State, h: nat, i: nat)
    requires IsAppend(ap, grow) && s.AllFit() && h < |s.headers| && i < |s.headers|
    ensures var a, b, r := Shape(s.AsGroups()[h]), Shape(s.AsGroups()[i]), MergedInto(ap, s, h, i);
            && r.AllFit()
            && Shape(r.AsGroups()[h]) == if Accepts(a, b) then Merge(a, b) else a
  {
    IntoFits(ap, grow, s, h, i);
    IntoFirst(ap, grow, s, h, i);
    ShapeOfMerge(s.AsGroups()[h], s.AsGroups()[i]);
  }

  /** The others keep theirs: their slices stay as long as they are. */
  lemma IntoOtherShapes(ap: Appending, grow: Growth, s: State, h: nat, i: nat, k: nat)
    requires IsAppend(ap, grow) && s.AllFit() && h < |s.headers| && i < |s.headers| && k < |s.headers| && k != h
    ensures Shape(MergedInto(ap, s, h, i).AsGroups()[k]) == Shape(s.AsGroups()[k])
  {
    IntoFits(ap, grow, s, h, i);
    var r := MergedInto(ap, s, h, i);
    assert Fits(s.store, s.headers[k].slice) && Fits(r.store, r.headers[k].slice);
  }

  /** After n groups, the shapes of those that still matter are what merging the
      shapes w makes of them. */
  ghost predicate ShapedSoFar(w: seq<Group>, s: State, keys: seq<string>, n: nat) {
    && n <= |keys| == |w| == |s.headers|
    && s.AllFit() && MergedSoFar(w, keys, n, Shapes(s.AsGroups()))
  }

  lemma {:induction false} MergedShapes(ap: Appending, grow: Growth, w: seq<Group>, s: State, keys: seq<string>, n: nat)
    returns (m: State)
    requires IsAppend(ap, grow) && ShapedSoFar(w, s, keys, n)
    ensures m == MergedFrom(ap, s, keys, n) && ShapedSoFar(w, m, keys, |keys|)
    decreases |keys| - n
  {
    if n == |keys| {
      m := s;
    } else {
      var r := ShapesStep(ap, grow, w, s, keys, n);
      m := MergedShapes(ap, grow, w, r, keys, n + 1);
    }
  }

  lemma ShapesStep(ap: Appending, grow: Growth, w: seq<Group>, s: State, keys: seq<string>, n: nat) returns (r: State)
    requires IsAppend(ap, grow) && n < |keys| && ShapedSoFar(w, s, keys, n)
    ensures r == MergedOne(ap, s, keys, n) && ShapedSoFar(w, r, keys, n + 1)
  {
    r := MergedOne(ap, s, keys, n);
    var at := FirstOf(keys, keys[n]);
    var was, now := Shapes(s.AsGroups()), Shapes(r.AsGroups());
    if at < n {
      IntoShape(ap, grow, s, at, n);
      forall k | 0 <= k < |w| && k != at ensures now[k] == was[k] {
        IntoOtherShapes(ap, grow, s, at, n, k);
      }
    }
    MergeStep(w, keys, n, was, now);
  }

  lemma PickedShape(m: State, heads: seq<nat>, i: nat)
    requires m.AllFit() && i < |heads| && forall i | 0 <= i < |heads| :: heads[i] < |m.headers|
    ensures var picked := Picked(m.headers, heads);
            Shape(Read(SortedAll(m.store, SlicesOf(picked)), picked[i])) == Shape(m.AsGroups()[heads[i]])
  {
    SortedFits(m.store, SlicesOf(Picked(m.headers, heads)));
    assert Fits(m.store, m.headers[heads[i]].slice);
  }

  /** With keys that differ, every group is what merging makes of it. */
  lemma {:induction false} MergedAlone(w: seq<Group>, keys: seq<string>, k: nat, n: nat)
    requires |keys| == |w| && k < n <= |w| && NoDuplicates(keys)
    ensures MergedUpTo(w, keys, k, n) == w[k]
    decreases n
  {
    if n > k + 1 {
      MergedAlone(w, keys, k, n - 1);
    }
  }

  /** The shapes of the groups at the heads, once merged. */
  lemma HeadShape(ap: Appending, grow: Growth, s: State, heads: seq<nat>, i: nat)
    requires IsAppend(ap, grow) && s.AllFit() && AreHeads(KeysOf(s), heads) && i < |heads|
    requires forall i | 0 <= i < |heads| :: heads[i] < |s.headers|
    ensures Shape(MergedState(ap, s, KeysOf(s), heads).AsGroups()[i]) ==
            Shape(MergedUpTo(s.AsGroups(), KeysOf(s), heads[i], |s.headers|))
  {
    var w, keys := s.AsGroups(), KeysOf(s);
    HeadsWithin(keys, heads);
    var m := MergedShapes(ap, grow, Shapes(w), s, keys, 0);
    PickedShape(m, heads, i);
    assert Shapes(m.AsGroups())[heads[i]] == MergedUpTo(Shapes(w), keys, heads[i], |w|);
    ShapeOfMerged(w, keys, heads[i], |w|);
  }

  /** Whatever arrays the groups share, each group of the outcome is, but for what
      its commands are, the first group of its key with the later ones merged into
      it. */
  lemma OutcomeShape(ap: Appending, grow: Growth, s: State, heads: seq<nat>, r: State, g: Group) returns (k: nat)
    requires IsAppend(ap, grow) && s.AllFit() && IsOutcome(ap, s, heads, r) && g in r.AsGroups()
    ensures k < |s.headers| && IsFirst(KeysOf(s), k) && KeysOf(s)[k] == g.Key()
    ensures Shape(g) == Shape(MergedUpTo(s.AsGroups(), KeysOf(s), k, |s.headers|))
  {
    var w, keys := s.AsGroups(), KeysOf(s);
    if NoDuplicates(keys) {
      k :| 0 <= k < |w| && w[k] == g;
      MergedAlone(w, keys, k, |w|);
    } else {
      var merged := MergedState(ap, s, keys, heads).AsGroups();
      SameElements(merged, r.AsGroups());
      assert g in Elements(r.AsGroups());
      var i :| 0 <= i < |merged| && merged[i] == g;
      HeadShape(ap, grow, s, heads, i);
      HeadsWithin(keys, heads);
      MergedStateKeys(ap, s, heads);
      k := heads[i];
    }
  }

  /** So it is the first group of its key but for aliases, commands and hint; its
      hint is the first of greatest absolute value among the groups of its key and
      category; and it has as many commands as those have together. */
  lemma OutcomeGroup(ap: Appending, grow: Growth, s: State, heads: seq<nat>, r: State, g: Group)
    returns (k: nat, j: nat)
    requires IsAppend(ap, grow) && s.AllFit() && IsOutcome(ap, s, heads, r) && g in r.AsGroups()
    ensures k < |s.headers| && IsFirst(KeysOf(s), k) && KeysOf(s)[k] == g.Key()
    ensures g == s.AsGroups()[k].(aliases := g.aliases, commands := g.commands, sortHint := g.sortHint)
    ensures IsFirstGreatest(s.AsGroups(), KeysOf(s), k, |s.headers|, j) && g.sortHint == s.AsGroups()[j].sortHint
    ensures |g.commands| == |UnderIn(s.AsGroups(), g.Key(), g.category)|
    ensures forall i | 0 <= i < |s.headers| && s.AsGroups()[i].Key() == g.Key() && s.AsGroups()[i].category == g.category ::
              HintWithin(s.AsGroups()[i].sortHint, g.sortHint)
  {
    var w, keys := s.AsGroups(), KeysOf(s);
    k := OutcomeShape(ap, grow, s, heads, r, g);
    var m := MergedUpTo(w, keys, k, |w|);
    assert Shape(g).(commands := g.commands) == g && Shape(m).(commands := m.commands) == m;
    MergedKeepsIdentity(w, keys, k, |w|);
    j := MergedHint(w, keys, k, |w|);
    MergedCommands(w, keys, k, |w|);
    TakeAll(w);
    assert |Blanks(|g.commands|)| == |Blanks(|m.commands|)|;
    assert |multiset(m.commands)| == |m.commands|;
    forall i | 0 <= i < |w| && w[i].Key() == g.Key() && w[i].category == g.category
      ensures HintWithin(w[i].sortHint, g.sortHint)
    {
      assert keys[i] == w[i].Key();
      assert Joins(w, keys, k, i);
      HintWithinMeans(w[i].sortHint, w[j].sortHint);
    }
  }

  // ----- keys

  /** No two groups of the outcome have one key. */
  lemma OutcomeKeysDistinct(ap: Appending, s: State, heads: seq<nat>, r: State)
    requires IsOutcome(ap, s, heads, r)
    ensures NoDuplicates(Keys(r.AsGroups()))
  {
    if !NoDuplicates(KeysOf(s)) {
      var merged, result := MergedState(ap, s, KeysOf(s), heads).AsGroups(), r.AsGroups();
      MergedStateKeys(ap, s, heads);
      SameElements(merged, result);
      SameCountNoDuplicates(merged, result);
      forall i, j | 0 <= i < j < |result| ensures Keys(result)[i] != Keys(result)[j] {
        assert result[i] in Elements(result) && result[j] in Elements(result);
        var p :| 0 <= p < |merged| && merged[p] == result[i];
        var q :| 0 <= q < |merged| && merged[q] == result[j];
      }
    }
  }

  /** The keys of the outcome are those that there were. */
  lemma OutcomeKeysKept(ap: Appending, s: State, heads: seq<nat>, r: State, key: string)
    requires IsOutcome(ap, s, heads, r)
    ensures key in KeysOf(s) <==> key in Keys(r.AsGroups())
  {
    if !NoDuplicates(KeysOf(s)) {
      MergedStateKeys(ap, s, heads);
      HeadsHaveKeys(KeysOf(s), heads, MergedState(ap, s, KeysOf(s), heads).AsGroups(), r.AsGroups(), key);
    }
  }

  lemma HeadsHaveKeys(keys: seq<string>, heads: seq<nat>, merged: seq<Group>, result: seq<Group>, key: string)
    requires AreHeads(keys, heads) && |merged| == |heads| && multiset(result) == multiset(merged)
    requires forall i | 0 <= i < |heads| :: heads[i] < |keys| && merged[i].Key() == keys[heads[i]]
    ensures key in keys <==> key in Keys(result)
  {
    SameElements(merged, result);
    if key in keys {
      var k := FirstOf(keys, key);
      assert IsFirst(keys, k) && k in heads;
      var i :| 0 <= i < |heads| && heads[i] == k;
      assert merged[i] in Elements(merged);
      var p :| 0 <= p < |result| && result[p] == merged[i];
      assert Keys(result)[p] == key;
    }
    if key in Keys(result) {
      var p :| 0 <= p < |result| && Keys(result)[p] == key;
      assert result[p] in Elements(result);
      var i :| 0 <= i < |merged| && merged[i] == result[p];
      assert keys[heads[i]] == key;
    }
  }

  // ----- order

  /** Two resolutions of one configuration leave the same arrays and the same
      groups: the order in which a map gives its entries leaves no trace. The
      groups are in the same order too, if their hosts can be told apart. */
  lemma OutcomeDeterministic(ap: Appending, s: State, heads: seq<nat>, r: State, heads': seq<nat>, r': State)
    requires IsOutcome(ap, s, heads, r) && IsOutcome(ap, s, heads', r')
    ensures r.store == r'.store && multiset(r.AsGroups()) == multiset(r'.AsGroups())
    ensures NoDuplicates(KeysOf(s)) || HostsTellApart(Hosts(Elements(r.AsGroups()))) ==> r.AsGroups() == r'.AsGroups()
  {
    if !NoDuplicates(KeysOf(s)) {
      IncreasingUnique(heads, heads');
      var merged := MergedState(ap, s, KeysOf(s), heads).AsGroups();
      SameElements(merged, r.AsGroups());
      if HostsTellApart(Hosts(Elements(r.AsGroups()))) {
        GroupPreorder(Elements(merged));
        StableSortUnique(CompareGroups, merged, r.AsGroups(), r'.AsGroups());
      }
    }
  }

  /** If anything was merged, and hosts can be told apart, the groups are in order. */
  lemma OutcomeInOrder(ap: Appending, s: State, heads: seq<nat>, r: State)
    requires IsOutcome(ap, s, heads, r) && !NoDuplicates(KeysOf(s)) && HostsTellApart(Hosts(Elements(r.AsGroups())))
    ensures forall i, j | 0 <= i < j < |r.headers| :: GroupNotAfter(r.AsGroups()[i], r.AsGroups()[j])
  {
    SameElements(MergedState(ap, s, KeysOf(s), heads).AsGroups(), r.AsGroups());
    forall i, j | 0 <= i < j < |r.headers| ensures GroupNotAfter(r.AsGroups()[i], r.AsGroups()[j]) {
      GroupOrderMeans(r.AsGroups()[i], r.AsGroups()[j]);
    }
  }

  lemma {:induction false} IncreasingUnique(a: seq<nat>, b: seq<nat>)
    requires forall i, j | 0 <= i < j < |a| :: a[i] < a[j]
    requires forall i, j | 0 <= i < j < |b| :: b[i] < b[j]
    requires forall k: nat :: k in a <==> k in b
    ensures a == b
  {
    NoDuplicatesCardinality(a, Elements(a));
    NoDuplicatesCardinality(b, Elements(b));
    assert Elements(a) == Elements(b);
    if a != [] {
      var p, q := |a| - 1, |b| - 1;
      assert a[p] in b && b[q] in a;
      assert a[p] == b[q];
      forall k: nat ensures k in a[..p] <==> k in b[..q] {
        assert k in a <==> k in a[..p] || k == a[p];
        assert k in b <==> k in b[..q] || k == b[q];
      }
      IncreasingUnique(a[..p], b[..q]);
      assert a == a[..p] + [a[p]] && b == b[..q] + [b[q]];
    }
  }

  /** Every host of the outcome is a host that there was. */
  lemma OutcomeHosts(ap: Appending, grow: Growth, s: State, heads: seq<nat>, r: State)
    requires IsAppend(ap, grow) && s.AllFit() && IsOutcome(ap, s, heads, r)
    ensures Hosts(Elements(r.AsGroups())) <= Hosts(Elements(s.AsGroups()))
  {
    forall g | g in r.AsGroups() ensures g.host in Hosts(Elements(s.AsGroups())) {
      var k, j := OutcomeGroup(ap, grow, s, heads, r, g);
      assert s.AsGroups()[k] in Elements(s.AsGroups());
    }
  }

  /** The part of a sorted sequence that is in front is in order. */
  lemma SortedFront(cs: seq<Command>, n: nat)
    requires Sorted(CompareCommands, cs) && n <= |cs|
    ensures Sorted(CompareCommands, cs[..n]) && SortedCs(cs[..n]) == cs[..n]
  {
    var front := cs[..n];
    SortedIsStable(front);
    CommandPreorder(Elements(front));
    StableSortUnique(CompareCommands, front, front, SortedCs(front));
  }

  lemma SortedWithin(st: Store, s: Slice, t: Slice)
    requires Fits(st, s) && Fits(st, t) && t.id == s.id && t.len <= s.len
    ensures Content(SortedSlice(st, s), t) == SortedCs(Content(st, s))[..t.len]
  {
    var cs := SortedCs(Content(st, s));
    assert SortedSlice(st, s)[s.id] == [] + cs + st[s.id][s.len..];
  }

  lemma SortedBeyond(st: Store, s: Slice, t: Slice)
    requires Fits(st, s) && Fits(st, t) && t.id == s.id && s.len <= t.len
    requires SortedCs(Content(st, s)) == Content(st, s)
    ensures SortedSlice(st, s) == st
  {
    assert st[s.id][..0] + Content(st, s) + st[s.id][s.len..] == st[s.id];
  }

  /** Sorting one slice in place puts those in front of it in order, and leaves
      those in order that go further. */
  lemma SortedStays(st: Store, s: Slice, t: Slice)
    requires Fits(st, s) && Fits(st, t)
    requires t == s || Sorted(CompareCommands, Content(st, t))
    ensures Sorted(CompareCommands, Content(SortedSlice(st, s), t))
  {
    if t.id == s.id && t.len <= s.len {
      SortedIsStable(Content(st, s));
      SortedWithin(st, s, t);
      SortedFront(SortedCs(Content(st, s)), t.len);
    } else if t.id == s.id {
      SortedFront(Content(st, t), s.len);
      assert Content(st, t)[..s.len] == Content(st, s);
      SortedBeyond(st, s, t);
    } else {
      SortedOne(st, s, t);
    }
  }

  /** Slices sorted in place, one after another, are all in order in the end,
      whichever of them share an array. */
  lemma {:induction false} SortedEach(st: Store, slices: seq<Slice>, t: Slice)
    requires t in slices && forall k | 0 <= k < |slices| :: Fits(st, slices[k])
    ensures Sorted(CompareCommands, Content(SortedAll(st, slices), t))
  {
    var init, last := slices[..|slices| - 1], slices[|slices| - 1];
    assert slices == init + [last];
    SortedFits(st, init);
    assert Fits(st, slices[|slices| - 1]) && Fits(st, t);
    if t != last {
      SortedEach(st, init, t);
    }
    SortedStays(SortedAll(st, init), last, t);
  }

  /** If anything was merged, the commands of every group are in order. */
  lemma OutcomeSorted(ap: Appending, grow: Growth, s: State, heads: seq<nat>, r: State, g: Group)
    requires IsAppend(ap, grow) && s.AllFit() && !NoDuplicates(KeysOf(s)) && IsOutcome(ap, s, heads, r) && g in r.AsGroups()
    ensures Sorted(CompareCommands, g.commands) && CommandsInOrder(g.commands)
  {
    CommandOrderMeans(g.commands);
    var m, merged := MergedFrom(ap, s, KeysOf(s), 0), MergedState(ap, s, KeysOf(s), heads).AsGroups();
    FromFits(ap, grow, s, KeysOf(s), 0);
    SameElements(merged, r.AsGroups());
    assert g in Elements(r.AsGroups());
    var i :| 0 <= i < |merged| && merged[i] == g;
    var slices := SlicesOf(Picked(m.headers, heads));
    forall k | 0 <= k < |slices| ensures Fits(m.store, slices[k]) {
      assert Fits(m.store, m.headers[heads[k]].slice);
    }
    SortedEach(m.store, slices, slices[i]);
  }

  // ----- nothing is invented

  ghost predicate Within(st: Store, t: Slice, all: set<Command>) {
    forall c | c in Content(st, t) :: c in all
  }

  ghost predicate AllWithin(s: State, all: set<Command>) {
    s.AllFit() && forall k | 0 <= k < |s.headers| :: Within(s.store, s.headers[k].slice, all)
  }

  lemma WriteWithin(st: Store, id: nat, at: nat, cs: seq<Command>, t: Slice, all: set<Command>)
    requires id < |st| && at + |cs| <= |st[id]| && forall c | c in cs :: c in all
    requires Fits(st, t) && Within(st, t, all)
    ensures Within(Write(st, id, at, cs), t, all)
  {
    var r := Write(st, id, at, cs);
    forall i | 0 <= i < t.len ensures r[t.id][i] in all {
      if t.id == id && at <= i < at + |cs| {
        assert r[t.id][i] == cs[i - at];
      } else {
        assert r[t.id][i] == st[t.id][i] == Content(st, t)[i];
      }
    }
  }

  /** What is appended may be written over what others see, but only commands
      that were there are seen. */
  lemma AppendWithin(ap: Appending, grow: Growth, st: Store, s: Slice, cs: seq<Command>, t: Slice, all: set<Command>)
    requires IsAppend(ap, grow) && Fits(st, s) && Within(st, s, all) && forall c | c in cs :: c in all
    requires Fits(st, t) && Within(st, t, all)
    ensures Within(ap(st, s, cs).0, t, all) && Within(ap(st, s, cs).0, ap(st, s, cs).1, all)
  {
    AppendContent(ap, grow, st, s, cs);
    assert IsAppended(st, s, cs, grow, ap(st, s, cs).0, ap(st, s, cs).1);
    if cs != [] && s.len + |cs| <= Capacity(st, s) {
      WriteWithin(st, s.id, s.len, cs, t, all);
    } else {
      AppendKeeps(ap, grow, st, s, cs, t);
      assert cs != [] ==> ap(st, s, cs).0[t.id] == st[t.id];
    }
  }

  lemma IntoWithin(ap: Appending, grow: Growth, s: State, h: nat, i: nat, all: set<Command>)
    requires IsAppend(ap, grow) && AllWithin(s, all) && h < |s.headers| && i < |s.headers|
    ensures AllWithin(MergedInto(ap, s, h, i), all)
  {
    IntoFits(ap, grow, s, h, i);
    var a, b := s.headers[h].slice, s.headers[i].slice;
    forall k | 0 <= k < |s.headers| ensures Within(MergedInto(ap, s, h, i).store, MergedInto(ap, s, h, i).headers[k].slice, all) {
      assert Within(s.store, s.headers[k].slice, all);
      AppendWithin(ap, grow, s.store, a, Content(s.store, b), s.headers[k].slice, all);
      AppendWithin(ap, grow, s.store, b, Content(s.store, a), s.headers[k].slice, all);
    }
  }

  lemma {:induction false} FromWithin(ap: Appending, grow: Growth, s: State, keys: seq<string>, n: nat, all: set<Command>)
    requires IsAppend(ap, grow) && AllWithin(s, all) && n <= |keys| == |s.headers|
    ensures AllWithin(MergedFrom(ap, s, keys, n), all)
    decreases |keys| - n
  {
    if n < |keys| {
      IntoWithin(ap, grow, s, FirstOf(keys, keys[n]), n, all);
      FromWithin(ap, grow, MergedOne(ap, s, keys, n), keys, n + 1, all);
    }
  }

  lemma SliceWithin(st: Store, s: Slice, t: Slice, all: set<Command>)
    requires Fits(st, s) && Within(st, s, all) && Fits(st, t) && Within(st, t, all)
    ensures Within(SortedSlice(st, s), t, all)
  {
    var cs := SortedCs(Content(st, s));
    forall c | c in cs ensures c in all {
      assert c in multiset(cs);
      assert c in Content(st, s);
    }
    WriteWithin(st, s.id, 0, cs, t, all);
  }

  lemma {:induction false} SortedWithinAll(st: Store, slices: seq<Slice>, t: Slice, all: set<Command>)
    requires forall k | 0 <= k < |slices| :: Fits(st, slices[k]) && Within(st, slices[k], all)
    requires Fits(st, t) && Within(st, t, all)
    ensures Within(SortedAll(st, slices), t, all)
  {
    if slices != [] {
      var init, last := slices[..|slices| - 1], slices[|slices| - 1];
      SortedFits(st, init);
      assert Fits(st, slices[|slices| - 1]) && Within(st, last, all);
      SortedWithinAll(st, init, last, all);
      SortedWithinAll(st, init, t, all);
      SliceWithin(SortedAll(st, init), last, t, all);
    }
  }

  /** Every command of the outcome was some group's: those that are lost are
      replaced by others, not by what was left in the room. */
  lemma OutcomeInventsNothing(ap: Appending, grow: Growth, s: State, heads: seq<nat>, r: State, g: Group, c: Command)
    requires IsAppend(ap, grow) && s.AllFit() && IsOutcome(ap, s, heads, r) && g in r.AsGroups() && c in g.commands
    ensures exists from :: from in s.AsGroups() && c in from.commands
  {
    if NoDuplicates(KeysOf(s)) {
      return;
    }
    var all := set g, c | g in s.AsGroups() && c in g.commands :: c;
    forall k | 0 <= k < |s.headers| ensures Within(s.store, s.headers[k].slice, all) {
      assert s.AsGroups()[k] in s.AsGroups();
    }
    FromWithin(ap, grow, s, KeysOf(s), 0, all);
    OutcomeWithin(ap, s, heads, r, g, all);
    assert c in all;
  }

  lemma OutcomeWithin(ap: Appending, s: State, heads: seq<nat>, r: State, g: Group, all: set<Command>)
    requires !NoDuplicates(KeysOf(s)) && IsOutcome(ap, s, heads, r) && g in r.AsGroups()
    requires AllWithin(MergedFrom(ap, s, KeysOf(s), 0), all)
    ensures forall c | c in g.commands :: c in all
  {
    var m, merged := MergedFrom(ap, s, KeysOf(s), 0), MergedState(ap, s, KeysOf(s), heads).AsGroups();
    SameElements(merged, r.AsGroups());
    assert g in Elements(r.AsGroups());
    var i :| 0 <= i < |merged| && merged[i] == g;
    SlicesWithin(m, heads, i, all);
  }

  lemma SlicesWithin(m: State, heads: seq<nat>, i: nat, all: set<Command>)
    requires AllWithin(m, all) && i < |heads| && forall k | 0 <= k < |heads| :: heads[k] < |m.headers|
    ensures var slices := SlicesOf(Picked(m.headers, heads)); Within(SortedAll(m.store, slices), slices[i], all)
  {
    var slices := SlicesOf(Picked(m.headers, heads));
    forall k | 0 <= k < |slices| ensures Fits(m.store, slices[k]) && Within(m.store, slices[k], all) {
      assert Fits(m.store, m.headers[heads[k]].slice);
    }
    SortedWithinAll(m.store, slices, slices[i], all);
  }
}
