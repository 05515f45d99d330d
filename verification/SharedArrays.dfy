/** When merging on slices that share arrays comes to what merging values does
    (subexec/subexec.go, subexec/group.go). */
module SharedArrays {
  import opened Prelude
  import opened Ordering
  import opened Dots
  import opened Groups
  import opened MergeGroups
  import opened MergeLaws
  import opened Slices
  import opened Configurations
  import opened Sums

  /** A group that appending cannot write behind where others look: it has no
      alias copies, or there is no room behind its commands. */
  predicate Tight(g: Group, spare: int, includeLocal: bool, hostname: string) {
    Skipped(g, includeLocal, hostname) || g.aliases == [] || spare == 0
  }

  ghost predicate TightAt(s: State, k: nat, includeLocal: bool, hostname: string)
    requires k < |s.headers|
  {
    Tight(s.headers[k].group, SpareOf(s, k), includeLocal, hostname)
  }

  ghost predicate AllTight(s: State, includeLocal: bool, hostname: string) {
    forall k | 0 <= k < |s.headers| :: TightAt(s, k, includeLocal, hostname)
  }

  // ----- expansion

  lemma {:induction false} ExpandedValues(s: State, includeLocal: bool, hostname: string)
    ensures ExpandedState(s, includeLocal, hostname).AsGroups() == Expanded(s.AsGroups(), includeLocal, hostname)
    decreases |s.headers|
  {
    if s.headers != [] {
      var k := |s.headers| - 1;
      var init, h := s.(headers := s.headers[..k]), s.headers[k];
      ExpandedValues(init, includeLocal, hostname);
      assert s.AsGroups()[..k] == init.AsGroups();
      var block := if Skipped(h.group, includeLocal, hostname) then [] else [h] + HeaderCopies(h);
      BlockValues(s.store, h);
      GroupsConcat(s.store, ExpandedHeaders(init.headers, includeLocal, hostname), block);
    }
  }

  lemma GroupsConcat(st: Store, a: seq<Header>, b: seq<Header>)
    ensures State(st, a + b).AsGroups() == State(st, a).AsGroups() + State(st, b).AsGroups()
  {
  }

  lemma BlockValues(st: Store, h: Header)
    ensures State(st, [h] + HeaderCopies(h)).AsGroups() == [Read(st, h)] + AliasCopies(Read(st, h))
  {
  }

  /** The slices at j and k are on different arrays, or fill one together. */
  ghost predicate Apart(s: State, j: nat, k: nat)
    requires j < |s.headers| && k < |s.headers|
  {
    var a, b := s.headers[j].slice, s.headers[k].slice;
    a.id == b.id ==> Full(s.store, a) && Full(s.store, b)
  }

  /** Where an expanded group's slice comes from. */
  ghost predicate ComesFrom(s: State, e: State, j: nat)
    requires j < |e.headers|
  {
    exists o | 0 <= o < |s.headers| :: e.headers[j].slice == s.headers[o].slice
  }

  lemma {:induction false} ExpandedApart(s: State, includeLocal: bool, hostname: string)
    requires s.Separate() && AllTight(s, includeLocal, hostname)
    ensures var e := ExpandedState(s, includeLocal, hostname);
            && (forall j | 0 <= j < |e.headers| :: ComesFrom(s, e, j))
            && forall j, k | 0 <= j < |e.headers| && 0 <= k < |e.headers| && j != k :: Apart(e, j, k)
    decreases |s.headers|
  {
    if s.headers != [] {
      var n := |s.headers| - 1;
      var init, h := s.(headers := s.headers[..n]), s.headers[n];
      forall k | 0 <= k < n ensures TightAt(init, k, includeLocal, hostname) {
        assert TightAt(s, k, includeLocal, hostname);
      }
      ExpandedApart(init, includeLocal, hostname);
      assert TightAt(s, n, includeLocal, hostname);
      BlockApart(s, init, includeLocal, hostname);
    }
  }

  lemma BlockApart(s: State, init: State, includeLocal: bool, hostname: string)
    requires s.Separate() && s.headers != [] && init == s.(headers := s.headers[..|s.headers| - 1])
    requires TightAt(s, |s.headers| - 1, includeLocal, hostname)
    requires var e := ExpandedState(init, includeLocal, hostname);
             && (forall j | 0 <= j < |e.headers| :: ComesFrom(init, e, j))
             && forall j, k | 0 <= j < |e.headers| && 0 <= k < |e.headers| && j != k :: Apart(e, j, k)
    ensures var e := ExpandedState(s, includeLocal, hostname);
            && (forall j | 0 <= j < |e.headers| :: ComesFrom(s, e, j))
            && forall j, k | 0 <= j < |e.headers| && 0 <= k < |e.headers| && j != k :: Apart(e, j, k)
  {
    var n := |s.headers| - 1;
    var h := s.headers[n];
    var before, e := ExpandedState(init, includeLocal, hostname), ExpandedState(s, includeLocal, hostname);
    var m := |before.headers|;
    forall j | 0 <= j < |e.headers|
      ensures ComesFrom(s, e, j)
      ensures j < m ==> e.headers[j] == before.headers[j] && e.headers[j].slice.id != h.slice.id
      ensures j >= m ==> e.headers[j].slice == h.slice
    {
      if j < m {
        assert ComesFrom(init, before, j);
        var o :| 0 <= o < n && before.headers[j].slice == s.headers[o].slice;
      } else {
        assert s.headers[n] == h;
      }
    }
    forall j, k | 0 <= j < |e.headers| && 0 <= k < |e.headers| && j != k ensures Apart(e, j, k) {
      if j < m && k < m {
        assert Apart(before, j, k);
      }
    }
  }

  // ----- merging

  /** No group that still matters shares an array with room in it. */
  ghost predicate LiveApart(s: State, keys: seq<string>, n: nat)
    requires |keys| == |s.headers|
  {
    forall j, k | 0 <= j < |keys| && 0 <= k < |keys| && j != k && Live(keys, n, j) && Live(keys, n, k) :: Apart(s, j, k)
  }

  /** Appending to one of two groups and giving the result to one of them: the
      others are as they were, and the new slice is apart from theirs. */
  lemma AppendApart(ap: Appending, grow: Growth, s: State, base: nat, cs: seq<Command>, k: nat)
    requires IsAppend(ap, grow) && s.AllFit() && base < |s.headers| && k < |s.headers| && k != base && Apart(s, base, k)
    ensures var (st, slice) := ap(s.store, s.headers[base].slice, cs);
            var t := s.headers[k].slice;
            && Content(st, t) == Content(s.store, t) && Capacity(st, t) == Capacity(s.store, t)
            && (slice.id == t.id ==> Full(st, slice) && Full(st, t))
  {
    assert Fits(s.store, s.headers[base].slice) && Fits(s.store, s.headers[k].slice);
    AppendKeeps(ap, grow, s.store, s.headers[base].slice, cs, s.headers[k].slice);
    AppendPlace(ap, grow, s.store, s.headers[base].slice, cs);
  }

  /** What merging the group at i into the one at h leaves of a third. */
  lemma IntoOthers(ap: Appending, grow: Growth, s: State, h: nat, i: nat, k: nat)
    requires IsAppend(ap, grow) && s.AllFit() && h < |s.headers| && i < |s.headers|
    requires k < |s.headers| && k != h && k != i && Apart(s, h, k) && Apart(s, i, k)
    ensures var r := MergedInto(ap, s, h, i);
            && r.headers[k] == s.headers[k] && r.AsGroups()[k] == s.AsGroups()[k]
            && Capacity(r.store, s.headers[k].slice) == Capacity(s.store, s.headers[k].slice)
            && Apart(r, h, k)
  {
    var cg, rhv := s.headers[h], s.headers[i];
    AppendApart(ap, grow, s, h, Content(s.store, rhv.slice), k);
    AppendApart(ap, grow, s, i, Content(s.store, cg.slice), k);
  }

  /** What it makes of the first. */
  lemma IntoFirst(ap: Appending, grow: Growth, s: State, h: nat, i: nat)
    requires IsAppend(ap, grow) && s.AllFit() && h < |s.headers| && i < |s.headers|
    ensures var a, b := s.AsGroups()[h], s.AsGroups()[i];
            MergedInto(ap, s, h, i).AsGroups()[h] == if Accepts(a, b) then Merge(a, b) else a
  {
    var cg, rhv := s.headers[h], s.headers[i];
    assert Fits(s.store, cg.slice) && Fits(s.store, rhv.slice);
    AppendContent(ap, grow, s.store, cg.slice, Content(s.store, rhv.slice));
    AppendContent(ap, grow, s.store, rhv.slice, Content(s.store, cg.slice));
  }

  lemma IntoApart(ap: Appending, grow: Growth, s: State, keys: seq<string>, h: nat, i: nat)
    requires IsAppend(ap, grow) && s.AllFit() && |keys| == |s.headers| && h < i < |keys|
    requires keys[h] == keys[i] && IsFirst(keys, h) && LiveApart(s, keys, i)
    ensures var r := MergedInto(ap, s, h, i);
            && LiveApart(r, keys, i + 1)
            && forall k | 0 <= k < |keys| && k != h && Live(keys, i + 1, k) :: r.AsGroups()[k] == s.AsGroups()[k]
  {
    var r := MergedInto(ap, s, h, i);
    assert Live(keys, i, h) && Live(keys, i, i);
    forall k | 0 <= k < |keys| && k != h && Live(keys, i + 1, k)
      ensures r.headers[k] == s.headers[k] && r.AsGroups()[k] == s.AsGroups()[k] && Apart(r, h, k) && Live(keys, i, k)
      ensures Capacity(r.store, s.headers[k].slice) == Capacity(s.store, s.headers[k].slice)
    {
      assert k != i;
      assert Live(keys, i, k);
      assert Apart(s, h, k) && Apart(s, i, k);
      IntoOthers(ap, grow, s, h, i, k);
    }
    forall j, k | 0 <= j < |keys| && 0 <= k < |keys| && j != k && Live(keys, i + 1, j) && Live(keys, i + 1, k)
      ensures Apart(r, j, k)
    {
      if j != h && k != h {
        assert Apart(s, j, k);
      } else if j != h {
        assert Apart(r, h, j);
      }
    }
  }

  /** After n groups, what still matters is what merging values makes of w. */
  ghost predicate Faithful(w: seq<Group>, s: State, keys: seq<string>, n: nat) {
    && |keys| == |s.headers| == |w| && n <= |w|
    && s.AllFit() && LiveApart(s, keys, n) && MergedSoFar(w, keys, n, s.AsGroups())
  }

  /** Merging slices comes to merging values while no live group shares an array
      with room in it. */
  lemma {:induction false} MergedValues(ap: Appending, grow: Growth, w: seq<Group>, s: State, keys: seq<string>, n: nat)
    returns (m: State)
    requires IsAppend(ap, grow) && Faithful(w, s, keys, n)
    ensures m == MergedFrom(ap, s, keys, n) && Faithful(w, m, keys, |keys|)
    decreases |keys| - n
  {
    if n == |keys| {
      m := s;
    } else {
      var r := MergedOne(ap, s, keys, n);
      ValuesStep(ap, grow, w, s, keys, n, r);
      m := MergedValues(ap, grow, w, r, keys, n + 1);
    }
  }

  lemma ValuesStep(ap: Appending, grow: Growth, w: seq<Group>, s: State, keys: seq<string>, n: nat, r: State)
    requires IsAppend(ap, grow) && n < |keys| && Faithful(w, s, keys, n)
    requires r == MergedOne(ap, s, keys, n)
    ensures Faithful(w, r, keys, n + 1)
  {
    var at := FirstOf(keys, keys[n]);
    if at == n {
      LiveLater(s, keys, n);
      MergeStep(w, keys, n, s.AsGroups(), s.AsGroups());
    } else {
      IntoFits(ap, grow, s, at, n);
      IntoFirst(ap, grow, s, at, n);
      IntoApart(ap, grow, s, keys, at, n);
      MergeStep(w, keys, n, s.AsGroups(), r.AsGroups());
    }
  }

  lemma LiveLater(s: State, keys: seq<string>, n: nat)
    requires |keys| == |s.headers| && LiveApart(s, keys, n)
    ensures LiveApart(s, keys, n + 1)
  {
    forall j, k | 0 <= j < |keys| && 0 <= k < |keys| && j != k && Live(keys, n + 1, j) && Live(keys, n + 1, k)
      ensures Apart(s, j, k)
    {
      assert Live(keys, n, j) && Live(keys, n, k);
    }
  }

  // ----- sorting

  function SortedCs(cs: seq<Command>): seq<Command> {
    InsertionSort(CompareCommands, cs)
  }

  lemma SortedTwice(cs: seq<Command>)
    ensures SortedCs(SortedCs(cs)) == SortedCs(cs)
  {
    var r := SortedCs(cs);
    SortedIsStable(cs);
    SortedIsStable(r);
    CommandPreorder(Elements(r));
    StableSortUnique(CompareCommands, r, r, SortedCs(r));
  }

  lemma SortedOne(st: Store, s: Slice, t: Slice)
    requires Fits(st, s) && Fits(st, t) && (t == s || t.id != s.id)
    ensures Content(SortedSlice(st, s), t) == if t == s then SortedCs(Content(st, s)) else Content(st, t)
  {
  }

  /** Sorting slices in place sorts each, if those on one array are the same. */
  lemma {:induction false} SortedContents(st: Store, slices: seq<Slice>, t: Slice)
    requires Fits(st, t) && forall k | 0 <= k < |slices| :: Fits(st, slices[k]) && (slices[k] == t || slices[k].id != t.id)
    ensures Content(SortedAll(st, slices), t) == if t in slices then SortedCs(Content(st, t)) else Content(st, t)
  {
    if slices != [] {
      var init, last := slices[..|slices| - 1], slices[|slices| - 1];
      assert slices == init + [last];
      SortedContents(st, init, t);
      SortedFits(st, init);
      assert Fits(st, slices[|slices| - 1]);
      SortedOne(SortedAll(st, init), last, t);
      SortedTwice(Content(st, t));
    }
  }

  /** The merged groups, their slices sorted in place, are the merged values with
      their commands sorted. */
  lemma SortedValues(ap: Appending, grow: Growth, s: State, heads: seq<nat>)
    requires IsAppend(ap, grow) && s.AllFit() && LiveApart(s, KeysOf(s), 0)
    requires AreHeads(KeysOf(s), heads) && forall i | 0 <= i < |heads| :: heads[i] < |s.headers|
    ensures AreMerged(s.AsGroups(), KeysOf(s), heads, MergedState(ap, s, KeysOf(s), heads).AsGroups())
  {
    var keys, w := KeysOf(s), s.AsGroups();
    assert Faithful(w, s, keys, 0);
    var m := MergedValues(ap, grow, w, s, keys, 0);
    HeadsWithin(keys, heads);
    var merged := MergedState(ap, s, keys, heads).AsGroups();
    forall i | 0 <= i < |heads| ensures CommandsSorted(MergedUpTo(w, keys, heads[i], |w|), merged[i]) {
      assert m.AsGroups()[heads[i]] == MergedUpTo(w, keys, heads[i], |w|);
      HeadSorted(m, keys, heads, i);
    }
  }

  lemma HeadSorted(m: State, keys: seq<string>, heads: seq<nat>, i: nat)
    requires m.AllFit() && |keys| == |m.headers| && LiveApart(m, keys, |keys|)
    requires AreHeads(keys, heads) && i < |heads|
    requires forall i | 0 <= i < |heads| :: heads[i] < |keys| && IsFirst(keys, heads[i])
    ensures var picked := Picked(m.headers, heads);
            CommandsSorted(m.AsGroups()[heads[i]], Read(SortedAll(m.store, SlicesOf(picked)), picked[i]))
  {
    var slices := SlicesOf(Picked(m.headers, heads));
    assert Fits(m.store, m.headers[heads[i]].slice);
    forall k | 0 <= k < |slices| ensures Fits(m.store, slices[k]) && (slices[k] == slices[i] || slices[k].id != slices[i].id) {
      assert Fits(m.store, m.headers[heads[k]].slice);
      assert Live(keys, |keys|, heads[k]) && Live(keys, |keys|, heads[i]);
      if k != i {
        assert heads[k] != heads[i];
        assert Apart(m, heads[k], heads[i]);
      }
    }
    SortedContents(m.store, slices, slices[i]);
    SortedIsStable(Content(m.store, slices[i]));
  }

  // ----- the whole of it

  /** Merging comes to what merging values does, if every group that has alias
      copies fills its array. */
  lemma ValuesHold(
    ap: Appending, grow: Growth, s: State, includeLocal: bool, hostname: string, heads: seq<nat>, r: State)
    returns (merged: seq<Group>)
    requires IsAppend(ap, grow) && s.Separate() && AllTight(s, includeLocal, hostname)
    requires IsOutcome(ap, ExpandedState(s, includeLocal, hostname), heads, r)
    ensures AreResolved(Expanded(s.AsGroups(), includeLocal, hostname), heads, merged, r.AsGroups())
  {
    var e := ExpandedState(s, includeLocal, hostname);
    ExpandedValues(s, includeLocal, hostname);
    ExpandedApart(s, includeLocal, hostname);
    ExpandedFits(s, includeLocal, hostname);
    merged := [];
    if !NoDuplicates(KeysOf(e)) {
      merged := MergedState(ap, e, KeysOf(e), heads).AsGroups();
      SortedValues(ap, grow, e, heads);
    }
  }

  // ----- room behind shared commands loses some

  const LOST := Command("x", "", "", "x", false, 0, "")
  const LATER := Command("y", "", "", "y", false, 0, "")

  /** A group of one command beside another group. */
  function Beside(g: Group, name: string, c: Command): Group {
    Group(g.category, name, [], "", NoHost, [c], [], g.sortHint, false)
  }

  /** r has the group's category and hint, and this name and these commands. */
  ghost predicate StandsBeside(g: Group, r: Group, name: string, cs: seq<Command>) {
    r.category == g.category && r.name == name && r.sortHint == g.sortHint && r.commands == cs
  }

  /** A group with aliases and room behind its commands, and after it one group of
      its name and one of its first alias's, each with one command. */
  ghost predicate IsRoomy(g: Group, lost: Command, later: Command, s: State, includeLocal: bool, hostname: string) {
    && s.Separate() && |s.headers| == 3 && g.aliases != []
    && s.AsGroups()[0] == g && SpareOf(s, 0) > 0
    && StandsBeside(g, s.AsGroups()[1], g.name, [lost]) && StandsBeside(g, s.AsGroups()[2], g.aliases[0], [later])
    && s.headers[1].group.aliases == s.headers[2].group.aliases == []
    && forall k | 0 <= k < 3 :: !Skipped(s.headers[k].group, includeLocal, hostname)
  }

  function LossyState(g: Group, spare: nat): State
    requires g.aliases != []
  {
    State([g.commands + Blanks(spare), [LOST], [LATER]],
          [Header(g, Slice(0, |g.commands|)), Header(Beside(g, g.name, LOST), Slice(1, 1)),
           Header(Beside(g, g.aliases[0], LATER), Slice(2, 1))])
  }

  /** There is such a configuration for every group that is not tight. */
  lemma LossyIsRoomy(g: Group, spare: nat, includeLocal: bool, hostname: string)
    requires !Tight(g, spare, includeLocal, hostname)
    ensures IsRoomy(g, LOST, LATER, LossyState(g, spare), includeLocal, hostname)
  {
  }

  lemma RoomyExpanded(hs: seq<Header>, includeLocal: bool, hostname: string)
    requires |hs| == 3 && hs[1].group.aliases == hs[2].group.aliases == []
    requires forall k | 0 <= k < 3 :: !Skipped(hs[k].group, includeLocal, hostname)
    ensures ExpandedHeaders(hs, includeLocal, hostname) == [hs[0]] + HeaderCopies(hs[0]) + [hs[1], hs[2]]
  {
    assert hs[..0] == [] && hs[..3] == hs;
    ExpandedOneMore(hs, 2, includeLocal, hostname);
    ExpandedOneMore(hs, 1, includeLocal, hostname);
    ExpandedOneMore(hs, 0, includeLocal, hostname);
  }

  lemma ExpandedOneMore(hs: seq<Header>, k: nat, includeLocal: bool, hostname: string)
    requires k < |hs|
    ensures ExpandedHeaders(hs[..k + 1], includeLocal, hostname) ==
            ExpandedHeaders(hs[..k], includeLocal, hostname) +
            if Skipped(hs[k].group, includeLocal, hostname) then [] else [hs[k]] + HeaderCopies(hs[k])
  {
    assert hs[..k + 1][..k] == hs[..k];
  }

  /** The expanded groups: the group, its copies, and the two beside it. */
  ghost predicate IsLossy(g: Group, lost: Command, later: Command, e: State) {
    var m := |g.aliases|;
    && m > 0 && |e.headers| == m + 3 && e.AllFit()
    && (forall k | 0 <= k < m + 1 :: IsCopy(g, e, k))
    && StandsBeside(g, e.AsGroups()[m + 1], g.name, [lost]) && StandsBeside(g, e.AsGroups()[m + 2], g.aliases[0], [later])
    && var a, b, c := e.headers[0].slice, e.headers[m + 1].slice, e.headers[m + 2].slice;
       a.id != b.id && a.id != c.id && b.id != c.id && !Full(e.store, a)
  }

  ghost predicate IsCopy(g: Group, e: State, k: nat)
    requires k < |e.headers| && k <= |g.aliases|
  {
    StandsBeside(g, e.AsGroups()[k], ([g.name] + g.aliases)[k], g.commands) && e.headers[k].slice == e.headers[0].slice
  }

  lemma RoomyIsLossy(g: Group, lost: Command, later: Command, s: State, includeLocal: bool, hostname: string)
    requires IsRoomy(g, lost, later, s, includeLocal, hostname)
    ensures IsLossy(g, lost, later, ExpandedState(s, includeLocal, hostname))
  {
    RoomyExpanded(s.headers, includeLocal, hostname);
    ExpandedFits(s, includeLocal, hostname);
    var e, h, m := ExpandedState(s, includeLocal, hostname), s.headers[0], |g.aliases|;
    assert e.headers[0] == h && e.headers[m + 1] == s.headers[1] && e.headers[m + 2] == s.headers[2];
    assert Read(s.store, h) == g;
    forall k | 0 <= k < m + 1 ensures IsCopy(g, e, k) {
      assert k > 0 ==> e.headers[k] == HeaderCopies(h)[k - 1];
    }
    assert Fits(s.store, h.slice);
  }

  /** The two groups beside have the first keys; up to them the keys differ. */
  lemma LossyKeys(g: Group, lost: Command, later: Command, e: State)
    requires IsLossy(g, lost, later, e) && NoDuplicates([g.name] + g.aliases)
    ensures var keys, m := KeysOf(e), |g.aliases|;
            && (forall j, k | 0 <= j < k < m + 1 :: keys[j] != keys[k])
            && keys[m + 1] == keys[0] == g.Key() && keys[m + 2] == keys[1]
            && FirstOf(keys, keys[m + 1]) == 0 && FirstOf(keys, keys[m + 2]) == 1
  {
    var keys, m, names := KeysOf(e), |g.aliases|, [g.name] + g.aliases;
    forall j | 0 <= j < m + 1 ensures keys[j] == DotJoin([g.category, names[j]]) {
      KeyAt(e, j);
      assert IsCopy(g, e, j);
    }
    KeyAt(e, m + 1);
    KeyAt(e, m + 2);
    forall j, k | 0 <= j < k < m + 1 ensures keys[j] != keys[k] {
      if keys[j] == keys[k] {
        KeyDeterminesName(g.category, names[j], names[k]);
      }
    }
  }

  /** Merging when there is room: the one command is written behind the first
      group's. */
  lemma IntoRoom(ap: Appending, grow: Growth, s: State, h: nat, i: nat, c: Command)
    requires IsAppend(ap, grow) && h < |s.headers| && i < |s.headers| && Fits(s.store, s.headers[h].slice)
    requires Accepts(s.headers[h].group, s.headers[i].group) && s.headers[h].group.sortHint == s.headers[i].group.sortHint
    requires Content(s.store, s.headers[i].slice) == [c]
    requires s.headers[h].slice.len < Capacity(s.store, s.headers[h].slice)
    ensures var a, r := s.headers[h].slice, MergedInto(ap, s, h, i);
            && r.store == Write(s.store, a.id, a.len, [c])
            && r.headers[h].slice == Slice(a.id, a.len + 1)
            && forall k | 0 <= k < |s.headers| && k != h :: r.headers[k] == s.headers[k]
  {
    var a := s.headers[h].slice;
    assert IsAppended(s.store, a, [c], grow, ap(s.store, a, [c]).0, ap(s.store, a, [c]).1);
  }

  /** What is left on the first group's array, and which parts of it are in use. */
  ghost predicate IsSpoilt(g: Group, later: Command, m: State) {
    && m.AllFit() && m.headers != []
    && Content(m.store, m.headers[0].slice) == g.commands + [later]
    && forall k | 0 <= k < |m.headers| && m.headers[k].slice.id == m.headers[0].slice.id ::
         m.headers[k].slice.len <= m.headers[0].slice.len
  }

  lemma LossyMerged(ap: Appending, grow: Growth, g: Group, lost: Command, later: Command, e: State)
    requires IsAppend(ap, grow) && IsLossy(g, lost, later, e) && NoDuplicates([g.name] + g.aliases)
    ensures IsSpoilt(g, later, MergedFrom(ap, e, KeysOf(e), 0))
  {
    var keys, m := KeysOf(e), |g.aliases|;
    LossyKeys(g, lost, later, e);
    NothingMerged(ap, e, keys, 0, m + 1);
    assert IsCopy(g, e, 0) && IsCopy(g, e, 1);
    var a := e.headers[0].slice;
    assert Fits(e.store, a);
    IntoRoom(ap, grow, e, 0, m + 1, lost);
    var once := MergedOne(ap, e, keys, m + 1);
    SpoiltOnce(g, lost, later, e, once);
    IntoRoom(ap, grow, once, 1, m + 2, later);
    var twice := MergedOne(ap, once, keys, m + 2);
    SpoiltTwice(g, lost, later, e, once, twice);
    assert MergedFrom(ap, e, keys, m + 1) == MergedFrom(ap, once, keys, m + 2) == MergedFrom(ap, twice, keys, m + 3) == twice;
  }

  lemma SpoiltTwice(g: Group, lost: Command, later: Command, e: State, once: State, twice: State)
    requires IsLossy(g, lost, later, e) && |once.headers| == |e.headers| == |twice.headers|
    requires var a := e.headers[0].slice;
             && Fits(once.store, a) && a.len < Capacity(once.store, a)
             && twice.store == Write(once.store, a.id, a.len, [later])
             && once.headers[0].slice == twice.headers[1].slice == Slice(a.id, a.len + 1)
             && Content(once.store, a) == g.commands
    requires forall k | 0 < k < |e.headers| :: once.headers[k] == e.headers[k]
    requires forall k | 0 <= k < |e.headers| && k != 1 :: twice.headers[k] == once.headers[k]
    requires forall t | Fits(e.store, t) :: Fits(once.store, t)
    ensures IsSpoilt(g, later, twice)
  {
    var a, m := e.headers[0].slice, |g.aliases|;
    assert twice.store[a.id][..a.len + 1] == once.store[a.id][..a.len] + [later];
    forall k | 0 <= k < |e.headers|
      ensures Fits(twice.store, twice.headers[k].slice)
      ensures twice.headers[k].slice.id == a.id ==> twice.headers[k].slice.len <= a.len + 1
    {
      assert Fits(e.store, e.headers[k].slice);
      assert k < m + 1 ==> IsCopy(g, e, k);
    }
  }

  lemma SpoiltOnce(g: Group, lost: Command, later: Command, e: State, once: State)
    requires IsLossy(g, lost, later, e) && |once.headers| == |e.headers|
    requires var a := e.headers[0].slice; once.store == Write(e.store, a.id, a.len, [lost])
    requires forall k | 0 < k < |e.headers| :: once.headers[k] == e.headers[k]
    ensures var a := e.headers[0].slice;
            && Fits(once.store, a) && a.len < Capacity(once.store, a) && Content(once.store, a) == g.commands
    ensures Content(once.store, once.headers[|g.aliases| + 2].slice) == [later]
    ensures forall t | Fits(e.store, t) :: Fits(once.store, t)
  {
    assert IsCopy(g, e, 0);
    assert Fits(e.store, e.headers[0].slice);
  }

  /** Sorting slices of one array, none longer than len, keeps the first len
      elements but for their order. */
  lemma {:induction false} SortedKeeps(st: Store, slices: seq<Slice>, id: nat, len: nat)
    requires id < |st| && len <= |st[id]|
    requires forall k | 0 <= k < |slices| :: Fits(st, slices[k]) && (slices[k].id == id ==> slices[k].len <= len)
    ensures var r := SortedAll(st, slices);
            |r| == |st| && |r[id]| == |st[id]| && multiset(r[id][..len]) == multiset(st[id][..len])
  {
    if slices != [] {
      var init, last := slices[..|slices| - 1], slices[|slices| - 1];
      SortedKeeps(st, init, id, len);
      SortedFits(st, init);
      assert Fits(st, slices[|slices| - 1]) && (last.id == id ==> last.len <= len);
      SortedPrefix(SortedAll(st, init), last, id, len);
    }
  }

  lemma SortedPrefix(st: Store, s: Slice, id: nat, len: nat)
    requires id < |st| && len <= |st[id]| && Fits(st, s) && (s.id == id ==> s.len <= len)
    ensures var r := SortedSlice(st, s);
            |r[id]| == |st[id]| && multiset(r[id][..len]) == multiset(st[id][..len])
  {
    if s.id == id {
      var r, sorted := SortedSlice(st, s), SortedCs(Content(st, s));
      assert st[id][..len] == Content(st, s) + st[id][s.len..len];
      assert r[id][..len] == sorted + st[id][s.len..len];
    }
  }

  /** The group at 0 of spoilt groups, once the slices in use are sorted. */
  lemma SpoiltSorted(g: Group, later: Command, m: State, picked: seq<nat>, p: nat)
    requires IsSpoilt(g, later, m) && p < |picked| && picked[p] == 0
    requires forall i | 0 <= i < |picked| :: picked[i] < |m.headers|
    ensures var hs := Picked(m.headers, picked);
            multiset(Read(SortedAll(m.store, SlicesOf(hs)), hs[p]).commands) == multiset(g.commands) + multiset{later}
  {
    var hs, a := Picked(m.headers, picked), m.headers[0].slice;
    var slices := SlicesOf(hs);
    assert Fits(m.store, m.headers[0].slice);
    forall k | 0 <= k < |slices| ensures Fits(m.store, slices[k]) && (slices[k].id == a.id ==> slices[k].len <= a.len) {
      assert Fits(m.store, m.headers[picked[k]].slice);
    }
    SortedKeeps(m.store, slices, a.id, a.len);
  }

  lemma {:induction false} FromNames(ap: Appending, s: State, t: State, keys: seq<string>, n: nat)
    requires n <= |keys| == |t.headers| && SameNames(s, t)
    ensures SameNames(s, MergedFrom(ap, t, keys, n))
    decreases |keys| - n
  {
    if n < |keys| {
      var at := FirstOf(keys, keys[n]);
      if at < n {
        StepNames(ap, s, t, at, n);
      }
      FromNames(ap, s, MergedOne(ap, t, keys, n), keys, n + 1);
    }
  }

  /** The merged groups have different keys, those of their heads. */
  lemma MergedStateKeys(ap: Appending, s: State, heads: seq<nat>)
    requires AreHeads(KeysOf(s), heads) && forall i | 0 <= i < |heads| :: heads[i] < |s.headers|
    ensures forall i | 0 <= i < |heads| :: MergedState(ap, s, KeysOf(s), heads).AsGroups()[i].Key() == KeysOf(s)[heads[i]]
    ensures forall i, j | 0 <= i < |heads| && 0 <= j < |heads| && i != j :: KeysOf(s)[heads[i]] != KeysOf(s)[heads[j]]
  {
    var keys := KeysOf(s);
    HeadsWithin(keys, heads);
    FromNames(ap, s, s, keys, 0);
    var m := MergedFrom(ap, s, keys, 0);
    forall i | 0 <= i < |heads|
      ensures MergedState(ap, s, keys, heads).AsGroups()[i].Key() == keys[heads[i]] && IsFirst(keys, heads[i])
    {
      KeyAt(s, heads[i]);
      assert SameName(s.headers[heads[i]].group, m.headers[heads[i]].group);
    }
  }

  /** What the spoilt groups come to has the other command in place of the lost
      one. */
  lemma SpoiltOutcome(
    ap: Appending, grow: Growth, g: Group, lost: Command, later: Command, e: State, heads: seq<nat>, r: State)
    requires IsAppend(ap, grow) && IsLossy(g, lost, later, e) && NoDuplicates([g.name] + g.aliases)
    requires IsOutcome(ap, e, heads, r)
    ensures Under(r.AsGroups(), g.Key()) == multiset(g.commands) + multiset{later}
  {
    var keys := KeysOf(e);
    LossyKeys(g, lost, later, e);
    LossyMerged(ap, grow, g, lost, later, e);
    assert keys[0] == keys[|g.aliases| + 1];
    assert IsFirst(keys, 0) && 0 in heads;
    var p :| 0 <= p < |heads| && heads[p] == 0;
    SpoiltSorted(g, later, MergedFrom(ap, e, keys, 0), heads, p);
    MergedStateKeys(ap, e, heads);
    var merged := MergedState(ap, e, keys, heads).AsGroups();
    TotalPermuted(Share(g.Key()), r.AsGroups(), merged);
    TotalOne(Share(g.Key()), merged, p);
  }

  /** What values would come to has both. */
  lemma LossyValues(g: Group, lost: Command, later: Command, e: State)
    requires IsLossy(g, lost, later, e)
    ensures multiset(g.commands) + multiset{lost} <= Under(e.AsGroups(), g.Key())
  {
    var w, m := e.AsGroups(), |g.aliases|;
    assert IsCopy(g, e, 0);
    ShareOf(g, w[0]);
    ShareOf(g, w[m + 1]);
    TotalTwo(Share(g.Key()), w, 0, m + 1);
  }

  lemma LossyCategory(g: Group, lost: Command, later: Command, e: State)
    requires IsLossy(g, lost, later, e)
    ensures forall i | 0 <= i < |e.headers| :: e.AsGroups()[i].category == g.category
  {
    forall i | 0 <= i < |e.headers| ensures e.AsGroups()[i].category == g.category {
      if i < |g.aliases| + 1 {
        assert IsCopy(g, e, i);
      }
    }
  }

  lemma ShareOf(g: Group, g': Group)
    requires SameName(g, g')
    ensures Share(g.Key())(g') == multiset(g'.commands)
  {
  }

  /** Room behind a group with an alias copy loses a command, whatever append
      does when there is none: that of the first of the two groups beside it goes
      into the room, and that of the second over it. */
  lemma SpareLoses(
    ap: Appending, grow: Growth, g: Group, lost: Command, later: Command, s: State, includeLocal: bool, hostname: string,
    heads: seq<nat>, r: State)
    requires IsAppend(ap, grow) && IsRoomy(g, lost, later, s, includeLocal, hostname)
    requires NoDuplicates([g.name] + g.aliases) && lost != later
    requires IsOutcome(ap, ExpandedState(s, includeLocal, hostname), heads, r)
    ensures var w := Expanded(s.AsGroups(), includeLocal, hostname);
            && (forall i | 0 <= i < |w| :: w[i].category == g.category)
            && Under(r.AsGroups(), g.Key())[lost] < Under(w, g.Key())[lost]
            && Under(r.AsGroups(), g.Key()) == multiset(g.commands) + multiset{later}
  {
    var e := ExpandedState(s, includeLocal, hostname);
    ExpandedValues(s, includeLocal, hostname);
    RoomyIsLossy(g, lost, later, s, includeLocal, hostname);
    SpoiltOutcome(ap, grow, g, lost, later, e, heads, r);
    LossyValues(g, lost, later, e);
    LossyCategory(g, lost, later, e);
    assert (multiset(g.commands) + multiset{lost})[lost] == multiset(g.commands)[lost] + 1;
  }

  // ----- the exact condition

  /** What is left is what merging values comes to. */
  ghost predicate ComesToValues(ap: Appending, s: State, includeLocal: bool, hostname: string) {
    forall heads, r | IsOutcome(ap, ExpandedState(s, includeLocal, hostname), heads, r) ::
      IsResolved(Expanded(s.AsGroups(), includeLocal, hostname), heads, r.AsGroups())
  }

  ghost predicate IsResolved(w: seq<Group>, heads: seq<nat>, result: seq<Group>) {
    exists merged :: AreResolved(w, heads, merged, result)
  }

  ghost predicate IsGroupAt(s: State, k: nat, g: Group, spare: nat)
    requires k < |s.headers|
  {
    s.AsGroups()[k] == g && SpareOf(s, k) == spare
  }

  /** The group is one of the configuration's, and the others are tight. */
  ghost predicate IsAmong(s: State, g: Group, spare: nat, includeLocal: bool, hostname: string) {
    && s.Separate()
    && (exists k | 0 <= k < |s.headers| :: IsGroupAt(s, k, g, spare))
    && forall k | 0 <= k < |s.headers| :: IsGroupAt(s, k, g, spare) || TightAt(s, k, includeLocal, hostname)
  }

  /** Whatever tight groups are configured beside a group whose name and aliases
      do not repeat, and whatever append does when there is no room, merging comes
      to what merging values does: exactly when the group is tight too. */
  lemma SharingShowsUnlessTight(g: Group, spare: nat, includeLocal: bool, hostname: string)
    requires NoDuplicates([g.name] + g.aliases)
    ensures Tight(g, spare, includeLocal, hostname) <==>
            forall ap, grow, s | IsAppend(ap, grow) && IsAmong(s, g, spare, includeLocal, hostname) ::
              ComesToValues(ap, s, includeLocal, hostname)
  {
    if Tight(g, spare, includeLocal, hostname) {
      forall ap, grow, s | IsAppend(ap, grow) && IsAmong(s, g, spare, includeLocal, hostname)
        ensures ComesToValues(ap, s, includeLocal, hostname)
      {
        TightAmong(s, g, spare, includeLocal, hostname);
        TightComesToValues(ap, grow, s, includeLocal, hostname);
      }
    } else {
      var grow: Growth := (c: nat, n: nat) => n;
      AppendIsAppend(grow);
      LossyAmong(g, spare, includeLocal, hostname);
      LossyShows(Append(grow), grow, g, spare, includeLocal, hostname);
    }
  }

  lemma TightAmong(s: State, g: Group, spare: nat, includeLocal: bool, hostname: string)
    requires IsAmong(s, g, spare, includeLocal, hostname) && Tight(g, spare, includeLocal, hostname)
    ensures AllTight(s, includeLocal, hostname)
  {
    forall k | 0 <= k < |s.headers| ensures TightAt(s, k, includeLocal, hostname) {
      if IsGroupAt(s, k, g, spare) {
        assert s.AsGroups()[k] == Read(s.store, s.headers[k]);
      }
    }
  }

  lemma TightComesToValues(ap: Appending, grow: Growth, s: State, includeLocal: bool, hostname: string)
    requires IsAppend(ap, grow) && s.Separate() && AllTight(s, includeLocal, hostname)
    ensures ComesToValues(ap, s, includeLocal, hostname)
  {
    forall heads, r | IsOutcome(ap, ExpandedState(s, includeLocal, hostname), heads, r)
      ensures IsResolved(Expanded(s.AsGroups(), includeLocal, hostname), heads, r.AsGroups())
    {
      var merged := ValuesHold(ap, grow, s, includeLocal, hostname, heads, r);
    }
  }

  lemma LossyAmong(g: Group, spare: nat, includeLocal: bool, hostname: string)
    requires g.aliases != []
    ensures IsAmong(LossyState(g, spare), g, spare, includeLocal, hostname)
  {
    var s := LossyState(g, spare);
    assert IsGroupAt(s, 0, g, spare);
    assert TightAt(s, 1, includeLocal, hostname) && TightAt(s, 2, includeLocal, hostname);
  }

  lemma LossyShows(ap: Appending, grow: Growth, g: Group, spare: nat, includeLocal: bool, hostname: string)
    requires IsAppend(ap, grow) && !Tight(g, spare, includeLocal, hostname) && NoDuplicates([g.name] + g.aliases)
    ensures !ComesToValues(ap, LossyState(g, spare), includeLocal, hostname)
  {
    var s := LossyState(g, spare);
    var e := ExpandedState(s, includeLocal, hostname);
    var w := Expanded(s.AsGroups(), includeLocal, hostname);
    ExpandedFits(s, includeLocal, hostname);
    ExpandedValues(s, includeLocal, hostname);
    LossyIsRoomy(g, spare, includeLocal, hostname);
    RoomyIsLossy(g, LOST, LATER, s, includeLocal, hostname);
    LossyKeys(g, LOST, LATER, e);
    var keys := KeysOf(e);
    assert keys[0] == keys[|g.aliases| + 1] && !NoDuplicates(keys);
    var heads, r := OutcomeExists(ap, grow, e);
    assert LOST.name != LATER.name;
    SpareLoses(ap, grow, g, LOST, LATER, s, includeLocal, hostname, heads, r);
    forall merged | AreResolved(w, heads, merged, r.AsGroups()) ensures false {
      MergeConserves(w, keys, heads, merged, r.AsGroups(), g.Key());
    }
  }

  lemma {:induction false} HeadsExist(keys: seq<string>, n: nat) returns (heads: seq<nat>)
    requires n <= |keys|
    ensures forall i, j | 0 <= i < j < |heads| :: heads[i] < heads[j]
    ensures forall k: nat :: k in heads <==> k < n && IsFirst(keys, k)
  {
    heads := [];
    if n > 0 {
      heads := HeadsExist(keys, n - 1);
      if IsFirst(keys, n - 1) {
        assert forall i | 0 <= i < |heads| :: heads[i] in heads;
        heads := heads + [n - 1];
      }
    }
  }

  lemma {:induction false} FromFits(ap: Appending, grow: Growth, s: State, keys: seq<string>, n: nat)
    requires IsAppend(ap, grow) && s.AllFit() && n <= |keys| == |s.headers|
    ensures MergedFrom(ap, s, keys, n).AllFit()
    decreases |keys| - n
  {
    if n < |keys| {
      var at := FirstOf(keys, keys[n]);
      IntoFits(ap, grow, s, at, n);
      FromFits(ap, grow, MergedOne(ap, s, keys, n), keys, n + 1);
    }
  }

  /** Merging always comes to something. */
  lemma OutcomeExists(ap: Appending, grow: Growth, s: State) returns (heads: seq<nat>, r: State)
    requires IsAppend(ap, grow) && s.AllFit()
    ensures IsOutcome(ap, s, heads, r)
  {
    var keys := KeysOf(s);
    heads := HeadsExist(keys, |keys|);
    assert AreHeads(keys, heads);
    HeadsWithin(keys, heads);
    if NoDuplicates(keys) {
      r := s;
    } else {
      FromFits(ap, grow, s, keys, 0);
      var m := MergedState(ap, s, keys, heads);
      StateFits(MergedFrom(ap, s, keys, 0), heads);
      var sorted := InsertionSort(CompareHeaders, m.headers);
      if TotalPreorderOn(CompareHeaders, Elements(m.headers)) {
        InsertionSortStable(CompareHeaders, Elements(m.headers), m.headers);
        assert forall x | x in m.headers :: x in Elements(m.headers);
      }
      HeadersSorted(m.store, m.headers, sorted);
      r := State(m.store, sorted);
      Merged(ap, s, heads, m, r);
    }
  }

  lemma StateFits(m: State, heads: seq<nat>)
    requires m.AllFit() && forall i | 0 <= i < |heads| :: heads[i] < |m.headers|
    ensures var picked := Picked(m.headers, heads); State(SortedAll(m.store, SlicesOf(picked)), picked).AllFit()
  {
    SortedFits(m.store, SlicesOf(Picked(m.headers, heads)));
    assert forall i | 0 <= i < |heads| :: Fits(m.store, m.headers[heads[i]].slice);
  }

  // ----- what merging keeps

  /** The first group that has a key. */
  ghost function FirstWith(w: seq<Group>, key: string): Group
    requires key in Keys(w)
  {
    w[FirstOf(Keys(w), key)]
  }

  /** With every aliased group filling its array, the commands under a key are
      conserved exactly when the groups that share the key without sharing its
      first group's category are empty. */
  lemma MergingConserves(
    ap: Appending, grow: Growth, s: State, includeLocal: bool, hostname: string, heads: seq<nat>, r: State, key: string)
    requires IsAppend(ap, grow) && s.Separate() && AllTight(s, includeLocal, hostname)
    requires IsOutcome(ap, ExpandedState(s, includeLocal, hostname), heads, r)
    requires key in Keys(Expanded(s.AsGroups(), includeLocal, hostname))
    ensures var w := Expanded(s.AsGroups(), includeLocal, hostname);
            Under(r.AsGroups(), key) == Under(w, key) <==>
            forall j | 0 <= j < |w| && w[j].Key() == key && w[j].category != FirstWith(w, key).category :: w[j].commands == []
  {
    var w := Expanded(s.AsGroups(), includeLocal, hostname);
    var keys := Keys(w);
    var merged := ValuesHold(ap, grow, s, includeLocal, hostname, heads, r);
    if NoDuplicates(keys) {
      forall j | 0 <= j < |w| && w[j].Key() == key ensures j == FirstOf(keys, key) {
        assert keys[j] == key;
      }
    } else {
      MergeConserves(w, keys, heads, merged, r.AsGroups(), key);
    }
  }

  /** They are conserved, under every key, when categories and names have no dots
      and names are not empty. */
  lemma DotFreeMergingConserves(
    ap: Appending, grow: Growth, s: State, includeLocal: bool, hostname: string, heads: seq<nat>, r: State, key: string)
    requires IsAppend(ap, grow) && s.Separate() && AllTight(s, includeLocal, hostname)
    requires IsOutcome(ap, ExpandedState(s, includeLocal, hostname), heads, r)
    requires forall g | g in Expanded(s.AsGroups(), includeLocal, hostname) ::
               '.' !in g.category && '.' !in g.name && g.name != ""
    ensures Under(r.AsGroups(), key) == Under(Expanded(s.AsGroups(), includeLocal, hostname), key)
  {
    var w := Expanded(s.AsGroups(), includeLocal, hostname);
    var merged := ValuesHold(ap, grow, s, includeLocal, hostname, heads, r);
    if !NoDuplicates(Keys(w)) {
      DotFreeMergeConserves(w, Keys(w), heads, merged, r.AsGroups(), key);
    }
  }

  /** A growth by doubling. */
  function Doubling(): Growth {
    (c: nat, n: nat) => if 2 * c >= n then 2 * c else n
  }

  /** Three menu selections, appended one at a time to no commands at all, leave
      room for one more. */
  lemma ThreeSelectionsLeaveRoom()
    ensures CapacityAfter(Doubling(), 0, 0, 3) == 4
  {
    assert CapacityAfter(Doubling(), 0, 0, 1) == 1;
    assert CapacityAfter(Doubling(), 0, 0, 2) == 2;
  }

  /** A group of the category c, as configured. */
  function InC(name: string, aliases: seq<string>, commands: seq<Command>, menu: seq<string>): Group {
    Group("c", name, aliases, "", NoHost, commands, menu, 0, false)
  }

  /** As configured: the group c.a with an alias b, a menu of three and no
      commands, and groups c.a and c.b of one command each. */
  ghost predicate IsAliasedMenu(menu: seq<string>, s: State) {
    && |menu| == 3 && s.Separate() && |s.headers| == 3 && Capacity(s.store, s.headers[0].slice) == 0
    && s.AsGroups()[0] == InC("a", ["b"], [], menu)
    && s.AsGroups()[1] == InC("a", [], [LOST], [])
    && s.AsGroups()[2] == InC("b", [], [LATER], [])
  }

  /** So validating and merging these groups loses the command c.a.x, although no
      name has a dot and all categories are the same. v is the validated
      configuration. */
  lemma AliasedMenuLoses(menu: seq<string>, s: State, v: State, heads: seq<nat>, r: State)
    requires IsAliasedMenu(menu, s) && LOST.command !in menu
    requires v.Separate() && AreValidated(s, v, Doubling())
    requires IsOutcome(Append(Doubling()), ExpandedState(v, false, ""), heads, r)
    ensures |v.headers| == 3 && |v.AsGroups()[1].commands| == 1
    ensures var lost, key := v.AsGroups()[1].commands[0], v.AsGroups()[0].Key();
            && v.AsGroups()[1].ExportName(lost.name) == DotJoin(["c", "a", "", "x"])
            && lost in Under(Expanded(v.AsGroups(), false, ""), key) && lost !in Under(r.AsGroups(), key)
  {
    var lost, later := MenuLeavesRoom(menu, s, v);
    var g, ap := v.AsGroups()[0], Append(Doubling());
    AppendIsAppend(Doubling());
    assert [g.name] + g.aliases == ["a", "b"] && "a" != "b";
    SpareLoses(ap, Doubling(), g, lost, later, v, false, "", heads, r);
  }

  lemma MenuLeavesRoom(menu: seq<string>, s: State, v: State) returns (lost: Command, later: Command)
    requires IsAliasedMenu(menu, s) && LOST.command !in menu
    requires v.Separate() && AreValidated(s, v, Doubling())
    ensures |v.headers| == 3 && v.AsGroups()[1].commands == [lost] && lost != later
    ensures var g := v.AsGroups()[0];
            && g.name == "a" && g.aliases == ["b"] && lost !in g.commands
            && IsRoomy(g, lost, later, v, false, "")
    ensures v.AsGroups()[1].ExportName(lost.name) == DotJoin(["c", "a", "", "x"])
  {
    ThreeSelectionsLeaveRoom();
    var w, u := s.AsGroups(), v.AsGroups();
    assert ValidAt(s, v, 0, Doubling()) && ValidAt(s, v, 1, Doubling()) && ValidAt(s, v, 2, Doubling());
    assert Fits(s.store, s.headers[0].slice);
    assert s.headers[0].group.menuSelections == w[0].menuSelections == menu;
    assert SpareOf(v, 0) == 1;
    lost := OneCommand(w[1], u[1], LOST);
    later := OneCommand(w[2], u[2], LATER);
    MenuOnly(w[0], u[0]);
    assert u[0] == Read(v.store, v.headers[0]) && u[1] == Read(v.store, v.headers[1]) && u[2] == Read(v.store, v.headers[2]);
  }

  lemma OneCommand(cg: Group, r: Group, c: Command) returns (named: Command)
    requires IsValidated(cg, r) && cg.commands == [c] && cg.menuSelections == []
    ensures r.commands == [named] && named == Named(Rotated(cg), c) && r.ExportName(named.name) == ConfiguredName(cg, c.name)
  {
    assert WithSelections(cg) == [c];
    named := r.commands[0];
  }

  lemma MenuOnly(cg: Group, r: Group)
    requires IsValidated(cg, r) && cg.commands == []
    ensures forall c | c in r.commands :: c.command in cg.menuSelections
  {
    assert WithSelections(cg) == SelectionCommands(cg);
    forall c | c in r.commands ensures c.command in cg.menuSelections {
      var i :| 0 <= i < |r.commands| && r.commands[i] == c;
      assert c == Named(Rotated(cg), SelectionCommands(cg)[i]);
    }
  }
}
