/** The configuration of commands (subexec/subexec.go, subexec/group.go):
    validation, alias expansion and merging in place, on slices that alias copies
    share with the groups they were made from. */
module Configurations {
  import opened Prelude
  import opened Ordering
  import opened Dots
  import opened Groups
  import opened MergeGroups
  import opened Slices
  import opened Sums

  // ----- validation

  /** Appending commands one at a time. */
  function AppendedEach(ap: Appending, st: Store, s: Slice, cs: seq<Command>): (Store, Slice) {
    if cs == [] then (st, s)
    else
      var (st', s') := AppendedEach(ap, st, s, cs[..|cs| - 1]);
      ap(st', s', [cs[|cs| - 1]])
  }

  /** The length of the array after n commands have been appended one at a time
      to a slice of the given length on an array of the given length. */
  function CapacityAfter(grow: Growth, capacity: nat, len: nat, n: nat): nat {
    if n == 0 then capacity
    else
      var c, m := CapacityAfter(grow, capacity, len, n - 1), len + n;
      if m <= c then c else Max(grow(c, m), m)
  }

  lemma {:induction false} AppendedEachLaws(ap: Appending, grow: Growth, st: Store, s: Slice, cs: seq<Command>)
    requires IsAppend(ap, grow) && Fits(st, s)
    ensures var (st', s') := AppendedEach(ap, st, s, cs);
            && Fits(st', s') && Content(st', s') == Content(st, s) + cs && s'.len == s.len + |cs|
            && |st| <= |st'| && (s'.id == s.id || s'.id >= |st|)
            && Capacity(st', s') == CapacityAfter(grow, Capacity(st, s), s.len, |cs|)
  {
    if cs != [] {
      var init, last := cs[..|cs| - 1], cs[|cs| - 1];
      AppendedEachLaws(ap, grow, st, s, init);
      var (st', s') := AppendedEach(ap, st, s, init);
      AppendContent(ap, grow, st', s', [last]);
      AppendPlace(ap, grow, st', s', [last]);
      AddSnoc(Content(st, s), cs);
    }
  }

  lemma AddSnoc<T>(a: seq<T>, b: seq<T>)
    requires b != []
    ensures a + b[..|b| - 1] + [b[|b| - 1]] == a + b
  {
  }

  lemma {:induction false} AppendedEachKeeps(ap: Appending, grow: Growth, st: Store, s: Slice, cs: seq<Command>, t: Slice)
    requires IsAppend(ap, grow) && Fits(st, s) && Fits(st, t) && t.id != s.id
    ensures var st' := AppendedEach(ap, st, s, cs).0;
            Fits(st', t) && Content(st', t) == Content(st, t) && Capacity(st', t) == Capacity(st, t)
  {
    if cs != [] {
      var init, last := cs[..|cs| - 1], cs[|cs| - 1];
      AppendedEachKeeps(ap, grow, st, s, init, t);
      AppendedEachLaws(ap, grow, st, s, init);
      var (st', s') := AppendedEach(ap, st, s, init);
      AppendKeeps(ap, grow, st', s', [last], t);
    }
  }

  /** Validation of the group at k: it is validated as a value, its array is as
      long as appending its menu selections makes it, and the other groups are as
      they were. */
  ghost predicate IsValidatedAt(s: State, r: State, k: nat, grow: Growth)
    requires k < |s.headers|
  {
    && |r.headers| == |s.headers|
    && ValidAt(s, r, k, grow)
    && forall j | 0 <= j < |s.headers| && j != k :: SameAt(s, r, j)
  }

  ghost predicate ValidAt(s: State, r: State, k: nat, grow: Growth)
    requires k < |s.headers| == |r.headers|
  {
    IsValidated(s.AsGroups()[k], r.AsGroups()[k]) && SpareOf(r, k) == SpareAfter(s, k, grow)
  }

  ghost predicate SameAt(s: State, r: State, j: nat)
    requires j < |s.headers| == |r.headers|
  {
    var h := s.headers[j];
    && r.headers[j] == h
    && Content(r.store, h.slice) == Content(s.store, h.slice) && Capacity(r.store, h.slice) == Capacity(s.store, h.slice)
  }

  /** The room behind a group's slice. */
  function SpareOf(s: State, k: nat): int
    requires k < |s.headers|
  {
    Capacity(s.store, s.headers[k].slice) - s.headers[k].slice.len
  }

  /** The room that validation leaves behind a group's slice. */
  function SpareAfter(s: State, k: nat, grow: Growth): int
    requires k < |s.headers|
  {
    var h := s.headers[k];
    var n := |h.group.menuSelections|;
    CapacityAfter(grow, Capacity(s.store, h.slice), h.slice.len, n) - (h.slice.len + n)
  }

  // ----- expansion

  function HeaderCopies(h: Header): seq<Header> {
    seq(|h.group.aliases|, i requires 0 <= i < |h.group.aliases| =>
      h.(group := h.group.(name := h.group.aliases[i], aliases := [])))
  }

  /** The headers that are not skipped, each followed by its alias copies, which
      are on its array. */
  ghost function ExpandedHeaders(headers: seq<Header>, includeLocal: bool, hostname: string): seq<Header> {
    if headers == [] then []
    else
      var h := headers[|headers| - 1];
      ExpandedHeaders(headers[..|headers| - 1], includeLocal, hostname) +
      if Skipped(h.group, includeLocal, hostname) then [] else [h] + HeaderCopies(h)
  }

  /** h is k, or k under one of its aliases, on its array. */
  ghost predicate IsCopyOf(k: Header, h: Header) {
    h == k || (h.group.name in k.group.aliases && h == k.(group := k.group.(name := h.group.name, aliases := [])))
  }

  lemma CopiesAre(k: Header, h: Header)
    ensures h in [k] + HeaderCopies(k) <==> IsCopyOf(k, h)
  {
    forall a | a in k.group.aliases ensures k.(group := k.group.(name := a, aliases := [])) in HeaderCopies(k) {
      var i :| 0 <= i < |k.group.aliases| && k.group.aliases[i] == a;
      assert HeaderCopies(k)[i] == k.(group := k.group.(name := a, aliases := []));
    }
  }

  /** What is left by expansion. */
  lemma {:induction false} ExpandedMembers(headers: seq<Header>, includeLocal: bool, hostname: string)
    ensures forall h :: h in ExpandedHeaders(headers, includeLocal, hostname) <==>
              exists k :: k in headers && IsCopyOf(k, h) &&
                (includeLocal || k.group.host == NoHost || k.group.host.name == "" || k.group.host.name != hostname)
  {
    if headers != [] {
      var init, last := headers[..|headers| - 1], headers[|headers| - 1];
      assert headers == init + [last];
      ExpandedMembers(init, includeLocal, hostname);
      forall h ensures h in [last] + HeaderCopies(last) <==> IsCopyOf(last, h) {
        CopiesAre(last, h);
      }
    }
  }

  ghost function ExpandedState(s: State, includeLocal: bool, hostname: string): State {
    s.(headers := ExpandedHeaders(s.headers, includeLocal, hostname))
  }

  lemma {:induction false} ExpandedFits(s: State, includeLocal: bool, hostname: string)
    requires s.AllFit()
    ensures ExpandedState(s, includeLocal, hostname).AllFit()
    decreases |s.headers|
  {
    if s.headers != [] {
      var k := |s.headers| - 1;
      ExpandedFits(s.(headers := s.headers[..k]), includeLocal, hostname);
      assert Fits(s.store, s.headers[k].slice);
    }
  }

  // ----- merging

  /** The group at i merged into the one at h, if that accepts it: its slice is
      what append makes of theirs. */
  function MergedInto(ap: Appending, s: State, h: nat, i: nat): (r: State)
    requires h < |s.headers| && i < |s.headers|
    ensures |r.headers| == |s.headers|
  {
    var cg, rhv := s.headers[h], s.headers[i];
    if !Accepts(cg.group, rhv.group) then s
    else
      var behind := cg.group.sortHint >= rhv.group.sortHint;
      var first, second := if behind then cg.slice else rhv.slice, if behind then rhv.slice else cg.slice;
      var (st, slice) := ap(s.store, first, Content(s.store, second));
      State(st, s.headers[h := Header(MergedFields(cg.group, rhv.group), slice)])
  }

  function MergedFields(cg: Group, rhv: Group): Group {
    cg.(aliases := [], sortHint := if Abs(cg.sortHint) >= Abs(rhv.sortHint) then cg.sortHint else rhv.sortHint)
  }

  /** r is the group cg with rhv's commands, behind those of the one with the larger
      hint or its own, and the hint of the two that is further from zero, or its
      own; it has no aliases. */
  ghost predicate IsMergeOf(cg: Group, rhv: Group, r: Group) {
    && r == cg.(aliases := [], commands := r.commands, sortHint := r.sortHint)
    && r.commands == (if cg.sortHint >= rhv.sortHint then cg.commands + rhv.commands else rhv.commands + cg.commands)
    && r.sortHint == if HintWithin(rhv.sortHint, cg.sortHint) then cg.sortHint else rhv.sortHint
  }

  lemma MergedIs(ap: Appending, grow: Growth, s: State, h: nat, i: nat)
    requires IsAppend(ap, grow) && s.AllFit() && h < |s.headers| && i < |s.headers|
    requires Accepts(s.headers[h].group, s.headers[i].group)
    ensures IsMergeOf(s.AsGroups()[h], s.AsGroups()[i], MergedInto(ap, s, h, i).AsGroups()[h])
  {
    var cg, rhv := s.headers[h], s.headers[i];
    assert Fits(s.store, cg.slice) && Fits(s.store, rhv.slice);
    AppendContent(ap, grow, s.store, cg.slice, Content(s.store, rhv.slice));
    AppendContent(ap, grow, s.store, rhv.slice, Content(s.store, cg.slice));
    HintWithinMeans(rhv.group.sortHint, cg.group.sortHint);
  }

  lemma IntoFits(ap: Appending, grow: Growth, s: State, h: nat, i: nat)
    requires IsAppend(ap, grow) && s.AllFit() && h < |s.headers| && i < |s.headers|
    ensures MergedInto(ap, s, h, i).AllFit()
  {
    var cg, rhv := s.headers[h], s.headers[i];
    var behind := cg.group.sortHint >= rhv.group.sortHint;
    var first, second := if behind then cg.slice else rhv.slice, if behind then rhv.slice else cg.slice;
    AppendContent(ap, grow, s.store, first, Content(s.store, second));
    forall k | 0 <= k < |s.headers| ensures Fits(ap(s.store, first, Content(s.store, second)).0, s.headers[k].slice) {
      AppendKeeps(ap, grow, s.store, first, Content(s.store, second), s.headers[k].slice);
    }
  }

  /** The group at n merged into the first of its key, if it is not the first. */
  function MergedOne(ap: Appending, s: State, keys: seq<string>, n: nat): (r: State)
    requires n < |keys| == |s.headers|
    ensures |r.headers| == |s.headers|
  {
    var at := FirstOf(keys, keys[n]);
    if at == n then s else MergedInto(ap, s, at, n)
  }

  /** The groups from n on merged, one after another. */
  function MergedFrom(ap: Appending, s: State, keys: seq<string>, n: nat): (r: State)
    requires n <= |keys| == |s.headers|
    ensures |r.headers| == |s.headers|
    decreases |keys| - n
  {
    if n == |keys| then s else MergedFrom(ap, MergedOne(ap, s, keys, n), keys, n + 1)
  }

  predicate SameName(g: Group, g': Group) {
    g.category == g'.category && g.name == g'.name
  }

  ghost predicate SameNames(s: State, r: State) {
    && |r.headers| == |s.headers|
    && forall k | 0 <= k < |s.headers| :: SameName(s.headers[k].group, r.headers[k].group)
  }

  lemma StepNames(ap: Appending, s: State, t: State, h: nat, i: nat)
    requires SameNames(s, t) && h < |t.headers| && i < |t.headers|
    ensures SameNames(s, MergedInto(ap, t, h, i))
  {
    forall k | 0 <= k < |s.headers| ensures SameName(s.headers[k].group, MergedInto(ap, t, h, i).headers[k].group) {
      assert SameName(s.headers[k].group, t.headers[k].group);
    }
  }

  // ----- sorting

  function SortedSlice(st: Store, s: Slice): (r: Store)
    ensures |r| == |st| && forall t | Fits(st, t) :: Fits(r, t)
  {
    if Fits(st, s) then Write(st, s.id, 0, InsertionSort(CompareCommands, Content(st, s))) else st
  }

  /** The slices sorted in place, one after another. */
  function SortedAll(st: Store, slices: seq<Slice>): Store {
    if slices == [] then st
    else SortedSlice(SortedAll(st, slices[..|slices| - 1]), slices[|slices| - 1])
  }

  lemma {:induction false} SortedFits(st: Store, slices: seq<Slice>)
    ensures |SortedAll(st, slices)| == |st| && forall t | Fits(st, t) :: Fits(SortedAll(st, slices), t)
  {
    if slices != [] {
      SortedFits(st, slices[..|slices| - 1]);
    }
  }

  lemma SortedOneMore(st: Store, slices: seq<Slice>, i: nat)
    requires i < |slices|
    ensures SortedAll(st, slices[..i + 1]) == SortedSlice(SortedAll(st, slices[..i]), slices[i])
  {
    assert slices[..i + 1][..i] == slices[..i];
  }

  function SlicesOf(headers: seq<Header>): seq<Slice> {
    seq(|headers|, k requires 0 <= k < |headers| => headers[k].slice)
  }

  function Picked(headers: seq<Header>, heads: seq<nat>): seq<Header>
    requires forall i | 0 <= i < |heads| :: heads[i] < |headers|
  {
    seq(|heads|, i requires 0 <= i < |heads| => headers[heads[i]])
  }

  /** The merged groups at the heads, their slices sorted in place. */
  function MergedState(ap: Appending, s: State, keys: seq<string>, heads: seq<nat>): State
    requires |keys| == |s.headers|
    requires forall i | 0 <= i < |heads| :: heads[i] < |keys|
  {
    var m := MergedFrom(ap, s, keys, 0);
    var picked := Picked(m.headers, heads);
    State(SortedAll(m.store, SlicesOf(picked)), picked)
  }

  lemma KeyAt(s: State, k: nat)
    requires k < |s.headers|
    ensures KeysOf(s)[k] == DotJoin([s.headers[k].group.category, s.headers[k].group.name])
  {
  }

  ghost function KeysOf(s: State): (r: seq<string>)
    ensures |r| == |s.headers|
  {
    Keys(s.AsGroups())
  }

  /** The merged groups at the first positions of the keys, sorted. */
  ghost predicate IsMerge(ap: Appending, s: State, keys: seq<string>, heads: seq<nat>, r: State)
    requires |keys| == |s.headers|
  {
    && AreHeads(keys, heads) && (forall i | 0 <= i < |heads| :: heads[i] < |keys|)
    && r.store == MergedState(ap, s, keys, heads).store
    && IsGroupSort(MergedState(ap, s, keys, heads).AsGroups(), r.AsGroups())
  }

  /** What becomes of the expanded groups: nothing if their keys are distinct;
      otherwise they are merged. */
  ghost predicate IsOutcome(ap: Appending, s: State, heads: seq<nat>, r: State) {
    r.AllFit() && if NoDuplicates(KeysOf(s)) then r == s else IsMerge(ap, s, KeysOf(s), heads, r)
  }

  /** Validation of all groups. */
  ghost predicate AreValidated(s: State, r: State, grow: Growth) {
    && |r.headers| == |s.headers|
    && forall k | 0 <= k < |s.headers| :: ValidAt(s, r, k, grow)
  }

  class Configuration {
    var store: Store
    var commands: seq<Header>
    var includeLocalSSH: bool
    const hostname: string
    const append: Appending
    const grow: Growth

    constructor (
      store: Store, commands: seq<Header>, includeLocalSSH: bool, hostname: string, append: Appending, grow: Growth)
      requires State(store, commands).AllFit() && IsAppend(append, grow)
      ensures Valid() && State(this.store, this.commands) == State(store, commands)
      ensures this.includeLocalSSH == includeLocalSSH && this.hostname == hostname
      ensures this.append == append && this.grow == grow
    {
      this.store := store;
      this.commands := commands;
      this.includeLocalSSH := includeLocalSSH;
      this.hostname := hostname;
      this.append := append;
      this.grow := grow;
    }

    function Now(): State
      reads this
    {
      State(store, commands)
    }

    ghost predicate Valid()
      reads this
    {
      Now().AllFit() && IsAppend(append, grow)
    }

    /** The groups, read off the arrays. */
    function Groups(): seq<Group>
      reads this
    {
      Now().AsGroups()
    }

    /** One command for each menu selection, behind the configured ones. */
    method AddSelections(idx: nat)
      requires Valid() && idx < |commands|
      modifies this`store, this`commands
      ensures |commands| == |old(commands)|
      ensures commands == old(commands)[idx := old(commands)[idx].(slice := commands[idx].slice)]
      ensures (store, commands[idx].slice) ==
              AppendedEach(append, old(store), old(commands)[idx].slice, SelectionCommands(old(commands)[idx].group))
    {
      ghost var given := SelectionCommands(commands[idx].group);
      ghost var first := commands[idx].slice;
      var selections := commands[idx].group.menuSelections;
      for k := 0 to |selections|
        invariant |commands| == |old(commands)|
        invariant commands == old(commands)[idx := old(commands)[idx].(slice := commands[idx].slice)]
        invariant (store, commands[idx].slice) == AppendedEach(append, old(store), first, given[..k])
      {
        assert given[..k + 1][..k] == given[..k];
        var (st, slice) := append(store, commands[idx].slice, [Command(selections[k], "", "", selections[k], false, 0, "")]);
        store := st;
        commands := commands[idx := commands[idx].(slice := slice)];
      }
      assert given[..|selections|] == given;
    }

    /** Names a group's commands after it, in place. */
    method NameCommands(idx: nat) returns (errors: seq<GroupError>)
      requires Valid() && idx < |commands|
      modifies this`store
      ensures |store| == |old(store)| && forall t | Fits(old(store), t) :: Fits(store, t) && Capacity(store, t) == Capacity(old(store), t)
      ensures forall t | Fits(old(store), t) && t.id != commands[idx].slice.id :: Content(store, t) == Content(old(store), t)
      ensures var cg, was, now := commands[idx].group, Content(old(store), commands[idx].slice), Content(store, commands[idx].slice);
              |now| == |was| && forall i | 0 <= i < |was| :: now[i] == Named(cg, was[i])
      ensures errors == [] <==> forall i | 0 <= i < commands[idx].slice.len ::
                                  WellFormed(Content(old(store), commands[idx].slice)[i])
    {
      errors := [];
      var cg, s := commands[idx].group, commands[idx].slice;
      ghost var was := store[s.id];
      for k := 0 to s.len
        invariant |store| == |old(store)| && |store[s.id]| == |was|
        invariant forall j | 0 <= j < |store| && j != s.id :: store[j] == old(store)[j]
        invariant forall i | 0 <= i < k :: store[s.id][i] == Named(cg, was[i])
        invariant forall i | k <= i < s.len :: store[s.id][i] == was[i]
        invariant errors == [] <==> forall i | 0 <= i < k :: WellFormed(was[i])
      {
        var cmd := store[s.id][k].(groupCategory := cg.category, groupName := cg.name);
        if cmd.name == "" {
          errors := errors + [NamelessCommand(k)];
        }
        if cmd.command == "" && cmd.overrideDefault {
          errors := errors + [OverrideWithoutCommand(k)];
        }
        cmd := cmd.(name := DotJoin([cg.cmdNamePrefix, cmd.name]));
        store := store[s.id := store[s.id][k := cmd]];
      }
    }

    /** Group.Validate, as far as names go. */
    method Validate(idx: nat) returns (errors: seq<GroupError>)
      requires Valid() && Now().Separate() && idx < |commands|
      modifies this`store, this`commands
      ensures Now().Separate() && IsValidatedAt(old(Now()), Now(), idx, grow)
      ensures errors == [] <==> IsWellFormed(old(Groups())[idx])
      ensures NamesRotated(old(commands)[idx].group, commands[idx].group.(commands := old(commands)[idx].group.commands))
      ensures CommandsNamed(old(Groups())[idx], Groups()[idx])
      ensures errors == [] <==> Acceptable(old(Groups())[idx])
    {
      ghost var s := Now();
      AddSelections(idx);
      ghost var t := Now();
      SelectionsAdded(append, s, t, idx, grow);
      WellFormedBy(s.AsGroups()[idx], Content(store, commands[idx].slice));
      RotateNames(idx);
      var wrong := NameCommands(idx);
      errors := (if commands[idx].group.name == "" then [NamelessGroup] else []) + wrong;
      ValidationMeans(s, t, Now(), idx, grow);
    }

    /** The group's name and prefix move up where category or name are empty. */
    method RotateNames(idx: nat)
      requires idx < |commands|
      modifies this`commands
      ensures commands == old(commands)[idx := old(commands)[idx].(group := Rotated(old(commands)[idx].group))]
    {
      var r := commands[idx].group;
      if r.category == "" && r.name != "" && r.cmdNamePrefix != "" {
        r := r.(category := r.name, name := r.cmdNamePrefix, cmdNamePrefix := "");
      }
      if r.name == "" && r.cmdNamePrefix != "" {
        r := r.(name := r.cmdNamePrefix, cmdNamePrefix := "");
      }
      commands := commands[idx := commands[idx].(group := r)];
    }

    method ExpandAliases()
      modifies this`commands
      ensures Now() == ExpandedState(old(Now()), includeLocalSSH, hostname)
      ensures forall h :: h in commands <==>
                exists k :: k in old(commands) && IsCopyOf(k, h) &&
                  (includeLocalSSH || k.group.host == NoHost || k.group.host.name == "" || k.group.host.name != hostname)
    {
      var withAliases: seq<Header> := [];
      for idx := 0 to |commands|
        invariant withAliases == ExpandedHeaders(commands[..idx], includeLocalSSH, hostname)
      {
        var cg := commands[idx];
        assert commands[..idx + 1][..idx] == commands[..idx];
        if cg.group.host.HostAt? && !includeLocalSSH && cg.group.host.Deref() != "" && cg.group.host.Deref() == hostname {
          continue;
        }
        ghost var before := withAliases;
        withAliases := withAliases + [cg];
        for a := 0 to |cg.group.aliases|
          invariant withAliases == before + [cg] + HeaderCopies(cg)[..a]
        {
          withAliases := withAliases + [cg.(group := cg.group.(aliases := [], name := cg.group.aliases[a]))];
        }
        assert HeaderCopies(cg)[..|cg.group.aliases|] == HeaderCopies(cg);
        assert before + [cg] + HeaderCopies(cg) == before + ([cg] + HeaderCopies(cg));
      }
      assert commands[..|commands|] == commands;
      ExpandedMembers(commands, includeLocalSSH, hostname);
      commands := withAliases;
    }

    /** Group.doMerge, of the group at i into the one at h: takes its commands in,
        behind those of the group with the larger hint. Appending writes into the
        array of the group whose commands come first, if that has room. */
    method DoMerge(h: nat, i: nat) returns (merged: bool)
      requires Valid() && h < |commands| && i < |commands|
      modifies this`store, this`commands
      ensures Valid() && Now() == MergedInto(append, old(Now()), h, i)
      ensures merged == Accepts(old(commands)[h].group, old(commands)[i].group)
      ensures merged <==>
                (&& old(commands)[h].group.category == old(commands)[i].group.category
                 && (old(commands)[h].group.category != "" || old(commands)[h].group.name == old(commands)[i].group.name))
      ensures !merged ==> Now() == old(Now())
      ensures merged ==> IsMergeOf(old(Groups())[h], old(Groups())[i], Groups()[h])
      ensures forall k | 0 <= k < |commands| && k != h :: commands[k] == old(commands)[k]
    {
      ghost var was := Now();
      var cg, rhv := commands[h].group, commands[i].group;
      if (cg.category == "" || rhv.category == "") && cg.name != rhv.name {
        return false;
      } else if cg.category != rhv.category {
        return false;
      }
      IntoFits(append, grow, Now(), h, i);
      cg := cg.(aliases := []);
      var slice;
      if cg.sortHint >= rhv.sortHint {
        var (st, appended) := append(store, commands[h].slice, Content(store, commands[i].slice));
        store, slice := st, appended;
      } else {
        var (st, appended) := append(store, commands[i].slice, Content(store, commands[h].slice));
        store, slice := st, appended;
      }
      var absA, absB := cg.sortHint, rhv.sortHint;
      if absA < 0 {
        absA := Abs(absA);
      }
      if absB < 0 {
        absB := Abs(absB);
      }
      if absA < absB {
        cg := cg.(sortHint := rhv.sortHint);
      }
      commands := commands[h := Header(cg, slice)];
      MergedIs(append, grow, was, h, i);
      return true;
    }

    /** Merges each group into the first of its key. Later groups stay where they
        are; the index leads to the first ones. */
    method MergeInPlace() returns (index: map<string, nat>, haveMerged: bool)
      requires Valid()
      modifies this`store, this`commands
      ensures Valid() && Now() == MergedFrom(append, old(Now()), KeysOf(old(Now())), 0)
      ensures IsIndex(KeysOf(old(Now())), |old(commands)|, index)
      ensures haveMerged <==> !NoDuplicates(KeysOf(old(Now())))
    {
      index := map[];
      haveMerged := false;
      ghost var s, keys := Now(), KeysOf(Now());
      for idx := 0 to |commands|
        invariant Valid() && |commands| == |keys|
        invariant MergedFrom(append, Now(), keys, idx) == MergedFrom(append, s, keys, 0) && SameNames(s, Now())
        invariant IsIndex(keys, idx, index)
        invariant haveMerged <==> !NoDuplicates(keys[..idx])
      {
        var repeated;
        index, repeated := MergeNext(idx, index, s, keys);
        haveMerged := haveMerged || repeated;
      }
      TakeAll(keys);
    }

    /** The group at idx: indexed if it is the first of its key, or else merged into
        that one. */
    method MergeNext(idx: nat, index: map<string, nat>, ghost s: State, ghost keys: seq<string>)
      returns (index': map<string, nat>, repeated: bool)
      requires Valid() && keys == KeysOf(s) && idx < |keys| && SameNames(s, Now()) && IsIndex(keys, idx, index)
      modifies this`store, this`commands
      ensures Valid() && SameNames(s, Now())
      ensures MergedFrom(append, Now(), keys, idx + 1) == MergedFrom(append, old(Now()), keys, idx)
      ensures IsIndex(keys, idx + 1, index')
      ensures NoDuplicates(keys[..idx + 1]) <==> NoDuplicates(keys[..idx]) && !repeated
    {
      var lhn := DotJoin([commands[idx].group.category, commands[idx].group.name]);
      NextKey(s, Now(), keys, idx);
      NextMerge(append, Now(), keys, idx, index);
      FromNext(append, Now(), keys, idx);
      if lhn !in index {
        return index[lhn := idx], false;
      }
      StepNames(append, s, Now(), index[lhn], idx);
      var _ := DoMerge(index[lhn], idx);
      return index, true;
    }

    /** The groups at the heads, each with its commands sorted in place. */
    method SortedCommands(heads: seq<nat>) returns (resolved: seq<Header>)
      requires Valid() && forall i | 0 <= i < |heads| :: heads[i] < |commands|
      modifies this`store
      ensures Valid() && resolved == Picked(commands, heads)
      ensures store == SortedAll(old(store), SlicesOf(Picked(old(commands), heads)))
    {
      resolved := [];
      ghost var picked := Picked(commands, heads);
      ghost var slices := SlicesOf(picked);
      for i := 0 to |heads|
        invariant Valid() && resolved == picked[..i]
        invariant store == SortedAll(old(store), slices[..i])
      {
        SortedOneMore(old(store), slices, i);
        SortCommands(commands[heads[i]].slice);
        TakeOneMore(picked, i);
        resolved := resolved + [commands[heads[i]]];
      }
      TakeAll(picked);
      TakeAll(slices);
    }

    /** Sorts a slice of commands in place. */
    method SortCommands(s: Slice)
      requires Fits(store, s)
      modifies this`store
      ensures store == SortedSlice(old(store), s)
    {
      var given := Content(store, s);
      CommandPreorder(Elements(given));
      var sorted := SortStableFunc(given, CompareCommands);
      SortedIsStable(given);
      StableSortUnique(CompareCommands, given, sorted, InsertionSort(CompareCommands, given));
      store := Write(store, s.id, 0, sorted);
    }

    /** resolveAliasesAndMergeGroups. When some group shared its key with an
        earlier one, heads lists the first positions of the keys. */
    method ResolveAliasesAndMergeGroups() returns (ghost heads: seq<nat>)
      requires Valid()
      modifies this`store, this`commands
      ensures IsOutcome(append, ExpandedState(old(Now()), includeLocalSSH, hostname), heads, Now())
    {
      heads := [];
      if |commands| == 0 {
        Unmerged(append, Now(), heads);
        return;
      }
      ExpandedFits(Now(), includeLocalSSH, hostname);
      ExpandAliases();
      heads := MergeGroups();
    }

    /** The second part of it, once aliases are expanded. */
    method MergeGroups() returns (ghost heads: seq<nat>)
      requires Valid()
      modifies this`store, this`commands
      ensures IsOutcome(append, old(Now()), heads, Now())
    {
      heads := [];
      ghost var s := Now();
      var index, haveMerged := MergeInPlace();
      if !haveMerged {
        NothingMerged(append, s, KeysOf(s), 0, |commands|);
        Unmerged(append, s, heads);
        return;
      }
      heads := SortMerged(index, s);
    }

    /** The merged groups that the index leads to, in order, each with its commands
        sorted, sorted themselves. */
    method SortMerged(index: map<string, nat>, ghost s: State) returns (ghost heads: seq<nat>)
      requires Valid() && Now() == MergedFrom(append, s, KeysOf(s), 0)
      requires IsIndex(KeysOf(s), |s.headers|, index) && !NoDuplicates(KeysOf(s))
      modifies this`store, this`commands
      ensures IsOutcome(append, s, heads, Now())
    {
      var resolved;
      resolved, heads := SortHeads(index, s);
      ghost var m := State(store, resolved);
      commands := SortGroups(resolved);
      Merged(append, s, heads, m, Now());
    }

    method SortHeads(index: map<string, nat>, ghost s: State) returns (resolved: seq<Header>, ghost heads: seq<nat>)
      requires Valid() && Now() == MergedFrom(append, s, KeysOf(s), 0)
      requires IsIndex(KeysOf(s), |s.headers|, index)
      modifies this`store
      ensures AreHeads(KeysOf(s), heads) && (forall i | 0 <= i < |heads| :: heads[i] < |s.headers|)
      ensures State(store, resolved) == MergedState(append, s, KeysOf(s), heads)
      ensures State(store, resolved).AllFit()
    {
      var sparse := IndexInOrder(KeysOf(s), index);
      heads := sparse;
      HeadsWithin(KeysOf(s), heads);
      resolved := SortedCommands(sparse);
    }

    method SortGroups(resolved: seq<Header>) returns (r: seq<Header>)
      requires State(store, resolved).AllFit()
      ensures State(store, r).AllFit()
      ensures IsGroupSort(State(store, resolved).AsGroups(), State(store, r).AsGroups())
    {
      r := SortStableFunc(resolved, CompareHeaders);
      HeadersSorted(store, resolved, r);
    }

    /** The configuration's validation: every group, then the merge. validated is
        the state in between. */
    method DoValidate() returns (errors: seq<GroupError>, ghost validated: State, ghost heads: seq<nat>)
      requires Valid() && Now().Separate()
      modifies this`store, this`commands
      ensures validated.Separate() && AreValidated(old(Now()), validated, grow)
      ensures errors == [] <==> AllWellFormed(old(Groups()), |old(Groups())|)
      ensures IsOutcome(append, ExpandedState(validated, includeLocalSSH, hostname), heads, Now())
    {
      errors := ValidateGroups();
      validated := Now();
      heads := ResolveAliasesAndMergeGroups();
    }

    method ValidateGroups() returns (errors: seq<GroupError>)
      requires Valid() && Now().Separate()
      modifies this`store, this`commands
      ensures Now().Separate() && AreValidated(old(Now()), Now(), grow)
      ensures errors == [] <==> AllWellFormed(old(Groups()), |old(Groups())|)
    {
      errors := [];
      ghost var s := Now();
      ghost var groups := s.AsGroups();
      for idx := 0 to |commands|
        invariant Now().Separate() && ValidatedUpTo(s, Now(), idx, grow)
        invariant errors == [] <==> AllWellFormed(groups, idx)
      {
        ghost var was := errors == [];
        var wrong := ValidateNext(idx, s, was);
        errors := errors + wrong;
      }
    }

    method ValidateNext(idx: nat, ghost s: State, ghost was: bool) returns (errors: seq<GroupError>)
      requires Valid() && Now().Separate() && idx < |commands| && ValidatedUpTo(s, Now(), idx, grow)
      requires was <==> AllWellFormed(s.AsGroups(), idx)
      modifies this`store, this`commands
      ensures Now().Separate() && ValidatedUpTo(s, Now(), idx + 1, grow)
      ensures was && errors == [] <==> AllWellFormed(s.AsGroups(), idx + 1)
    {
      ghost var t := Now();
      errors := Validate(idx);
      ValidatedOneMore(s, t, Now(), idx, grow, was, errors == []);
    }
  }

  ghost predicate AllWellFormed(groups: seq<Group>, n: nat)
    requires n <= |groups|
  {
    n == 0 || (AllWellFormed(groups, n - 1) && IsWellFormed(groups[n - 1]))
  }

  /** The first n groups have been validated, and the others are as they were. */
  ghost predicate ValidatedUpTo(s: State, t: State, n: nat, grow: Growth) {
    && |t.headers| == |s.headers| && n <= |s.headers|
    && (forall i | 0 <= i < n :: ValidAt(s, t, i, grow))
    && forall i | n <= i < |s.headers| :: SameAt(s, t, i)
  }

  lemma ValidatedOneMore(s: State, t: State, r: State, n: nat, grow: Growth, was: bool, ok: bool)
    requires n < |s.headers| && ValidatedUpTo(s, t, n, grow) && IsValidatedAt(t, r, n, grow)
    requires was <==> AllWellFormed(s.AsGroups(), n)
    requires ok <==> IsWellFormed(t.AsGroups()[n])
    ensures ValidatedUpTo(s, r, n + 1, grow)
    ensures was && ok <==> AllWellFormed(s.AsGroups(), n + 1)
  {
    forall i | 0 <= i < n + 1 ensures ValidAt(s, r, i, grow) {
      if i < n {
        assert ValidAt(s, t, i, grow) && SameAt(t, r, i);
      } else {
        assert SameAt(s, t, n) && ValidAt(t, r, n, grow);
      }
    }
    forall i | n + 1 <= i < |s.headers| ensures SameAt(s, r, i) {
      assert SameAt(s, t, i) && SameAt(t, r, i);
    }
    assert SameAt(s, t, n);
  }

  lemma Unmerged(ap: Appending, s: State, heads: seq<nat>)
    requires s.AllFit() && NoDuplicates(KeysOf(s))
    ensures IsOutcome(ap, s, heads, s)
  {
  }

  lemma Merged(ap: Appending, s: State, heads: seq<nat>, m: State, r: State)
    requires !NoDuplicates(KeysOf(s)) && AreHeads(KeysOf(s), heads)
    requires forall i | 0 <= i < |heads| :: heads[i] < |s.headers|
    requires m == MergedState(ap, s, KeysOf(s), heads)
    requires r.store == m.store && r.AllFit() && IsGroupSort(m.AsGroups(), r.AsGroups())
    ensures IsOutcome(ap, s, heads, r)
  {
  }

  /** A group's key does not change while others are merged. */
  lemma NextKey(s: State, t: State, keys: seq<string>, n: nat)
    requires keys == KeysOf(s) && n < |keys| && SameNames(s, t)
    ensures DotJoin([t.headers[n].group.category, t.headers[n].group.name]) == keys[n]
  {
    KeyAt(s, n);
    assert SameName(s.headers[n].group, t.headers[n].group);
  }

  lemma FromNext(ap: Appending, s: State, keys: seq<string>, n: nat)
    requires n < |keys| == |s.headers|
    ensures MergedFrom(ap, MergedOne(ap, s, keys, n), keys, n + 1) == MergedFrom(ap, s, keys, n)
  {
  }

  lemma NextMerge(ap: Appending, s: State, keys: seq<string>, n: nat, index: map<string, nat>)
    requires n < |keys| == |s.headers| && IsIndex(keys, n, index)
    ensures if keys[n] in index then
              && index[keys[n]] < n && IsIndex(keys, n + 1, index) && !NoDuplicates(keys[..n + 1])
              && MergedOne(ap, s, keys, n) == MergedInto(ap, s, index[keys[n]], n)
            else
              && IsIndex(keys, n + 1, index[keys[n] := n]) && (NoDuplicates(keys[..n + 1]) <==> NoDuplicates(keys[..n]))
              && MergedOne(ap, s, keys, n) == s
  {
    IndexStep(keys, n, index);
    DuplicateStep(keys, n);
  }

  lemma HeadsWithin(keys: seq<string>, heads: seq<nat>)
    requires AreHeads(keys, heads)
    ensures forall i | 0 <= i < |heads| :: heads[i] < |keys| && IsFirst(keys, heads[i])
  {
    assert forall i | 0 <= i < |heads| :: heads[i] in heads;
  }

  lemma SortedIsStable(cs: seq<Command>)
    ensures IsStableSort(CompareCommands, cs, InsertionSort(CompareCommands, cs))
  {
    CommandPreorder(Elements(cs));
    InsertionSortStable(CompareCommands, Elements(cs), cs);
    assert forall x | x in cs :: x in Elements(cs);
  }

  /** Until a key is repeated nothing is merged. */
  lemma {:induction false} NothingMerged(ap: Appending, s: State, keys: seq<string>, n: nat, m: nat)
    requires n <= m <= |keys| == |s.headers| && forall j, k | 0 <= j < k < m :: keys[j] != keys[k]
    ensures MergedFrom(ap, s, keys, n) == MergedFrom(ap, s, keys, m)
    decreases m - n
  {
    if n < m {
      assert keys[FirstOf(keys, keys[n])] == keys[n];
      NothingMerged(ap, s, keys, n + 1, m);
    }
  }

  function CompareHeaders(lhv: Header, rhv: Header): int {
    CompareFields(lhv.group, lhv.slice.len, rhv.group, rhv.slice.len)
  }

  function Reader(st: Store): Header -> Group {
    h => Read(st, h)
  }

  lemma GroupsMapped(st: Store, hs: seq<Header>)
    ensures State(st, hs).AsGroups() == Mapped(Reader(st), hs)
  {
  }

  lemma HeaderTies(st: Store, x: Header, hs: seq<Header>)
    requires Fits(st, x.slice) && State(st, hs).AllFit()
    ensures Ties(CompareGroups, Read(st, x), Mapped(Reader(st), hs)) == Mapped(Reader(st), Ties(CompareHeaders, x, hs))
  {
    forall h | h in hs ensures CompareGroups(Read(st, x), Read(st, h)) == CompareHeaders(x, h) {
      var i :| 0 <= i < |hs| && hs[i] == h;
      assert Fits(st, hs[i].slice);
    }
    TiesMapped(Reader(st), CompareHeaders, CompareGroups, x, hs);
  }

  /** Headers sort as the groups they stand for do. */
  lemma HeadersSorted(st: Store, hs: seq<Header>, rs: seq<Header>)
    requires State(st, hs).AllFit()
    requires multiset(rs) == multiset(hs)
    requires TotalPreorderOn(CompareHeaders, Elements(hs)) ==> IsStableSort(CompareHeaders, hs, rs)
    ensures State(st, rs).AllFit() && IsGroupSort(State(st, hs).AsGroups(), State(st, rs).AsGroups())
  {
    SameElements(hs, rs);
    forall k | 0 <= k < |rs| ensures Fits(st, rs[k].slice) {
      assert rs[k] in Elements(hs);
    }
    MappedMultiset(Reader(st), hs, rs);
    GroupsMapped(st, hs);
    GroupsMapped(st, rs);
    if HostsTellApart(Hosts(Elements(State(st, hs).AsGroups()))) {
      HeaderPreorder(st, hs);
      HeadersStable(st, hs, rs);
    }
  }

  lemma HeaderPreorder(st: Store, hs: seq<Header>)
    requires State(st, hs).AllFit() && HostsTellApart(Hosts(Elements(State(st, hs).AsGroups())))
    ensures TotalPreorderOn(CompareHeaders, Elements(hs))
  {
    var groups := State(st, hs).AsGroups();
    GroupPreorder(Elements(groups));
    forall a, b | a in Elements(hs) && b in Elements(hs)
      ensures CompareHeaders(a, b) == CompareGroups(Read(st, a), Read(st, b))
      ensures Read(st, a) in Elements(groups)
    {
      var i :| 0 <= i < |hs| && hs[i] == a;
      var j :| 0 <= j < |hs| && hs[j] == b;
      assert Fits(st, hs[i].slice) && Fits(st, hs[j].slice);
      assert groups[i] == Read(st, a);
    }
  }

  lemma HeadersStable(st: Store, hs: seq<Header>, rs: seq<Header>)
    requires State(st, hs).AllFit() && State(st, rs).AllFit()
    requires IsStableSort(CompareHeaders, hs, rs)
    requires multiset(State(st, rs).AsGroups()) == multiset(State(st, hs).AsGroups())
    ensures IsStableSort(CompareGroups, State(st, hs).AsGroups(), State(st, rs).AsGroups())
  {
    var groups, sorted := State(st, hs).AsGroups(), State(st, rs).AsGroups();
    GroupsMapped(st, hs);
    GroupsMapped(st, rs);
    forall i, j | 0 <= i < j < |sorted| ensures CompareGroups(sorted[i], sorted[j]) <= 0 {
      assert Fits(st, rs[i].slice) && Fits(st, rs[j].slice);
      assert CompareHeaders(rs[i], rs[j]) <= 0;
    }
    forall g | g in groups ensures Ties(CompareGroups, g, sorted) == Ties(CompareGroups, g, groups) {
      var i :| 0 <= i < |groups| && groups[i] == g;
      assert Fits(st, hs[i].slice) && hs[i] in hs;
      HeaderTies(st, hs[i], hs);
      HeaderTies(st, hs[i], rs);
    }
  }

  lemma WellFormedBy(cg: Group, cs: seq<Command>)
    requires cs == WithSelections(cg)
    ensures IsWellFormed(cg) <==> Rotated(cg).name != "" && forall i | 0 <= i < |cs| :: WellFormed(cs[i])
  {
  }

  /** What appending the menu selections leaves of the groups. */
  ghost predicate IsSelected(s: State, t: State, k: nat, grow: Growth)
    requires k < |s.headers|
  {
    && t.Separate() && |t.headers| == |s.headers|
    && t.headers[k].group == s.headers[k].group
    && Content(t.store, t.headers[k].slice) == WithSelections(s.AsGroups()[k])
    && SpareOf(t, k) == SpareAfter(s, k, grow)
    && forall j | 0 <= j < |s.headers| && j != k :: SameAt(s, t, j)
  }

  lemma SelectionsAdded(ap: Appending, s: State, t: State, k: nat, grow: Growth)
    requires IsAppend(ap, grow) && s.Separate() && k < |s.headers| && |t.headers| == |s.headers|
    requires t.headers == s.headers[k := s.headers[k].(slice := t.headers[k].slice)]
    requires (t.store, t.headers[k].slice) ==
             AppendedEach(ap, s.store, s.headers[k].slice, SelectionCommands(s.headers[k].group))
    ensures IsSelected(s, t, k, grow)
  {
    var cs := SelectionCommands(s.headers[k].group);
    AppendedEachLaws(ap, grow, s.store, s.headers[k].slice, cs);
    forall j | 0 <= j < |s.headers| && j != k
      ensures Fits(t.store, s.headers[j].slice) && SameAt(s, t, j)
      ensures t.headers[k].slice.id != s.headers[j].slice.id
    {
      AppendedEachKeeps(ap, grow, s.store, s.headers[k].slice, cs, s.headers[j].slice);
    }
  }

  lemma ValidationMeans(s: State, t: State, r: State, k: nat, grow: Growth)
    requires k < |s.headers| && IsSelected(s, t, k, grow)
    requires |r.headers| == |t.headers| && r.headers == t.headers[k := t.headers[k].(group := Rotated(t.headers[k].group))]
    requires |r.store| == |t.store| && forall u | Fits(t.store, u) :: Fits(r.store, u) && Capacity(r.store, u) == Capacity(t.store, u)
    requires forall u | Fits(t.store, u) && u.id != t.headers[k].slice.id :: Content(r.store, u) == Content(t.store, u)
    requires var was, now := Content(t.store, t.headers[k].slice), Content(r.store, t.headers[k].slice);
             |now| == |was| && forall i | 0 <= i < |was| :: now[i] == Named(Rotated(s.headers[k].group), was[i])
    ensures r.Separate() && IsValidatedAt(s, r, k, grow)
    ensures NamesRotated(s.headers[k].group, r.headers[k].group.(commands := s.headers[k].group.commands))
    ensures CommandsNamed(s.AsGroups()[k], r.AsGroups()[k])
    ensures IsWellFormed(s.AsGroups()[k]) <==> Acceptable(s.AsGroups()[k])
  {
    GroupValidated(s, t, r, k, grow);
    ValidatedMeans(s.AsGroups()[k], r.AsGroups()[k]);
    AcceptableMeans(s.AsGroups()[k]);
  }

  lemma GroupValidated(s: State, t: State, r: State, k: nat, grow: Growth)
    requires k < |s.headers| && IsSelected(s, t, k, grow)
    requires |r.headers| == |t.headers| && r.headers == t.headers[k := t.headers[k].(group := Rotated(t.headers[k].group))]
    requires |r.store| == |t.store| && forall u | Fits(t.store, u) :: Fits(r.store, u) && Capacity(r.store, u) == Capacity(t.store, u)
    requires forall u | Fits(t.store, u) && u.id != t.headers[k].slice.id :: Content(r.store, u) == Content(t.store, u)
    requires var was, now := Content(t.store, t.headers[k].slice), Content(r.store, t.headers[k].slice);
             |now| == |was| && forall i | 0 <= i < |was| :: now[i] == Named(Rotated(s.headers[k].group), was[i])
    ensures r.Separate() && IsValidatedAt(s, r, k, grow)
  {
    assert Fits(t.store, t.headers[k].slice);
    var cg := s.AsGroups()[k];
    var given := WithSelections(cg);
    forall i | 0 <= i < |given| ensures r.AsGroups()[k].ExportName(r.AsGroups()[k].commands[i].name) == ConfiguredName(cg, given[i].name) {
      RotationKeepsName(cg, given[i].name);
    }
    forall j | 0 <= j < |s.headers| && j != k ensures SameAt(s, r, j) {
      assert SameAt(s, t, j) && Fits(t.store, t.headers[j].slice);
    }
  }
}
