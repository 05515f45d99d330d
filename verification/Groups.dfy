/** Commands and command groups (subexec/commands.go, subexec/group.go). */
module Groups {
  import opened Prelude
  import opened Ordering
  import opened Dots

  datatype Command = Command(
    name: string, groupCategory: string, groupName: string, command: string, overrideDefault: bool,
    sortHint: Int64, unaliasedName: string)
  {
    function NamePrime(): string {
      if unaliasedName != "" then unaliasedName else name
    }

    function FQN(): string {
      DotJoin([groupCategory, groupName, NamePrime()])
    }

    /** The path under which the command is indexed. */
    function IndexPath(): seq<string> {
      Path(NamePrime())
    }
  }

  /** A pointer to a host name: nil, or an address and the string kept there. */
  datatype HostPointer = NoHost | HostAt(address: nat, name: string)
  {
    /** The name, or the empty string for nil. */
    function Deref(): string {
      if NoHost? then "" else name
    }
  }

  datatype Group = Group(
    category: string, name: string, aliases: seq<string>, cmdNamePrefix: string, host: HostPointer,
    commands: seq<Command>, menuSelections: seq<string>, sortHint: Int64, synthetic: bool)
  {
    /** The dotted name under which groups are merged. */
    function Key(): string {
      DotJoin([category, name])
    }

    /** The name under which one of the group's commands is exported. */
    function ExportName(cmd: string): string {
      DotJoin([category, name, cmd])
    }
  }

  // ----- validation: the names

  datatype GroupError = NamelessGroup | NamelessCommand(index: nat) | OverrideWithoutCommand(index: nat)

  /** The category, name and prefix that a group ends up with. */
  function Rotated(cg: Group): Group {
    var cg := if cg.category == "" && cg.name != "" && cg.cmdNamePrefix != ""
              then cg.(category := cg.name, name := cg.cmdNamePrefix, cmdNamePrefix := "") else cg;
    if cg.name == "" && cg.cmdNamePrefix != ""
    then cg.(name := cg.cmdNamePrefix, cmdNamePrefix := "") else cg
  }

  /** A command as validation leaves it in its group. */
  function Named(cg: Group, cmd: Command): Command {
    cmd.(groupCategory := cg.category, groupName := cg.name, name := DotJoin([cg.cmdNamePrefix, cmd.name]))
  }

  /** The group's commands, with one more for each menu selection. */
  function WithSelections(cg: Group): seq<Command> {
    cg.commands + SelectionCommands(cg)
  }

  function SelectionCommands(cg: Group): seq<Command> {
    seq(|cg.menuSelections|, i requires 0 <= i < |cg.menuSelections| =>
      Command(cg.menuSelections[i], "", "", cg.menuSelections[i], false, 0, ""))
  }

  /** What each command of a group is called, as configured: the dotted name of
      category, name, prefix and command. */
  function ConfiguredName(cg: Group, cmd: string): string {
    DotJoin([cg.category, cg.name, cg.cmdNamePrefix, cmd])
  }

  /** A command has a name, and a command line of its own if it is not to get
      the default one. */
  predicate WellFormed(cmd: Command) {
    cmd.name != "" && !(cmd.command == "" && cmd.overrideDefault)
  }

  /** A group ends up with a name, and its commands are well formed. */
  ghost predicate IsWellFormed(cg: Group) {
    Rotated(cg).name != "" && forall c | c in WithSelections(cg) :: WellFormed(c)
  }

  /** r is what validation makes of cg: the three names rotated, and each
      command named after its group. */
  ghost predicate IsValidated(cg: Group, r: Group) {
    var given := WithSelections(cg);
    && r == Rotated(cg).(commands := r.commands)
    && |r.commands| == |given|
    && (forall i | 0 <= i < |given| :: r.commands[i] == Named(Rotated(cg), given[i]))
    && (forall i | 0 <= i < |given| :: r.ExportName(r.commands[i].name) == ConfiguredName(cg, given[i].name))
  }

  /** However the three parts rotate, the exported name is the dotted name of
      the parts as configured. */
  lemma RotationKeepsName(cg: Group, cmd: string)
    ensures var r := Rotated(cg);
            r.ExportName(DotJoin([r.cmdNamePrefix, cmd])) == ConfiguredName(cg, cmd)
  {
    var r := Rotated(cg);
    var c, n, p := r.category, r.name, r.cmdNamePrefix;
    DotJoinAssociative([c, n], [p, cmd], []);
    assert [c, n] + [DotJoin([p, cmd])] + [] == [c, n, DotJoin([p, cmd])];
    assert [c, n] + [p, cmd] + [] == [c, n, p, cmd];
    DotJoinDropsEmpty([c, n], [cmd]);
    assert [c, n] + [""] + [cmd] == [c, n, "", cmd] && [c, n] + [cmd] == [c, n, cmd];
    DotJoinDropsEmpty([], [n, p, cmd]);
    assert [] + [""] + [n, p, cmd] == ["", n, p, cmd] && [] + [n, p, cmd] == [n, p, cmd];
    RotationCases(cg, cmd);
  }

  lemma RotationCases(cg: Group, cmd: string)
    ensures var r := Rotated(cg);
            DotJoin([r.category, r.name, r.cmdNamePrefix, cmd]) == ConfiguredName(cg, cmd)
  {
    var c, n, p := cg.category, cg.name, cg.cmdNamePrefix;
    if c == "" && n != "" && p != "" {
      DotJoinDropsEmpty([n, p], [cmd]);
      DotJoinDropsEmpty([], [n, p, cmd]);
      assert [n, p] + [""] + [cmd] == [n, p, "", cmd] && [n, p] + [cmd] == [n, p, cmd];
      assert [] + [""] + [n, p, cmd] == ["", n, p, cmd] && [] + [n, p, cmd] == [n, p, cmd];
    } else if n == "" && p != "" {
      DotJoinDropsEmpty([c, p], [cmd]);
      DotJoinDropsEmpty([c], [p, cmd]);
      assert [c, p] + [""] + [cmd] == [c, p, "", cmd] && [c, p] + [cmd] == [c, p, cmd];
      assert [c] + [""] + [p, cmd] == [c, "", p, cmd] && [c] + [p, cmd] == [c, p, cmd];
    }
  }

  /** What becomes of a group's three names. The group has a name unless it had
      neither name nor prefix; a prefix is left only behind a category and a name; a
      category is kept, and a group without one gets its name as one only when its
      prefix takes that place. The dotted name of the three stays. */
  ghost predicate NamesRotated(cg: Group, r: Group) {
    && (r.name == "" <==> cg.name == "" && cg.cmdNamePrefix == "")
    && (r.name == cg.name || r.name == cg.cmdNamePrefix)
    && (r.cmdNamePrefix != "" ==> cg.category != "" && cg.name != "" && r.cmdNamePrefix == cg.cmdNamePrefix)
    && (cg.category != "" ==> r.category == cg.category)
    && (cg.category == "" && r.category != "" ==> cg.name != "" && cg.cmdNamePrefix != "" && r.category == cg.name)
    && DotJoin([r.category, r.name, r.cmdNamePrefix, ""]) == DotJoin([cg.category, cg.name, cg.cmdNamePrefix, ""])
    && r == cg.(category := r.category, name := r.name, cmdNamePrefix := r.cmdNamePrefix)
  }

  lemma RotationNames(cg: Group)
    ensures NamesRotated(cg, Rotated(cg))
  {
    RotationCases(cg, "");
  }

  /** The commands of a validated group: those configured, then one for each menu
      selection, named after the group. */
  ghost predicate CommandsNamed(cg: Group, r: Group) {
    && |r.commands| == |cg.commands| + |cg.menuSelections|
    && (forall i | 0 <= i < |cg.commands| ::
          r.commands[i] == cg.commands[i].(groupCategory := r.category, groupName := r.name,
                                           name := DotJoin([r.cmdNamePrefix, cg.commands[i].name])))
    && forall i | 0 <= i < |cg.menuSelections| ::
         r.commands[|cg.commands| + i] ==
         Command(DotJoin([r.cmdNamePrefix, cg.menuSelections[i]]), r.category, r.name, cg.menuSelections[i], false, 0, "")
  }

  /** What validation accepts: a group with a name or a prefix, whose commands have
      names and, if they override the default command, command lines. */
  ghost predicate Acceptable(cg: Group) {
    && (cg.name != "" || cg.cmdNamePrefix != "")
    && (forall c | c in cg.commands :: c.name != "" && (c.overrideDefault ==> c.command != ""))
    && forall m | m in cg.menuSelections :: m != ""
  }

  lemma ValidatedMeans(cg: Group, r: Group)
    requires IsValidated(cg, r)
    ensures CommandsNamed(cg, r) && NamesRotated(cg, r.(commands := cg.commands))
  {
    RotationNames(cg);
    var given := WithSelections(cg);
    forall i | 0 <= i < |cg.commands| ensures r.commands[i] == Named(Rotated(cg), cg.commands[i]) {
      assert given[i] == cg.commands[i];
    }
    forall i | 0 <= i < |cg.menuSelections|
      ensures r.commands[|cg.commands| + i] == Named(Rotated(cg), SelectionCommands(cg)[i])
    {
      assert given[|cg.commands| + i] == SelectionCommands(cg)[i];
    }
  }

  lemma AcceptableMeans(cg: Group)
    ensures IsWellFormed(cg) <==> Acceptable(cg)
  {
    RotationNames(cg);
    var given := WithSelections(cg);
    forall i | 0 <= i < |cg.menuSelections|
      ensures WellFormed(SelectionCommands(cg)[i]) <==> cg.menuSelections[i] != ""
      ensures SelectionCommands(cg)[i] in given
    {
      assert given[|cg.commands| + i] == SelectionCommands(cg)[i];
    }
    forall c | c in given ensures c in cg.commands || exists i :: 0 <= i < |cg.menuSelections| && c == SelectionCommands(cg)[i] {
      var k :| 0 <= k < |given| && given[k] == c;
      if k >= |cg.commands| {
        assert c == SelectionCommands(cg)[k - |cg.commands|];
      }
    }
    if IsWellFormed(cg) {
      forall m | m in cg.menuSelections ensures m != "" {
        var i :| 0 <= i < |cg.menuSelections| && cg.menuSelections[i] == m;
        assert WellFormed(SelectionCommands(cg)[i]);
      }
      assert forall c | c in cg.commands :: c in given;
    }
    if Acceptable(cg) {
      forall c | c in given ensures WellFormed(c) {
        if c !in cg.commands {
          var i :| 0 <= i < |cg.menuSelections| && c == SelectionCommands(cg)[i];
          assert cg.menuSelections[i] in cg.menuSelections;
        }
      }
    }
  }

  /** A validated command's fully qualified name is the name it is exported
      under, as long as nothing has set its unaliased name. */
  lemma QualifiedNameIsExportName(cg: Group, cmd: Command)
    requires cmd.unaliasedName == ""
    ensures Named(Rotated(cg), cmd).FQN() == ConfiguredName(cg, cmd.name)
  {
    RotationKeepsName(cg, cmd.name);
  }

  // ----- merging two groups

  /** Negation wraps round on the smallest integer, whose absolute value is then
      itself. */
  function Abs(x: Int64): Int64 {
    if x >= 0 then x else if x == MIN_INT64 then x else -x
  }

  /** The hint x does not beat the hint h: it is no further from zero. The smallest
      integer, whose negation wraps round, is beaten by any other and beats none. */
  predicate HintWithin(x: Int64, h: Int64) {
    x == MIN_INT64 || (h != MIN_INT64 && -Max(h, -h) <= x <= Max(h, -h))
  }

  lemma HintWithinMeans(x: Int64, h: Int64)
    ensures Abs(x) <= Abs(h) <==> HintWithin(x, h)
  {
  }

  /** Whether doMerge takes the second group into the first. */
  predicate Accepts(cg: Group, rhv: Group) {
    !((cg.category == "" || rhv.category == "") && cg.name != rhv.name) && cg.category == rhv.category
  }

  /** Groups that meet under one key are merged exactly when they have the same
      category. */
  lemma AcceptsSameCategory(cg: Group, rhv: Group)
    requires cg.Key() == rhv.Key()
    ensures Accepts(cg, rhv) <==> cg.category == rhv.category
    ensures Accepts(cg, rhv) ==> cg.name == rhv.name
  {
    if cg.category == rhv.category {
      KeyDeterminesName(cg.category, cg.name, rhv.name);
    }
  }

  /** What doMerge makes of two groups it merges: the second's commands behind
      those of the group with the larger hint, the hint of larger absolute value,
      and no aliases. */
  function Merge(cg: Group, rhv: Group): Group {
    cg.(aliases := [],
        commands := if cg.sortHint >= rhv.sortHint then cg.commands + rhv.commands else rhv.commands + cg.commands,
        sortHint := if Abs(cg.sortHint) >= Abs(rhv.sortHint) then cg.sortHint else rhv.sortHint)
  }

  // ----- the two comparisons

  /** Commands: larger hint first, then by name. */
  function CompareCommands(lhv: Command, rhv: Command): int {
    var cc := CompareInt(rhv.sortHint, lhv.sortHint);
    if cc == 0 then CompareString(lhv.name, rhv.name) else cc
  }

  /** No command is after a later one: the larger hint comes first, and under one
      hint the name that is first in the dictionary. */
  ghost predicate CommandsInOrder(cs: seq<Command>) {
    forall i, j | 0 <= i < j < |cs| ::
      cs[i].sortHint > cs[j].sortHint || (cs[i].sortHint == cs[j].sortHint && NotAfter(cs[i].name, cs[j].name))
  }

  lemma CommandOrderMeans(cs: seq<Command>)
    ensures Sorted(CompareCommands, cs) <==> CommandsInOrder(cs)
  {
    forall i, j | 0 <= i < j < |cs|
      ensures CompareCommands(cs[i], cs[j]) <= 0 <==>
              cs[i].sortHint > cs[j].sortHint || (cs[i].sortHint == cs[j].sortHint && NotAfter(cs[i].name, cs[j].name))
    {
      NotAfterMeans(cs[i].name, cs[j].name);
    }
  }

  lemma CommandPreorder(d: set<Command>)
    ensures TotalPreorderOn(CompareCommands, d)
  {
    forall a, b | a in d && b in d ensures CompareCommands(a, b) <= 0 <==> CompareCommands(b, a) >= 0 {
      CompareStringAntisymmetric(a.name, b.name);
    }
    forall a, b, c | a in d && b in d && c in d && CompareCommands(a, b) <= 0 && CompareCommands(b, c) <= 0
      ensures CompareCommands(a, c) <= 0
    {
      if a.sortHint == b.sortHint == c.sortHint {
        CompareStringTransitive(a.name, b.name, c.name);
      }
    }
  }

  /** Groups. Hosts are compared as pointers first. */
  function CompareGroups(lhv: Group, rhv: Group): int {
    CompareFields(lhv, |lhv.commands|, rhv, |rhv.commands|)
  }

  /** The comparison looks at the number of a group's commands only. */
  function CompareFields(lhv: Group, lcommands: nat, rhv: Group, rcommands: nat): int {
    if lhv.host != rhv.host && (lhv.host != NoHost || rhv.host != NoHost)
    then CompareString(lhv.host.Deref(), rhv.host.Deref())
    else if lhv.synthetic != rhv.synthetic then (if lhv.synthetic then 1 else -1)
    else if lhv.sortHint != rhv.sortHint then CompareInt(rhv.sortHint, lhv.sortHint)
    else if lhv.category != rhv.category then CompareString(lhv.category, rhv.category)
    else if lhv.name != rhv.name then CompareString(lhv.name, rhv.name)
    else if lhv.cmdNamePrefix != rhv.cmdNamePrefix then CompareString(lhv.cmdNamePrefix, rhv.cmdNamePrefix)
    else if lcommands != rcommands then CompareInt(lcommands, rcommands)
    else 0
  }

  /** The first group is not after the second: by host; on one host, configured
      groups before synthetic ones; then larger hints first; then by category, name
      and prefix; then the one with fewer commands. */
  ghost predicate GroupNotAfter(a: Group, b: Group) {
    if a.host != b.host then NotAfter(a.host.Deref(), b.host.Deref())
    else if a.synthetic != b.synthetic then b.synthetic
    else if a.sortHint != b.sortHint then a.sortHint > b.sortHint
    else if a.category != b.category then ComesBefore(a.category, b.category)
    else if a.name != b.name then ComesBefore(a.name, b.name)
    else if a.cmdNamePrefix != b.cmdNamePrefix then ComesBefore(a.cmdNamePrefix, b.cmdNamePrefix)
    else |a.commands| <= |b.commands|
  }

  lemma GroupOrderMeans(a: Group, b: Group)
    ensures CompareGroups(a, b) <= 0 <==> GroupNotAfter(a, b)
  {
    NotAfterMeans(a.host.Deref(), b.host.Deref());
    NotAfterMeans(a.category, b.category);
    NotAfterMeans(a.name, b.name);
    NotAfterMeans(a.cmdNamePrefix, b.cmdNamePrefix);
  }

  /** Different pointers lead to different names. All hosts nil is one case. */
  ghost predicate HostsTellApart(hosts: set<HostPointer>) {
    forall h, h' | h in hosts && h' in hosts && h != h' :: h.Deref() != h'.Deref()
  }

  lemma GroupAntisymmetric(a: Group, b: Group)
    ensures CompareGroups(a, b) == -CompareGroups(b, a)
  {
    CompareStringAntisymmetric(a.host.Deref(), b.host.Deref());
    CompareStringAntisymmetric(a.category, b.category);
    CompareStringAntisymmetric(a.name, b.name);
    CompareStringAntisymmetric(a.cmdNamePrefix, b.cmdNamePrefix);
  }

  lemma GroupTransitive(a: Group, b: Group, c: Group)
    requires HostsTellApart({a.host, b.host, c.host})
    requires CompareGroups(a, b) <= 0 && CompareGroups(b, c) <= 0
    ensures CompareGroups(a, c) <= 0
  {
    StringOrder(a.host.Deref(), b.host.Deref(), c.host.Deref());
    StringOrder(a.category, b.category, c.category);
    StringOrder(a.name, b.name, c.name);
    StringOrder(a.cmdNamePrefix, b.cmdNamePrefix, c.cmdNamePrefix);
  }

  lemma StringOrder(a: string, b: string, c: string)
    ensures CompareString(a, b) <= 0 && CompareString(b, c) <= 0 ==> CompareString(a, c) <= 0
    ensures CompareString(a, b) == 0 <==> a == b
    ensures CompareString(b, c) == 0 <==> b == c
    ensures CompareString(a, c) == 0 <==> a == c
    ensures CompareString(a, b) == -CompareString(b, a)
    ensures CompareString(b, c) == -CompareString(c, b)
  {
    CompareStringAntisymmetric(a, b);
    CompareStringAntisymmetric(b, c);
    CompareStringAntisymmetric(a, c);
    if CompareString(a, b) <= 0 && CompareString(b, c) <= 0 {
      CompareStringTransitive(a, b, c);
    }
  }

  ghost function Hosts(d: set<Group>): set<HostPointer> {
    set g | g in d :: g.host
  }

  lemma GroupPreorder(d: set<Group>)
    requires HostsTellApart(Hosts(d))
    ensures TotalPreorderOn(CompareGroups, d)
  {
    forall a, b | a in d && b in d ensures CompareGroups(a, b) <= 0 <==> CompareGroups(b, a) >= 0 {
      GroupAntisymmetric(a, b);
    }
    forall a, b, c | a in d && b in d && c in d && CompareGroups(a, b) <= 0 && CompareGroups(b, c) <= 0
      ensures CompareGroups(a, c) <= 0
    {
      assert {a.host, b.host, c.host} <= Hosts(d);
      GroupTransitive(a, b, c);
    }
  }

  /** The group comparison can be sorted with, whatever the groups, exactly when
      the hosts they point to can be told apart by name. */
  lemma GroupComparisonSound(hosts: set<HostPointer>)
    ensures HostsTellApart(hosts) <==> forall d | Hosts(d) <= hosts :: TotalPreorderOn(CompareGroups, d)
  {
    if HostsTellApart(hosts) {
      forall d | Hosts(d) <= hosts ensures TotalPreorderOn(CompareGroups, d) {
        GroupPreorder(d);
      }
    } else {
      var h, h' :| h in hosts && h' in hosts && h != h' && h.Deref() == h'.Deref();
      var d := HostClash(h, h');
      assert Hosts(d) <= hosts;
    }
  }

  /** Two pointers to equal names: two groups on one of them are told apart by
      hint, but each ties with a group on the other. */
  lemma HostClash(h: HostPointer, h': HostPointer) returns (d: set<Group>)
    requires h != h' && h.Deref() == h'.Deref()
    ensures Hosts(d) == {h, h'}
    ensures !TotalPreorderOn(CompareGroups, d)
  {
    var a := Group("", "", [], "", h, [], [], 0, false);
    var b, c := a.(host := h'), a.(sortHint := 1);
    d := {a, b, c};
    CompareStringAntisymmetric(h.Deref(), h'.Deref());
    assert Hosts(d) == {h, h'} by {
      assert a in d && b in d;
    }
    assert CompareGroups(a, b) == 0 && CompareGroups(b, c) == 0 && CompareGroups(a, c) == 1;
  }

  // ----- picking commands by name

  datatype FilterError = NoInput | NoArguments | DuplicateArguments | NotAllFound

  ghost function Names(cmds: seq<Command>): seq<string> {
    seq(|cmds|, i requires 0 <= i < |cmds| => cmds[i].NamePrime())
  }

  /** cmds[i] is the first command of its name, and its name is asked for. */
  ghost predicate IsPicked(cmds: seq<Command>, args: seq<string>, i: nat)
    requires i < |cmds|
  {
    cmds[i].NamePrime() in args && forall j | 0 <= j < i :: cmds[j].NamePrime() != cmds[i].NamePrime()
  }

  /** Every argument is the name of some command. */
  ghost predicate AllNamed(cmds: seq<Command>, args: seq<string>) {
    forall a | a in args :: a in Names(cmds)
  }

  /** out is the picked commands among the first n, in the order of the command
      list; picked lists their positions. */
  ghost predicate Selected(cmds: seq<Command>, n: nat, args: seq<string>, out: seq<Command>, picked: seq<nat>)
    requires n <= |cmds|
  {
    && |picked| == |out|
    && (forall k | 0 <= k < |out| :: picked[k] < n && out[k] == cmds[picked[k]] && IsPicked(cmds, args, picked[k]))
    && (forall i, j | 0 <= i < j < |picked| :: picked[i] < picked[j])
    && (forall i: nat | i < n && IsPicked(cmds, args, i) :: i in picked)
  }

  /** FilterCommands. */
  method FilterCommands(cmds: seq<Command>, args: seq<string>)
    returns (r: Result<seq<Command>, FilterError>, ghost picked: seq<nat>)
    ensures r.Ok? <==> cmds != [] && args != [] && NoDuplicates(args) && AllNamed(cmds, args)
    ensures r.Ok? ==> Selected(cmds, |cmds|, args, r.value, picked)
    ensures r.Ok? ==> multiset(Names(r.value)) == multiset(args)
    ensures r.Ok? ==> forall c | c in r.value :: c in cmds && (if c.unaliasedName != "" then c.unaliasedName else c.name) in args
  {
    picked := [];
    var ops := set a | a in args;
    if |cmds| == 0 {
      return Err(NoInput), picked;
    } else if |args| == 0 {
      return Err(NoArguments), picked;
    } else if |ops| != |args| {
      if NoDuplicates(args) {
        NoDuplicatesCardinality(args, ops);
      }
      return Err(DuplicateArguments), picked;
    }
    FullCardinality(args, ops);
    var seen: set<string> := {};
    var out := [];
    for k := 0 to |cmds|
      invariant Selected(cmds, k, args, out, picked)
      invariant seen == Elements(Names(out))
    {
      var name := cmds[k].NamePrime();
      SelectOne(cmds, k, args, out, picked);
      if name in ops && name !in seen {
        assert Names(out + [cmds[k]]) == Names(out) + [name];
        out := out + [cmds[k]];
        picked := picked + [k];
        seen := seen + {name};
      }
    }
    SelectedCovers(cmds, args, ops, out, picked);
    if |ops| != |out| {
      return Err(NotAllFound), picked;
    }
    return Ok(out), picked;
  }

  /** A requested name has a first command. */
  lemma {:induction false} FirstOfName(cmds: seq<Command>, args: seq<string>, j: nat) returns (i: nat)
    requires j < |cmds| && cmds[j].NamePrime() in args
    ensures i <= j && cmds[i].NamePrime() == cmds[j].NamePrime() && IsPicked(cmds, args, i)
  {
    if IsPicked(cmds, args, j) {
      i := j;
    } else {
      var k :| 0 <= k < j && cmds[k].NamePrime() == cmds[j].NamePrime();
      i := FirstOfName(cmds, args, k);
    }
  }

  lemma SelectedNames(cmds: seq<Command>, n: nat, args: seq<string>, out: seq<Command>, picked: seq<nat>)
    requires n <= |cmds| && Selected(cmds, n, args, out, picked)
    ensures forall a :: a in Names(out) <==> a in args && exists j | 0 <= j < n :: cmds[j].NamePrime() == a
  {
    forall a | a in args && exists j | 0 <= j < n :: cmds[j].NamePrime() == a
      ensures a in Names(out)
    {
      var j :| 0 <= j < n && cmds[j].NamePrime() == a;
      var i := FirstOfName(cmds, args, j);
      var k :| 0 <= k < |picked| && picked[k] == i;
      assert Names(out)[k] == a;
    }
    forall a | a in Names(out) ensures a in args && exists j | 0 <= j < n :: cmds[j].NamePrime() == a {
      var k :| 0 <= k < |out| && Names(out)[k] == a;
      assert IsPicked(cmds, args, picked[k]) && cmds[picked[k]].NamePrime() == a;
    }
  }

  lemma SelectOne(cmds: seq<Command>, n: nat, args: seq<string>, out: seq<Command>, picked: seq<nat>)
    requires n < |cmds| && Selected(cmds, n, args, out, picked)
    ensures cmds[n].NamePrime() in args && cmds[n].NamePrime() !in Names(out) <==> IsPicked(cmds, args, n)
    ensures if IsPicked(cmds, args, n) then Selected(cmds, n + 1, args, out + [cmds[n]], picked + [n])
            else Selected(cmds, n + 1, args, out, picked)
  {
    SelectedNames(cmds, n, args, out, picked);
    if IsPicked(cmds, args, n) {
      PickOne(cmds, n, args, picked);
    }
  }

  lemma PickOne(cmds: seq<Command>, n: nat, args: seq<string>, picked: seq<nat>)
    requires n < |cmds|
    requires forall i: nat | i < n && IsPicked(cmds, args, i) :: i in picked
    ensures forall i: nat | i < n + 1 && IsPicked(cmds, args, i) :: i in picked + [n]
  {
    assert (picked + [n])[|picked|] == n;
  }

  lemma SelectedCovers(cmds: seq<Command>, args: seq<string>, ops: set<string>, out: seq<Command>, picked: seq<nat>)
    requires Selected(cmds, |cmds|, args, out, picked)
    requires NoDuplicates(args) && ops == Elements(args)
    ensures |ops| == |out| <==> AllNamed(cmds, args)
    ensures AllNamed(cmds, args) ==> multiset(Names(out)) == multiset(args)
  {
    var found := Elements(Names(out));
    SelectedNames(cmds, |cmds|, args, out, picked);
    NamesDistinct(cmds, args, out, picked);
    NoDuplicatesCardinality(Names(out), found);
    assert found <= ops;
    assert AllNamed(cmds, args) <==> found == ops by {
      forall a | a in args ensures a in Names(cmds) <==> a in found {
        assert forall j | 0 <= j < |cmds| :: Names(cmds)[j] == cmds[j].NamePrime();
      }
      assert forall a | a in ops :: a in args;
    }
    if found != ops {
      SmallerSubset(found, ops);
    } else {
      SameSetSameMultiset(Names(out), args);
    }
  }

  lemma SmallerSubset<T>(a: set<T>, b: set<T>)
    requires a < b
    ensures |a| < |b|
  {
    var rest := b - a;
    assert b == a + rest && a !! rest;
    var x :| x in b && x !in a;
    assert x in rest;
  }

  lemma NamesDistinct(cmds: seq<Command>, args: seq<string>, out: seq<Command>, picked: seq<nat>)
    requires Selected(cmds, |cmds|, args, out, picked)
    ensures NoDuplicates(Names(out))
  {
    forall i, j | 0 <= i < j < |out| ensures Names(out)[i] != Names(out)[j] {
      assert IsPicked(cmds, args, picked[j]) && picked[i] < picked[j];
    }
  }
}
