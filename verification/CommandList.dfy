/** Exported commands, group menus and command selection
    (subexec/subexec.go, subexec/list.go), and what a configured command goes
    through on its way to the index. */
module CommandList {
  import opened Prelude
  import opened Dots
  import opened Groups
  import opened CommandTrees
  import opened MergeGroups
  import opened MergeLaws
  import opened Slices
  import opened Configurations
  import opened SharedArrays
  import opened Sums

  // ----- exporting

  /** A group's commands under their full dotted names. */
  function Renamed(g: Group): seq<Command> {
    seq(|g.commands|, i requires 0 <= i < |g.commands| => g.commands[i].(name := g.ExportName(g.commands[i].name)))
  }

  ghost function Exported(groups: seq<Group>, includeLocal: bool, hostname: string): seq<Command> {
    if groups == [] then []
    else
      var g := groups[|groups| - 1];
      Exported(groups[..|groups| - 1], includeLocal, hostname) + if Skipped(g, includeLocal, hostname) then [] else Renamed(g)
  }

  lemma ExportOneMore(groups: seq<Group>, includeLocal: bool, hostname: string, k: nat)
    requires k < |groups|
    ensures Exported(groups[..k + 1], includeLocal, hostname) ==
            Exported(groups[..k], includeLocal, hostname) +
            if Skipped(groups[k], includeLocal, hostname) then [] else Renamed(groups[k])
  {
    assert groups[..k + 1][..k] == groups[..k];
  }

  method ExportAllCommands(conf: Configuration) returns (out: seq<Command>)
    ensures out == Exported(conf.Groups(), conf.includeLocalSSH, conf.hostname)
    ensures forall e :: e in out <==>
              exists g, c :: g in conf.Groups() && c in g.commands &&
                e == c.(name := DotJoin([g.category, g.name, c.name])) &&
                (conf.includeLocalSSH || g.host == NoHost || g.host.name == "" || g.host.name != conf.hostname)
  {
    forall e { ExportedMember(conf.Groups(), conf.includeLocalSSH, conf.hostname, e); }
    out := [];
    var groups := conf.Groups();
    for idx := 0 to |groups|
      invariant out == Exported(groups[..idx], conf.includeLocalSSH, conf.hostname)
    {
      var grp := groups[idx];
      ExportOneMore(groups, conf.includeLocalSSH, conf.hostname, idx);
      if grp.host.HostAt? && grp.host.Deref() != "" && grp.host.Deref() == conf.hostname && !conf.includeLocalSSH {
        continue;
      }
      out := ExportGroup(grp, out);
    }
    TakeAll(groups);
  }

  /** Adds a group's commands. */
  method ExportGroup(grp: Group, before: seq<Command>) returns (out: seq<Command>)
    ensures out == before + Renamed(grp)
  {
    out := before;
    for cidx := 0 to |grp.commands|
      invariant out == before + Renamed(grp)[..cidx]
    {
      var cmd := grp.commands[cidx];
      out := out + [cmd.(name := DotJoin([grp.category, grp.name, cmd.name]))];
    }
    TakeAll(Renamed(grp));
  }

  /** e is a command of the group under its exported name. */
  ghost predicate Exports(g: Group, e: Command) {
    exists c :: c in g.commands && e == c.(name := g.ExportName(c.name))
  }

  ghost predicate ExportedBy(groups: seq<Group>, includeLocal: bool, hostname: string, e: Command) {
    exists g :: g in groups && !Skipped(g, includeLocal, hostname) && Exports(g, e)
  }

  /** The exported commands are those of the groups that are not skipped, under
      their exported names. */
  lemma {:induction false} ExportedMember(groups: seq<Group>, includeLocal: bool, hostname: string, e: Command)
    ensures e in Exported(groups, includeLocal, hostname) <==> ExportedBy(groups, includeLocal, hostname, e)
  {
    if groups != [] {
      var init, g := groups[..|groups| - 1], groups[|groups| - 1];
      ExportedMember(init, includeLocal, hostname, e);
      RenamedMember(g, e);
      ExportedBySnoc(groups, includeLocal, hostname, e);
    }
  }

  lemma ExportedBySnoc(groups: seq<Group>, includeLocal: bool, hostname: string, e: Command)
    requires groups != []
    ensures var g := groups[|groups| - 1];
            ExportedBy(groups, includeLocal, hostname, e) <==>
            ExportedBy(groups[..|groups| - 1], includeLocal, hostname, e) ||
            (!Skipped(g, includeLocal, hostname) && Exports(g, e))
  {
    assert groups == groups[..|groups| - 1] + [groups[|groups| - 1]];
  }

  lemma RenamedMember(g: Group, e: Command)
    ensures e in Renamed(g) <==> Exports(g, e)
  {
    forall c | c in g.commands && e == c.(name := g.ExportName(c.name)) ensures e in Renamed(g) {
      var i :| 0 <= i < |g.commands| && g.commands[i] == c;
      assert Renamed(g)[i] == e;
    }
    if e in Renamed(g) {
      var i :| 0 <= i < |g.commands| && Renamed(g)[i] == e;
      assert g.commands[i] in g.commands;
    }
  }

  // ----- groups by name

  /** A group can be asked for by its key or by an alias. */
  predicate Offers(g: Group, name: string) {
    g.Key() == name || name in g.aliases
  }

  /** The last group not skipped that offers a name. */
  ghost function GroupNamed(groups: seq<Group>, includeLocal: bool, hostname: string, name: string): Option<Group> {
    Last((g: Group) => !Skipped(g, includeLocal, hostname) && Offers(g, name), groups)
  }

  ghost function GroupFor(conf: Configuration, name: string): Option<Group>
    reads conf
  {
    GroupNamed(conf.Groups(), conf.includeLocalSSH, conf.hostname, name)
  }

  method ExportCommandGroups(conf: Configuration) returns (out: map<string, Group>)
    ensures forall name :: (if name in out then Some(out[name]) else None) == GroupFor(conf, name)
    ensures forall name :: name in out <==>
              exists g :: g in conf.Groups() && (name == DotJoin([g.category, g.name]) || name in g.aliases) &&
                (conf.includeLocalSSH || g.host == NoHost || g.host.name == "" || g.host.name != conf.hostname)
    ensures forall name | name in out ::
              var g := out[name];
              && g in conf.Groups() && (name == DotJoin([g.category, g.name]) || name in g.aliases)
              && (conf.includeLocalSSH || g.host == NoHost || g.host.name == "" || g.host.name != conf.hostname)
  {
    out := GroupsByName(conf);
    forall name {
      GroupNamedIsOne(conf.Groups(), conf.includeLocalSSH, conf.hostname, name);
    }
  }

  /** A later group takes a name from an earlier one. */
  method GroupsByName(conf: Configuration) returns (out: map<string, Group>)
    ensures forall name :: (if name in out then Some(out[name]) else None) == GroupFor(conf, name)
  {
    out := map[];
    var groups := conf.Groups();
    for idx := 0 to |groups|
      invariant forall name :: (if name in out then Some(out[name]) else None) ==
                               GroupNamed(groups[..idx], conf.includeLocalSSH, conf.hostname, name)
    {
      var group := groups[idx];
      assert groups[..idx + 1][..idx] == groups[..idx];
      if group.host.HostAt? && group.host.Deref() != "" && group.host.Deref() == conf.hostname && !conf.includeLocalSSH {
        continue;
      }
      var key := DotJoin([group.category, group.name]);
      ghost var before := out;
      out := out[key := group];
      for a := 0 to |group.aliases|
        invariant forall name :: (if name in out then Some(out[name]) else None) ==
                                 if name == key || name in group.aliases[..a] then Some(group)
                                 else if name in before then Some(before[name]) else None
      {
        assert group.aliases[..a + 1] == group.aliases[..a] + [group.aliases[a]];
        out := out[group.aliases[a] := group];
      }
      assert group.aliases[..|group.aliases|] == group.aliases;
    }
    assert groups[..|groups|] == groups;
  }

  // ----- menus and selections

  datatype Stage = Stage(
    selections: seq<string>, prefixed: seq<string>, commands: seq<Command>, prefix: string, nextLabel: string)
  {
    /** What picking entries of the menu selects. */
    method Resolve(idxs: seq<nat>) returns (out: seq<string>)
      requires forall i | 0 <= i < |idxs| :: idxs[i] < |selections|
      requires prefixed == [] || |prefixed| == |selections|
      ensures |out| == |idxs|
      ensures forall i | 0 <= i < |idxs| :: out[i] == if prefixed != [] then prefixed[idxs[i]] else selections[idxs[i]]
    {
      out := [];
      for k := 0 to |idxs|
        invariant |out| == k
        invariant forall i | 0 <= i < k :: out[i] == if prefixed != [] then prefixed[idxs[i]] else selections[idxs[i]]
      {
        if |prefixed| != 0 {
          out := out + [prefixed[idxs[k]]];
        } else {
          out := out + [selections[idxs[k]]];
        }
      }
    }
  }

  datatype ResolveError = KeywordNotAlone | MixedSelection | DuplicateGroups | Filtered(error: FilterError)

  const ALL_KEYWORDS: set<string> := {"all", "a"}
  const GROUP_KEYWORDS: set<string> := {"groups", "group", "g"}

  /** The whole menu of commands. */
  ghost predicate IsAllMenu(conf: Configuration, s: Stage)
    reads conf
  {
    s == Stage(Names(Exported(conf.Groups(), conf.includeLocalSSH, conf.hostname)), [], [], "", "sardis")
  }

  /** The menu of groups lists every name a group can be asked for by, once. */
  ghost predicate IsGroupsMenu(conf: Configuration, s: Stage)
    reads conf
  {
    && s == Stage(s.selections, [], [], "", "groups")
    && NoDuplicates(s.selections)
    && forall name :: name in s.selections <==> GroupFor(conf, name).Some?
  }

  /** The menu of one group. */
  ghost predicate IsGroupMenu(g: Group, name: string, s: Stage) {
    && s == Stage(Names(g.commands), s.prefixed, [], name, name)
    && |s.prefixed| == |g.commands|
    && forall i | 0 <= i < |g.commands| :: s.prefixed[i] == DotJoin([name, g.commands[i].NamePrime()])
  }

  /** The commands with the given names. */
  ghost predicate IsSelection(conf: Configuration, args: seq<string>, nextLabel: string, r: Result<Stage, ResolveError>)
    reads conf
  {
    var all := Exported(conf.Groups(), conf.includeLocalSSH, conf.hostname);
    && (r.Ok? <==> all != [] && NoDuplicates(args) && AllNamed(all, args))
    && (r.Ok? ==> r.value == Stage([], [], r.value.commands, "", nextLabel) &&
                  exists picked :: Selected(all, |all|, args, r.value.commands, picked))
    && (r.Err? ==> r.error.Filtered?)
  }

  /** ResolveCommands: what the arguments select. */
  method ResolveCommands(conf: Configuration, args: seq<string>) returns (r: Result<Stage, ResolveError>)
    ensures args == [] || (|args| == 1 && args[0] in ALL_KEYWORDS) ==> r.Ok? && IsAllMenu(conf, r.value)
    ensures |args| == 1 && args[0] in GROUP_KEYWORDS ==> r.Ok? && IsGroupsMenu(conf, r.value)
    ensures |args| == 1 && args[0] !in ALL_KEYWORDS + GROUP_KEYWORDS ==>
              match GroupFor(conf, args[0])
              case Some(g) => r.Ok? && IsGroupMenu(g, args[0], r.value)
              case None => IsSelection(conf, args, "sardis", r)
    ensures |args| > 1 && args[0] in ALL_KEYWORDS + GROUP_KEYWORDS ==> r == Err(KeywordNotAlone)
    ensures |args| > 1 && args[0] !in ALL_KEYWORDS + GROUP_KEYWORDS ==>
              if forall a | a in args :: GroupFor(conf, a).Some?
              then r == if NoDuplicates(args) then Ok(Stage(args, [], [], "", "groups")) else Err(DuplicateGroups)
              else if forall a | a in args :: GroupFor(conf, a).None?
              then IsSelection(conf, args, "", r)
              else r == Err(MixedSelection)
    decreases |args|
  {
    if |args| == 0 {
      r := AllMenu(conf);
    } else if |args| == 1 {
      var selection := args[0];
      if selection == "all" || selection == "a" {
        r := ResolveCommands(conf, []);
      } else if selection == "groups" || selection == "group" || selection == "g" {
        var groupMap := GroupsByName(conf);
        var keys := InSomeOrder(groupMap.Keys);
        r := Ok(Stage(keys, [], [], "", "groups"));
      } else {
        var groupMap := GroupsByName(conf);
        if selection in groupMap {
          var stage := GroupMenu(groupMap[selection], selection);
          r := Ok(stage);
        } else {
          r := SelectByName(conf, args, "sardis");
        }
      }
    } else if args[0] in ["all", "a", "groups", "group", "g"] {
      r := Err(KeywordNotAlone);
    } else {
      r := ResolveMany(conf, args);
    }
  }

  method AllMenu(conf: Configuration) returns (r: Result<Stage, ResolveError>)
    ensures r.Ok? && IsAllMenu(conf, r.value)
  {
    var cmds := ExportAllCommands(conf);
    var names := seq(|cmds|, i requires 0 <= i < |cmds| => cmds[i].NamePrime());
    assert names == Names(cmds);
    r := Ok(Stage(names, [], [], "", "sardis"));
  }

  method GroupMenu(g: Group, selection: string) returns (stage: Stage)
    ensures IsGroupMenu(g, selection, stage)
  {
    var selections: seq<string>, prefixed: seq<string> := [], [];
    for k := 0 to |g.commands|
      invariant selections == Names(g.commands)[..k]
      invariant |prefixed| == k
      invariant forall i | 0 <= i < k :: prefixed[i] == DotJoin([selection, g.commands[i].NamePrime()])
    {
      var np := g.commands[k].NamePrime();
      selections := selections + [np];
      prefixed := prefixed + [DotJoin([selection, np])];
    }
    assert Names(g.commands)[..|g.commands|] == Names(g.commands);
    stage := Stage(selections, prefixed, [], selection, selection);
  }

  method SelectByName(conf: Configuration, args: seq<string>, nextLabel: string) returns (r: Result<Stage, ResolveError>)
    requires args != []
    ensures IsSelection(conf, args, nextLabel, r)
  {
    var all := ExportAllCommands(conf);
    var cmds, picked := FilterCommands(all, args);
    match cmds {
      case Ok(value) => r := Ok(Stage([], [], value, "", nextLabel));
      case Err(e) => r := Err(Filtered(e));
    }
  }

  method ResolveMany(conf: Configuration, args: seq<string>) returns (r: Result<Stage, ResolveError>)
    requires |args| > 1
    ensures if forall a | a in args :: GroupFor(conf, a).Some?
            then r == if NoDuplicates(args) then Ok(Stage(args, [], [], "", "groups")) else Err(DuplicateGroups)
            else if forall a | a in args :: GroupFor(conf, a).None?
            then IsSelection(conf, args, "", r)
            else r == Err(MixedSelection)
  {
    var missing, groups := SplitNames(conf, args);
    if |missing| > 0 && |groups| > 0 {
      r := Err(MixedSelection);
    } else if |groups| > 0 {
      var ops := set a | a in args;
      if |ops| != |args| {
        if NoDuplicates(args) {
          NoDuplicatesCardinality(args, ops);
        }
        r := Err(DuplicateGroups);
      } else {
        FullCardinality(args, ops);
        r := Ok(Stage(args, [], [], "", "groups"));
      }
    } else if |missing| > 0 {
      r := SelectByName(conf, args, "");
    } else {
      r := Err(MixedSelection);
      assert false;
    }
  }

  /** The arguments that no group can be asked for by, and the others. */
  method SplitNames(conf: Configuration, args: seq<string>) returns (missing: seq<string>, groups: seq<string>)
    ensures |missing| + |groups| == |args|
    ensures missing != [] <==> exists a :: a in args && GroupFor(conf, a).None?
    ensures groups != [] <==> exists a :: a in args && GroupFor(conf, a).Some?
  {
    var groupMap := GroupsByName(conf);
    missing, groups := [], [];
    for k := 0 to |args|
      invariant |missing| + |groups| == k
      invariant groups != [] <==> exists i | 0 <= i < k :: args[i] in groupMap
      invariant missing != [] <==> exists i | 0 <= i < k :: args[i] !in groupMap
    {
      if args[k] in groupMap {
        groups := groups + [args[k]];
      } else {
        missing := missing + [args[k]];
      }
    }
    if |missing| > 0 {
      var i :| 0 <= i < |args| && args[i] !in groupMap;
      assert args[i] in args && GroupFor(conf, args[i]).None?;
    }
    if |groups| > 0 {
      var i :| 0 <= i < |args| && args[i] in groupMap;
      assert args[i] in args && GroupFor(conf, args[i]).Some?;
    }
  }

  // ----- menus are closed

  /** Every name that a group's menu offers is that of an exported command. */
  ghost predicate MenuClosed(groups: seq<Group>, includeLocal: bool, hostname: string, name: string, g: Group) {
    forall s | IsGroupMenu(g, name, s) ::
      forall i | 0 <= i < |s.prefixed| :: s.prefixed[i] in Names(Exported(groups, includeLocal, hostname))
  }

  /** No command has an unaliased name. */
  ghost predicate Plain(cmds: seq<Command>) {
    forall c | c in cmds :: c.unaliasedName == ""
  }

  /** A group's menu under a name is closed if the name is the key of a group,
      this one or another, that has its commands. */
  lemma MenuIsClosedBy(groups: seq<Group>, includeLocal: bool, hostname: string, name: string, g: Group, h: Group)
    requires h in groups && !Skipped(h, includeLocal, hostname) && h.Key() == name
    requires Plain(g.commands) && forall c | c in g.commands :: c in h.commands
    ensures MenuClosed(groups, includeLocal, hostname, name, g)
  {
    var all := Exported(groups, includeLocal, hostname);
    forall s, i | IsGroupMenu(g, name, s) && 0 <= i < |s.prefixed| ensures s.prefixed[i] in Names(all) {
      var c := g.commands[i];
      assert c in g.commands;
      var e := c.(name := h.ExportName(c.name));
      assert Exports(h, e);
      ExportedMember(groups, includeLocal, hostname, e);
      KeyPrefixes(h, c.name);
      NameListed(all, e);
    }
  }

  /** Under its own key, a group's menu only offers names of exported commands. */
  lemma MenuIsClosed(groups: seq<Group>, includeLocal: bool, hostname: string, name: string, g: Group)
    requires GroupNamed(groups, includeLocal, hostname, name) == Some(g) && g.Key() == name
    requires Plain(g.commands)
    ensures MenuClosed(groups, includeLocal, hostname, name, g)
  {
    LastIsLast((h: Group) => !Skipped(h, includeLocal, hostname) && Offers(h, name), groups);
    MenuIsClosedBy(groups, includeLocal, hostname, name, g, g);
  }

  lemma NameListed(cmds: seq<Command>, e: Command)
    requires e in cmds
    ensures e.NamePrime() in Names(cmds)
  {
    var k :| 0 <= k < |cmds| && cmds[k] == e;
    assert Names(cmds)[k] == e.NamePrime();
  }

  /** A command's exported name is the group's key joined with its name. */
  lemma KeyPrefixes(g: Group, cmd: string)
    ensures g.ExportName(cmd) == DotJoin([g.Key(), cmd])
  {
    DotJoinAssociative([], [g.category, g.name], [cmd]);
    assert [] + [g.Key()] + [cmd] == [g.Key(), cmd];
    assert [] + [g.category, g.name] + [cmd] == [g.category, g.name, cmd];
  }

  lemma GroupNamedIsOne(groups: seq<Group>, includeLocal: bool, hostname: string, name: string)
    ensures match GroupNamed(groups, includeLocal, hostname, name)
            case Some(g) => g in groups && !Skipped(g, includeLocal, hostname) && Offers(g, name)
            case None => forall g | g in groups && !Skipped(g, includeLocal, hostname) :: !Offers(g, name)
  {
    var has := (h: Group) => !Skipped(h, includeLocal, hostname) && Offers(h, name);
    LastIsLast(has, groups);
    if Last(has, groups).None? {
      forall g | g in groups ensures !has(g) {
        var i :| 0 <= i < |groups| && groups[i] == g;
      }
    }
  }

  lemma ExpandedSingle(g: Group, includeLocal: bool, hostname: string)
    requires !Skipped(g, includeLocal, hostname)
    ensures Expanded([g], includeLocal, hostname) == [g] + AliasCopies(g)
  {
    assert [g][..0] == [];
    assert Expanded([g], includeLocal, hostname) == Expanded([], includeLocal, hostname) + ([g] + AliasCopies(g));
  }

  /** A group and its alias copies have the same commands, and keys that do not
      depend on them. */
  lemma FamilyOf(g: Group, cmds: seq<Command>, includeLocal: bool, hostname: string)
    requires !Skipped(g, includeLocal, hostname)
    ensures var family, given := Expanded([g.(commands := cmds)], includeLocal, hostname), Expanded([g], includeLocal, hostname);
            && |family| == |given|
            && (forall i | 0 <= i < |family| :: family[i] == given[i].(commands := cmds))
            && forall i | 0 <= i < |family| :: !Skipped(family[i], includeLocal, hostname)
  {
    var g' := g.(commands := cmds);
    ExpandedSingle(g, includeLocal, hostname);
    ExpandedSingle(g', includeLocal, hostname);
    forall i | 0 <= i < |g.aliases| ensures AliasCopies(g')[i] == AliasCopies(g)[i].(commands := cmds) {
    }
  }

  /** The menus of a group under a name, whatever its commands, when nothing else
      is configured. */
  ghost predicate AlwaysClosed(g: Group, includeLocal: bool, hostname: string, name: string) {
    forall cmds | Plain(cmds) :: ClosedWith(g, cmds, includeLocal, hostname, name)
  }

  ghost predicate ClosedWith(g: Group, cmds: seq<Command>, includeLocal: bool, hostname: string, name: string) {
    var groups := Expanded([g.(commands := cmds)], includeLocal, hostname);
    match GroupNamed(groups, includeLocal, hostname, name)
    case Some(h) => MenuClosed(groups, includeLocal, hostname, name, h)
    case None => true
  }

  /** Under a name that a group or an alias copy of it offers, the menu is closed,
      whatever the commands, exactly when the name is the key of the group or of
      one of its copies. */
  lemma MenuClosedUnderKeys(g: Group, includeLocal: bool, hostname: string, name: string)
    requires !Skipped(g, includeLocal, hostname)
    requires GroupNamed(Expanded([g], includeLocal, hostname), includeLocal, hostname, name).Some?
    ensures AlwaysClosed(g, includeLocal, hostname, name) <==> name in Keys(Expanded([g], includeLocal, hostname))
  {
    if name in Keys(Expanded([g], includeLocal, hostname)) {
      forall cmds | Plain(cmds) ensures ClosedWith(g, cmds, includeLocal, hostname, name) {
        ClosedUnderKey(g, cmds, includeLocal, hostname, name);
      }
    } else {
      var run := Command("run", "", "", "run", false, 0, "");
      assert Plain([run]);
      OpenUnderOther(g, run, includeLocal, hostname, name);
    }
  }

  lemma ClosedUnderKey(g: Group, cmds: seq<Command>, includeLocal: bool, hostname: string, name: string)
    requires !Skipped(g, includeLocal, hostname) && name in Keys(Expanded([g], includeLocal, hostname)) && Plain(cmds)
    ensures ClosedWith(g, cmds, includeLocal, hostname, name)
  {
    var given, groups := Expanded([g], includeLocal, hostname), Expanded([g.(commands := cmds)], includeLocal, hostname);
    FamilyOf(g, cmds, includeLocal, hostname);
    GroupNamedIsOne(groups, includeLocal, hostname, name);
    var i :| 0 <= i < |given| && Keys(given)[i] == name;
    assert groups[i].Key() == given[i].Key();
    if GroupNamed(groups, includeLocal, hostname, name).Some? {
      var h := GroupNamed(groups, includeLocal, hostname, name).value;
      assert h.commands == groups[i].commands;
      MenuIsClosedBy(groups, includeLocal, hostname, name, h, groups[i]);
    }
  }

  lemma OpenUnderOther(g: Group, run: Command, includeLocal: bool, hostname: string, name: string)
    requires !Skipped(g, includeLocal, hostname) && name !in Keys(Expanded([g], includeLocal, hostname))
    requires GroupNamed(Expanded([g], includeLocal, hostname), includeLocal, hostname, name).Some?
    requires run.name != "" && run.unaliasedName == ""
    ensures !ClosedWith(g, [run], includeLocal, hostname, name)
  {
    var given, groups := Expanded([g], includeLocal, hostname), Expanded([g.(commands := [run])], includeLocal, hostname);
    FamilyOf(g, [run], includeLocal, hostname);
    StillOffered(given, groups, [run], includeLocal, hostname, name);
    var h := GroupNamed(groups, includeLocal, hostname, name).value;
    var s := Stage(Names([run]), [DotJoin([name, run.name])], [], name, name);
    GroupNamedIsOne(groups, includeLocal, hostname, name);
    assert IsGroupMenu(h, name, s);
    if s.prefixed[0] in Names(Exported(groups, includeLocal, hostname)) {
      OfferedIsKey(given, groups, run, includeLocal, hostname, name);
      assert false;
    }
  }

  lemma StillOffered(
    given: seq<Group>, groups: seq<Group>, cmds: seq<Command>, includeLocal: bool, hostname: string, name: string)
    requires |groups| == |given| && forall i | 0 <= i < |groups| :: groups[i] == given[i].(commands := cmds)
    requires GroupNamed(given, includeLocal, hostname, name).Some?
    ensures GroupNamed(groups, includeLocal, hostname, name).Some?
  {
    GroupNamedIsOne(given, includeLocal, hostname, name);
    GroupNamedIsOne(groups, includeLocal, hostname, name);
    var i :| 0 <= i < |given| && given[i] == GroupNamed(given, includeLocal, hostname, name).value;
    assert groups[i] in groups && groups[i].Key() == given[i].Key();
  }

  /** If the name of a command behind another name is exported, that name is a
      key. */
  lemma OfferedIsKey(
    given: seq<Group>, groups: seq<Group>, run: Command, includeLocal: bool, hostname: string, name: string)
    requires |groups| == |given| && forall i | 0 <= i < |groups| :: groups[i] == given[i].(commands := [run])
    requires run.name != "" && run.unaliasedName == ""
    requires DotJoin([name, run.name]) in Names(Exported(groups, includeLocal, hostname))
    ensures name in Keys(given)
  {
    var all := Exported(groups, includeLocal, hostname);
    var p :| 0 <= p < |all| && all[p].NamePrime() == DotJoin([name, run.name]);
    ExportedMember(groups, includeLocal, hostname, all[p]);
    var h :| h in groups && !Skipped(h, includeLocal, hostname) && Exports(h, all[p]);
    var i :| 0 <= i < |groups| && groups[i] == h;
    KeyPrefixes(h, run.name);
    JoinCancels(name, h.Key(), run.name);
    assert Keys(given)[i] == given[i].Key() == h.Key();
  }

  lemma JoinCancels(a: string, b: string, c: string)
    requires c != "" && DotJoin([a, c]) == DotJoin([b, c])
    ensures a == b
  {
    DotJoinTwo(a, c);
    DotJoinTwo(b, c);
    if a != "" && b != "" {
      assert |a| == |b|;
      assert (a + "." + c)[..|a|] == a && (b + "." + c)[..|b|] == b;
    }
  }

  /** Any picks from such a menu with different names are commands that can be
      selected together. */
  lemma PicksCanBeSelected(
    groups: seq<Group>, includeLocal: bool, hostname: string, name: string, g: Group, s: Stage, picks: seq<string>)
    requires GroupNamed(groups, includeLocal, hostname, name) == Some(g) && g.Key() == name
    requires Plain(g.commands) && IsGroupMenu(g, name, s)
    requires picks != [] && forall p | p in picks :: p in s.prefixed
    ensures Exported(groups, includeLocal, hostname) != []
    ensures AllNamed(Exported(groups, includeLocal, hostname), picks)
  {
    MenuIsClosed(groups, includeLocal, hostname, name, g);
    var all := Exported(groups, includeLocal, hostname);
    forall p | p in picks ensures p in Names(all) {
      var i :| 0 <= i < |s.prefixed| && s.prefixed[i] == p;
    }
    assert picks[0] in picks;
  }

  // ----- from configuration to index

  /** Configuration.Tree: the index of the exported commands. */
  method Tree(conf: Configuration) returns (tree: Node, ghost layout: Layout)
    ensures layout.IsTree() && layout.Matches() && layout.root == tree
    ensures layout.Indexes(Exported(conf.Groups(), conf.includeLocalSSH, conf.hostname))
  {
    var commands := ExportAllCommands(conf);
    tree, layout := NewCommandTree(commands);
  }

  lemma {:induction false} ExpandedNotSkipped(groups: seq<Group>, includeLocal: bool, hostname: string)
    ensures forall g | g in Expanded(groups, includeLocal, hostname) :: !Skipped(g, includeLocal, hostname)
  {
    if groups != [] {
      ExpandedNotSkipped(groups[..|groups| - 1], includeLocal, hostname);
    }
  }

  lemma {:induction false} ExpandedKeepsGroups(groups: seq<Group>, includeLocal: bool, hostname: string)
    ensures forall g | g in groups && !Skipped(g, includeLocal, hostname) :: g in Expanded(groups, includeLocal, hostname)
  {
    if groups != [] {
      var init, last := groups[..|groups| - 1], groups[|groups| - 1];
      ExpandedKeepsGroups(init, includeLocal, hostname);
      assert groups == init + [last];
      if !Skipped(last, includeLocal, hostname) {
        assert ([last] + AliasCopies(last))[0] == last;
        assert last in [last] + AliasCopies(last);
      }
    }
  }

  /** A command of an expanded group is still under the group's key after the
      merge, if the group has the category of the first one of its key. */
  lemma CommandSurvives(
    w: seq<Group>, heads: seq<nat>, merged: seq<Group>, result: seq<Group>, g: Group, c: Command) returns (r: Group)
    requires AreResolved(w, heads, merged, result)
    requires g in w && c in g.commands
    requires g.Key() in Keys(w) ==> g.category == w[FirstOf(Keys(w), g.Key())].category
    ensures r in result && r.Key() == g.Key() && c in r.commands
  {
    var keys, key := Keys(w), g.Key();
    var j :| 0 <= j < |w| && w[j] == g;
    assert keys[j] == key;
    if NoDuplicates(keys) {
      r := g;
    } else {
      CommandsAfterMerge(w, keys, heads, merged, result, key);
      TotalMember(ShareIn(key, g.category), w, c);
      TotalMember(Share(key), result, c);
      r :| r in result && c in Share(key)(r);
    }
  }

  lemma ResultNotSkipped(
    w: seq<Group>, heads: seq<nat>, merged: seq<Group>, result: seq<Group>, includeLocal: bool, hostname: string, r: Group)
    requires AreResolved(w, heads, merged, result) && r in result
    requires forall g | g in w :: !Skipped(g, includeLocal, hostname)
    ensures !Skipped(r, includeLocal, hostname)
  {
    if !NoDuplicates(Keys(w)) {
      SameElements(merged, result);
      assert r in Elements(result);
      var i :| 0 <= i < |merged| && merged[i] == r;
      MergedKeepsIdentity(w, Keys(w), heads[i], |w|);
      assert w[heads[i]] in w;
    }
  }

  /** Validation leaves as much room behind a group's commands as the appends say,
      and its host and aliases alone. */
  lemma ValidatedTight(s: State, v: State, grow: Growth, includeLocal: bool, hostname: string)
    requires AreValidated(s, v, grow)
    requires forall j | 0 <= j < |s.headers| :: Tight(s.headers[j].group, SpareAfter(s, j, grow), includeLocal, hostname)
    ensures AllTight(v, includeLocal, hostname)
  {
    forall j | 0 <= j < |v.headers| ensures TightAt(v, j, includeLocal, hostname) {
      assert ValidAt(s, v, j, grow);
      assert v.AsGroups()[j] == Rotated(s.AsGroups()[j]).(commands := v.AsGroups()[j].commands);
    }
  }

  /** A configured command as it is exported: named by category, name, prefix and
      command as configured. */
  function ExportedAs(cg: Group, cmd: Command): Command {
    Named(Rotated(cg), cmd).(name := ConfiguredName(cg, cmd.name))
  }

  /** From the configuration to the index. Let validation leave no room behind
      the commands of groups that have aliases. Take any group that is not skipped
      and any of its commands; if the first group of the same key has the same
      category, then after validation, merging and exporting the command is there
      under the dotted name of the configured category, name, prefix and command,
      and the index finds it under that name unless another has the same path. */
  lemma ConfiguredCommandIsFound(
    ap: Appending, grow: Growth, s: State, v: State, includeLocal: bool, hostname: string, heads: seq<nat>, r: State,
    i: nat, k: nat)
    requires IsAppend(ap, grow) && AreValidated(s, v, grow) && v.Separate()
    requires forall j | 0 <= j < |s.headers| :: Tight(s.headers[j].group, SpareAfter(s, j, grow), includeLocal, hostname)
    requires IsOutcome(ap, ExpandedState(v, includeLocal, hostname), heads, r)
    requires i < |s.headers| && !Skipped(s.AsGroups()[i], includeLocal, hostname)
    requires var w, g := Expanded(v.AsGroups(), includeLocal, hostname), v.AsGroups()[i];
             g.Key() in Keys(w) ==> g.category == FirstWith(w, g.Key()).category
    requires k < |WithSelections(s.AsGroups()[i])|
    ensures var cg, cmd := s.AsGroups()[i], WithSelections(s.AsGroups()[i])[k];
            cmd.unaliasedName == "" ==> ExportedAs(cg, cmd).IndexPath() == Path(ConfiguredName(cg, cmd.name))
    ensures var e, all := ExportedAs(s.AsGroups()[i], WithSelections(s.AsGroups()[i])[k]),
                          Exported(r.AsGroups(), includeLocal, hostname);
            && e in all
            && (e.IndexPath() != [] ==> Lookup(all, e.IndexPath()).Some?)
            && (e.IndexPath() != [] && (forall c | c in all && c.IndexPath() == e.IndexPath() :: c == e) ==>
                  Lookup(all, e.IndexPath()) == Some(e))
  {
    var cg, w := s.AsGroups()[i], Expanded(v.AsGroups(), includeLocal, hostname);
    var cmd, all := WithSelections(cg)[k], Exported(r.AsGroups(), includeLocal, hostname);
    var e := ExportedAs(cg, cmd);
    ValidatedTight(s, v, grow, includeLocal, hostname);
    var merged := ValuesHold(ap, grow, v, includeLocal, hostname, heads, r);
    assert ValidAt(s, v, i, grow);
    CommandIsExported(cg, v.AsGroups(), includeLocal, hostname, heads, merged, r.AsGroups(), i, k);
    ExportedIsFound(all, e);
  }

  lemma ExportedIsFound(all: seq<Command>, e: Command)
    requires e in all
    ensures e.IndexPath() != [] ==> Lookup(all, e.IndexPath()).Some?
    ensures e.IndexPath() != [] && (forall c | c in all && c.IndexPath() == e.IndexPath() :: c == e) ==>
              Lookup(all, e.IndexPath()) == Some(e)
  {
    if e.IndexPath() != [] {
      LookupIsLast(all, e.IndexPath());
      var p :| 0 <= p < |all| && all[p] == e;
      LookupHasPath(all, e.IndexPath());
    }
  }

  lemma CommandIsExported(
    cg: Group, validated: seq<Group>, includeLocal: bool, hostname: string, heads: seq<nat>, merged: seq<Group>,
    result: seq<Group>, i: nat, k: nat)
    requires i < |validated| && IsValidated(cg, validated[i]) && !Skipped(cg, includeLocal, hostname)
    requires var w := Expanded(validated, includeLocal, hostname);
             && AreResolved(w, heads, merged, result)
             && (validated[i].Key() in Keys(w) ==> validated[i].category == FirstWith(w, validated[i].Key()).category)
    requires k < |WithSelections(cg)|
    ensures ExportedAs(cg, WithSelections(cg)[k]) in Exported(result, includeLocal, hostname)
  {
    var w, g := Expanded(validated, includeLocal, hostname), validated[i];
    var c := g.commands[k];
    ExpandedKeepsGroups(validated, includeLocal, hostname);
    ExpandedNotSkipped(validated, includeLocal, hostname);
    assert g in validated && c in g.commands;
    var r := CommandSurvives(w, heads, merged, result, g, c);
    ResultNotSkipped(w, heads, merged, result, includeLocal, hostname, r);
    KeyPrefixes(g, c.name);
    KeyPrefixes(r, c.name);
    var e := c.(name := r.ExportName(c.name));
    assert Exports(r, e);
    ExportedMember(result, includeLocal, hostname, e);
  }
}
