/** The cached index of repositories by name and tag (repo/conf.go). */
module RepoIndex {
  import opened Prelude

  datatype GitRepository = GitRepository(name: string, path: string, remote: string, tags: seq<string>)

  /** rebuildIndexes panics on a repeated repository name; otherwise it reports
      the tag groups that hold no repository. */
  datatype Rebuilt = Panicked(name: string) | Finished(emptyGroups: seq<string>)

  datatype FindError = Ambiguous(count: nat) | NotFound

  // ----- scanning the configured list

  ghost predicate DistinctRepositories(repos: seq<GitRepository>) {
    forall i, j | 0 <= i < j < |repos| :: repos[i].name != repos[j].name
  }

  /** The repository with a name. */
  ghost function Named(repos: seq<GitRepository>, name: string): Option<GitRepository> {
    Last((r: GitRepository) => r.name == name, repos)
  }

  /** The names of the repositories with a tag, in configured order; one that
      lists the tag twice comes twice. */
  ghost function Tagged(repos: seq<GitRepository>, tag: string): seq<string> {
    if repos == [] then []
    else
      var r := repos[|repos| - 1];
      Tagged(repos[..|repos| - 1], tag) + Repeats(r.name, tag, r.tags)
  }

  ghost function Repeats(name: string, tag: string, tags: seq<string>): seq<string> {
    if tags == [] then []
    else Repeats(name, tag, tags[..|tags| - 1]) + if tags[|tags| - 1] == tag then [name] else []
  }

  /** The repositories a tag group stands for: those that carry one of its tags,
      and those it names. */
  ghost function GroupMembers(repos: seq<GitRepository>, tags: seq<string>): set<string> {
    (set t, n | t in tags && n in Tagged(repos, t) :: n) + (set t | t in tags && Named(repos, t).Some?)
  }

  /** A group that is listed in another one lists itself, and nothing that the
      other one does not list. Groups that do not list each other are so. */
  ghost predicate GroupsClosed(groups: map<string, seq<string>>) {
    forall g, h | g in groups && h in groups && g != h && h in groups[g] ::
      h in groups[h] && forall m | m in groups[h] :: m in groups[g]
  }

  /** Whether a tag lists a name once the groups in order have been entered, one
      after another. */
  ghost predicate Lists(
    repos: seq<GitRepository>, groups: map<string, seq<string>>, order: seq<string>, tag: string, name: string)
    decreases |order|
  {
    if order == [] then name in Tagged(repos, tag)
    else
      var before, gt := order[..|order| - 1], order[|order| - 1];
      if tag != gt then Lists(repos, groups, before, tag, name)
      else
        || (exists m :: m in Get(groups, gt) && Lists(repos, groups, before, m, name))
        || (name in Get(groups, gt) && Named(repos, name).Some?)
  }

  /** The groups, each once, in some order. */
  ghost predicate IsOrderOf(groups: map<string, seq<string>>, order: seq<string>) {
    NoDuplicates(order) && forall g :: g in order <==> g in groups
  }

  /** Reading a map of lists: a missing key reads as the empty list. */
  function Get(m: map<string, seq<string>>, k: string): seq<string> {
    if k in m then m[k] else []
  }

  /** The two maps are the index of a list of repositories. */
  ghost predicate LookupMatches(lookup: map<string, GitRepository>, repos: seq<GitRepository>) {
    forall n :: (if n in lookup then Some(lookup[n]) else None) == Named(repos, n)
  }

  ghost predicate TagsMatch(tags: map<string, seq<string>>, repos: seq<GitRepository>) {
    forall t :: Get(tags, t) == Tagged(repos, t)
  }

  /** Repositories are found under their own names, and every indexed tag lists
      only names that are found. */
  ghost predicate Sound(tags: map<string, seq<string>>, lookup: map<string, GitRepository>) {
    && (forall n | n in lookup :: lookup[n].name == n)
    && (forall t | t in tags :: Elements(tags[t]) <= lookup.Keys)
  }

  lemma {:induction false} TaggedKnown(repos: seq<GitRepository>, tag: string, n: string)
    requires n in Tagged(repos, tag)
    ensures exists i | 0 <= i < |repos| :: repos[i].name == n && tag in repos[i].tags
  {
    var r := repos[|repos| - 1];
    if n in Tagged(repos[..|repos| - 1], tag) {
      TaggedKnown(repos[..|repos| - 1], tag, n);
    } else {
      RepeatsOnly(r.name, tag, r.tags);
    }
  }

  lemma {:induction false} RepeatsOnly(name: string, tag: string, tags: seq<string>)
    ensures forall n | n in Repeats(name, tag, tags) :: n == name && tag in tags
  {
    if tags != [] {
      RepeatsOnly(name, tag, tags[..|tags| - 1]);
      assert tags == tags[..|tags| - 1] + [tags[|tags| - 1]];
    }
  }

  lemma {:induction false} NamedHasName(repos: seq<GitRepository>, name: string)
    ensures Named(repos, name).Some? <==> exists i | 0 <= i < |repos| :: repos[i].name == name
    ensures Named(repos, name).Some? ==> Named(repos, name).value.name == name && Named(repos, name).value in repos
  {
    LastIsLast((r: GitRepository) => r.name == name, repos);
  }

  lemma MatchingIsSound(tags: map<string, seq<string>>, lookup: map<string, GitRepository>, repos: seq<GitRepository>)
    requires LookupMatches(lookup, repos) && TagsMatch(tags, repos)
    ensures Sound(tags, lookup)
  {
    forall n | n in lookup ensures lookup[n].name == n {
      NamedHasName(repos, n);
    }
    forall t, n | t in tags && n in tags[t] ensures n in lookup {
      assert n in Get(tags, t);
      TaggedKnown(repos, t, n);
      NamedHasName(repos, n);
    }
  }

  // ----- the cached index

  class Configuration {
    var gitRepos: seq<GitRepository>
    var tagGroups: map<string, seq<string>>
    var lookupProcessed: bool
    var tags: map<string, seq<string>>
    var lookup: map<string, GitRepository>

    constructor (gitRepos: seq<GitRepository>, tagGroups: map<string, seq<string>>)
      ensures Valid() && !lookupProcessed && lookup == map[] && tags == map[]
      ensures this.gitRepos == gitRepos && this.tagGroups == tagGroups
    {
      this.gitRepos := gitRepos;
      this.tagGroups := tagGroups;
      lookupProcessed := false;
      tags := map[];
      lookup := map[];
    }

    ghost predicate Valid()
      reads this
    {
      Sound(tags, lookup)
    }

    /** The index is that of the given repositories and of the tag groups, entered
        in the given order. */
    ghost predicate Indexes(
      repos: seq<GitRepository>, groups: map<string, seq<string>>, order: seq<string>, emptyGroups: seq<string>)
      reads this
    {
      && LookupMatches(lookup, repos)
      && IsOrderOf(groups, order) && GroupsEntered(repos, tags, groups, order, emptyGroups)
    }

    /** Enters the repositories; stops at the first repeated name. */
    method IndexRepositories() returns (panicked: Option<string>)
      modifies this`tags, this`lookup
      ensures Valid()
      ensures panicked.None? <==> DistinctRepositories(gitRepos)
      ensures panicked.None? ==> LookupMatches(lookup, gitRepos) && TagsMatch(tags, gitRepos)
    {
      tags, lookup := map[], map[];
      for idx := 0 to |gitRepos|
        invariant DistinctRepositories(gitRepos[..idx])
        invariant LookupMatches(lookup, gitRepos[..idx]) && TagsMatch(tags, gitRepos[..idx])
      {
        var rp := gitRepos[idx];
        NameTaken(gitRepos, idx, lookup);
        if rp.name in lookup {
          MatchingIsSound(tags, lookup, gitRepos[..idx]);
          return Some(rp.name);
        }
        lookup := lookup[rp.name := rp];
        ghost var was := tags;
        tags := EnterTags(tags, rp);
        MatchOneMore(gitRepos, idx, was, tags);
      }
      assert gitRepos[..|gitRepos|] == gitRepos;
      MatchingIsSound(tags, lookup, gitRepos);
      return None;
    }

    /** What one tag group holds, given the index so far. */
    method CollectGroup(members: seq<string>) returns (group: set<string>)
      requires Valid()
      ensures group == CollectedSet(tags, lookup.Keys, members)
      ensures group <= lookup.Keys
    {
      group := {};
      for k := 0 to |members|
        invariant group == CollectedSet(tags, lookup.Keys, members[..k])
        invariant group <= lookup.Keys
      {
        assert members[..k + 1] == members[..k] + [members[k]];
        var listed := if members[k] in tags then tags[members[k]] else [];
        group := group + set n | n in listed;
        if members[k] in lookup {
          group := group + {members[k]};
        }
      }
      assert members[..|members|] == members;
    }

    /** Enters one tag group. */
    method IndexGroup(gt: string, wasEmpty: seq<string>, ghost repos: seq<GitRepository>, ghost order: seq<string>)
      returns (emptyGroups: seq<string>)
      requires Valid() && LookupMatches(lookup, repos)
      requires gt in tagGroups && gt !in order
      requires GroupsEntered(repos, tags, tagGroups, order, wasEmpty)
      modifies this`tags
      ensures Valid()
      ensures GroupsEntered(repos, tags, tagGroups, order + [gt], emptyGroups)
    {
      var group := CollectGroup(tagGroups[gt]);
      var listed := InSomeOrder(group);
      EnterGroup(repos, tags, lookup, tagGroups, order, wasEmpty, gt, listed);
      EmptyList(listed, group);
      tags := tags[gt := listed];
      emptyGroups := if |group| == 0 then wasEmpty + [gt] else wasEmpty;
    }

    /** Enters the tag groups, in whatever order the map gives them. */
    method IndexGroups(ghost repos: seq<GitRepository>) returns (emptyGroups: seq<string>, ghost order: seq<string>)
      requires LookupMatches(lookup, repos) && TagsMatch(tags, repos)
      modifies this`tags
      ensures Valid()
      ensures IsOrderOf(tagGroups, order) && GroupsEntered(repos, tags, tagGroups, order, emptyGroups)
    {
      emptyGroups, order := [], [];
      var rest := tagGroups.Keys;
      MatchingIsSound(tags, lookup, repos);
      while rest != {}
        invariant Valid()
        invariant rest <= tagGroups.Keys && forall g :: g in order <==> g in tagGroups && g !in rest
        invariant GroupsEntered(repos, tags, tagGroups, order, emptyGroups)
      {
        var gt :| gt in rest;
        emptyGroups := IndexGroup(gt, emptyGroups, repos, order);
        rest, order := rest - {gt}, order + [gt];
      }
    }

    /** rebuildIndexes: only the first call does anything, even one that panics. */
    method RebuildIndexes() returns (r: Rebuilt, ghost order: seq<string>)
      requires Valid()
      modifies this`tags, this`lookup, this`lookupProcessed
      ensures Valid() && lookupProcessed
      ensures old(lookupProcessed) ==> r == Finished([]) && tags == old(tags) && lookup == old(lookup)
      ensures !old(lookupProcessed) ==> (r.Finished? <==> DistinctRepositories(gitRepos))
      ensures !old(lookupProcessed) && r.Finished? ==>
                Indexes(gitRepos, tagGroups, order, r.emptyGroups)
    {
      order := [];
      if lookupProcessed {
        return Finished([]), order;
      }
      lookupProcessed := true;
      var panicked := IndexRepositories();
      if panicked.Some? {
        return Panicked(panicked.value), order;
      }
      var emptyGroups;
      emptyGroups, order := IndexGroups(gitRepos);
      return Finished(emptyGroups), order;
    }

    /** Takes in another configuration. The index, once built, stays as it is. */
    method Join(repos: seq<GitRepository>, groups: map<string, seq<string>>)
      requires Valid()
      modifies this`gitRepos, this`tagGroups
      ensures gitRepos == old(gitRepos) + repos && tagGroups == old(tagGroups) + groups
      ensures Valid()
    {
      gitRepos := gitRepos + repos;
      tagGroups := tagGroups + groups;
    }

    /** FindOne: by name, or else by a tag that lists a single name. The recursion
        goes one level deep. */
    method FindOne(name: string) returns (r: Result<GitRepository, FindError>)
      requires Valid()
      ensures r.Ok? <==> FindsOne(tags, lookup, name)
      ensures r.Ok? ==> Found(tags, lookup, [name]) == [r.value]
      ensures r.Err? ==> r.error == if |Get(tags, name)| > 1 then Ambiguous(|Get(tags, name)|) else NotFound
      decreases if name in lookup then 0 else 1
    {
      FoundByOne(tags, lookup, name);
      if name in lookup {
        return Ok(lookup[name]);
      }
      if name in tags {
        var tagged := tags[name];
        if |tagged| == 1 {
          assert tagged[0] in Elements(tagged);
          FoundByOne(tags, lookup, tagged[0]);
          r := FindOne(tagged[0]);
          return;
        } else if |tagged| > 1 {
          return Err(Ambiguous(|tagged|));
        }
      }
      return Err(NotFound);
    }

    /** FindAll: the repositories that the ids stand for, each once. */
    method FindAll(ids: seq<string>) returns (matching: seq<GitRepository>)
      requires Valid()
      ensures matching == Found(tags, lookup, ids)
    {
      matching := [];
      if |ids| == 0 {
        return;
      }
      var seen: set<string> := {};
      for k := 0 to |ids|
        invariant FoundSoFar(tags, lookup, Candidates(tags, lookup, ids[..k]), seen, matching)
      {
        CandidatesOneMore(tags, lookup, ids, k);
        if ids[k] in lookup {
          seen, matching := AddIfNew([ids[k]], seen, matching, Candidates(tags, lookup, ids[..k]));
        } else {
          seen, matching := AddIfNew(Get(tags, ids[k]), seen, matching, Candidates(tags, lookup, ids[..k]));
        }
      }
      assert ids[..|ids|] == ids;
    }

    /** Adds the repositories of those names that have not been seen. */
    method AddIfNew(names: seq<string>, was: set<string>, found: seq<GitRepository>, ghost before: seq<string>)
      returns (seen: set<string>, matching: seq<GitRepository>)
      requires Elements(names) <= lookup.Keys
      requires FoundSoFar(tags, lookup, before, was, found)
      ensures FoundSoFar(tags, lookup, before + names, seen, matching)
    {
      seen, matching := was, found;
      assert before + names[..0] == before;
      for k := 0 to |names|
        invariant FoundSoFar(tags, lookup, before + names[..k], seen, matching)
      {
        assert names[k] in Elements(names);
        FoundOneMore(tags, lookup, before + names[..k], names[k], seen, matching);
        AddOneMore(before, names, k);
        if names[k] !in seen && names[k] in lookup {
          matching := matching + [lookup[names[k]]];
        }
        seen := seen + {names[k]};
      }
      assert names[..|names|] == names;
    }

    /** What validation says of one group: its name is a repository's or a tag's,
        or something it lists is not both. */
    ghost predicate IsWrong(group: string, e: GroupError)
      requires group in tagGroups
      reads this
    {
      match e
      case GroupIsRepository(g) => g == group && group in lookup
      case GroupIsTag(g) => g == group && group in tags
      case MemberNotRepository(m) => m in tagGroups[group] && m !in lookup
      case MemberNotTag(m) => m in tagGroups[group] && m !in tags
    }

    /** Validation of the tag groups, after the index is built. Since the index
        holds the groups by then, every group is reported as a tag. */
    method DoValidate() returns (r: Rebuilt, errors: seq<GroupError>)
      requires Valid()
      modifies this`tags, this`lookup, this`lookupProcessed
      ensures Valid()
      ensures !old(lookupProcessed) ==> (r.Finished? <==> DistinctRepositories(gitRepos))
      ensures r.Panicked? ==> errors == []
      ensures r.Finished? ==> forall e :: e in errors <==> exists g :: g in tagGroups && IsWrong(g, e)
      ensures r.Finished? && !old(lookupProcessed) ==> forall g | g in tagGroups :: GroupIsTag(g) in errors
    {
      errors := [];
      ghost var order;
      r, order := RebuildIndexes();
      if r.Panicked? {
        return;
      }
      errors := CheckGroups();
      forall g | g in tagGroups && g in tags ensures GroupIsTag(g) in errors {
        assert IsWrong(g, GroupIsTag(g));
      }
    }

    method CheckGroups() returns (errors: seq<GroupError>)
      ensures forall e :: e in errors <==> exists g :: g in tagGroups && IsWrong(g, e)
    {
      errors := [];
      var rest := tagGroups.Keys;
      ghost var checked: set<string> := {};
      while rest != {}
        invariant checked + rest == tagGroups.Keys
        invariant forall e :: e in errors <==> exists g :: g in checked && IsWrong(g, e)
      {
        var group :| group in rest;
        var wrong := GroupErrors(group);
        ghost var was := errors;
        errors := errors + wrong;
        rest := rest - {group};
        forall e ensures e in errors <==> (exists g :: g in checked && IsWrong(g, e)) || IsWrong(group, e) {
          assert e in errors <==> e in was || e in wrong;
        }
        checked := checked + {group};
      }
      assert checked == tagGroups.Keys;
    }

    method GroupErrors(group: string) returns (errors: seq<GroupError>)
      requires group in tagGroups
      ensures forall e :: e in errors <==> IsWrong(group, e)
    {
      errors := (if group in lookup then [GroupIsRepository(group)] else []) +
                (if group in tags then [GroupIsTag(group)] else []);
      ghost var named := errors;
      var members := tagGroups[group];
      for k := 0 to |members|
        invariant forall e :: e in errors <==> e in named || MemberWrong(members[..k], e)
      {
        assert members[..k + 1] == members[..k] + [members[k]];
        if members[k] !in lookup {
          errors := errors + [MemberNotRepository(members[k])];
        }
        if members[k] !in tags {
          errors := errors + [MemberNotTag(members[k])];
        }
      }
      assert members[..|members|] == members;
    }

    ghost predicate MemberWrong(members: seq<string>, e: GroupError)
      reads this
    {
      match e
      case MemberNotRepository(m) => m in members && m !in lookup
      case MemberNotTag(m) => m in members && m !in tags
      case _ => false
    }
  }

  /** Enters one repository under its tags. */
  method EnterTags(was: map<string, seq<string>>, rp: GitRepository) returns (tags: map<string, seq<string>>)
    ensures Entered(was, tags, rp.name, rp.tags)
  {
    tags := was;
    for k := 0 to |rp.tags|
      invariant Entered(was, tags, rp.name, rp.tags[..k])
    {
      var tg := rp.tags[k];
      EnterOne(was, tags, rp.name, rp.tags, k);
      tags := tags[tg := Get(tags, tg) + [rp.name]];
    }
    assert rp.tags[..|rp.tags|] == rp.tags;
  }

  /** A name has been added under each of the tags. */
  ghost predicate Entered(was: map<string, seq<string>>, now: map<string, seq<string>>, name: string, tags: seq<string>) {
    forall t :: Get(now, t) == Get(was, t) + Repeats(name, t, tags)
  }

  lemma EnterOne(was: map<string, seq<string>>, now: map<string, seq<string>>, name: string, tags: seq<string>, k: nat)
    requires k < |tags| && Entered(was, now, name, tags[..k])
    ensures Entered(was, now[tags[k] := Get(now, tags[k]) + [name]], name, tags[..k + 1])
  {
    forall t {
      EnterOneAt(was, now, name, tags, k, t);
    }
  }

  lemma EnterOneAt(
    was: map<string, seq<string>>, now: map<string, seq<string>>, name: string, tags: seq<string>, k: nat, t: string)
    requires k < |tags|
    requires Get(now, t) == Get(was, t) + Repeats(name, t, tags[..k])
    ensures Get(now[tags[k] := Get(now, tags[k]) + [name]], t) == Get(was, t) + Repeats(name, t, tags[..k + 1])
  {
    assert tags[..k + 1][..k] == tags[..k];
  }

  /** A name is in the index exactly when it repeats an earlier one. */
  lemma NameTaken(repos: seq<GitRepository>, k: nat, lookup: map<string, GitRepository>)
    requires k < |repos| && DistinctRepositories(repos[..k]) && LookupMatches(lookup, repos[..k])
    ensures repos[k].name in lookup ==> !DistinctRepositories(repos)
    ensures repos[k].name !in lookup ==>
              DistinctRepositories(repos[..k + 1]) && LookupMatches(lookup[repos[k].name := repos[k]], repos[..k + 1])
  {
    NamedHasName(repos[..k], repos[k].name);
    assert repos[..k + 1][..k] == repos[..k];
    assert forall i | 0 <= i < k :: repos[..k][i] == repos[i];
  }

  lemma MatchOneMore(repos: seq<GitRepository>, k: nat, was: map<string, seq<string>>, tags: map<string, seq<string>>)
    requires k < |repos|
    requires TagsMatch(was, repos[..k]) && Entered(was, tags, repos[k].name, repos[k].tags)
    ensures TagsMatch(tags, repos[..k + 1])
  {
    assert repos[..k + 1][..k] == repos[..k];
  }

  /** The groups in entered are in the index, as lists without repeats; other
      tags are as configured; the empty groups are reported. */
  ghost predicate GroupsListed(
    repos: seq<GitRepository>, tags: map<string, seq<string>>, entered: set<string>, emptyGroups: seq<string>)
  {
    && (forall t | t !in entered :: Get(tags, t) == Tagged(repos, t))
    && (forall g | g in entered :: g in tags && NoDuplicates(tags[g]))
    && (forall g :: g in emptyGroups <==> g in entered && Get(tags, g) == [])
  }

  /** The groups in order have been entered, one after another. */
  ghost predicate GroupsEntered(
    repos: seq<GitRepository>, tags: map<string, seq<string>>, groups: map<string, seq<string>>, order: seq<string>,
    emptyGroups: seq<string>)
  {
    && NoDuplicates(order) && (forall g | g in order :: g in groups)
    && GroupsListed(repos, tags, Elements(order), emptyGroups)
    && forall t, n :: n in Get(tags, t) <==> Lists(repos, groups, order, t, n)
  }

  lemma ListGroup(
    repos: seq<GitRepository>, tags: map<string, seq<string>>, entered: set<string>, emptyGroups: seq<string>,
    gt: string, listed: seq<string>)
    requires GroupsListed(repos, tags, entered, emptyGroups) && gt !in entered
    requires NoDuplicates(listed)
    ensures GroupsListed(repos, tags[gt := listed], entered + {gt}, if listed == [] then emptyGroups + [gt] else emptyGroups)
  {
    var tags' := tags[gt := listed];
    forall g ensures Get(tags', g) == if g == gt then listed else Get(tags, g) {
    }
  }

  lemma EnterGroup(
    repos: seq<GitRepository>, tags: map<string, seq<string>>, lookup: map<string, GitRepository>,
    groups: map<string, seq<string>>, order: seq<string>, emptyGroups: seq<string>, gt: string, listed: seq<string>)
    requires LookupMatches(lookup, repos) && GroupsEntered(repos, tags, groups, order, emptyGroups)
    requires gt in groups && gt !in order
    requires NoDuplicates(listed) && Elements(listed) == CollectedSet(tags, lookup.Keys, groups[gt])
    ensures GroupsEntered(repos, tags[gt := listed], groups, order + [gt],
                          if listed == [] then emptyGroups + [gt] else emptyGroups)
  {
    ListGroup(repos, tags, Elements(order), emptyGroups, gt, listed);
    ElementsConcat(order, [gt]);
    assert Elements([gt]) == {gt};
    KnownAreNamed(lookup, repos);
    forall t, n ensures n in Get(tags[gt := listed], t) <==> Lists(repos, groups, order + [gt], t, n) {
      ListsOneMore(repos, groups, order, gt, t, n);
      if t == gt {
        CollectedLists(repos, tags, lookup.Keys, groups, order, gt, n);
        assert n in listed <==> n in Elements(listed);
      }
    }
  }

  lemma ListsOneMore(
    repos: seq<GitRepository>, groups: map<string, seq<string>>, order: seq<string>, gt: string, tag: string, name: string)
    ensures Lists(repos, groups, order + [gt], tag, name) <==>
            if tag != gt then Lists(repos, groups, order, tag, name)
            else (exists m :: m in Get(groups, gt) && Lists(repos, groups, order, m, name)) ||
                 (name in Get(groups, gt) && Named(repos, name).Some?)
  {
    var longer := order + [gt];
    assert longer[..|longer| - 1] == order && longer[|longer| - 1] == gt;
  }

  lemma EmptyList(listed: seq<string>, group: set<string>)
    requires Elements(listed) == group
    ensures listed == [] <==> group == {}
  {
    if listed != [] {
      assert listed[0] in group;
    }
  }

  lemma KnownAreNamed(lookup: map<string, GitRepository>, repos: seq<GitRepository>)
    requires LookupMatches(lookup, repos)
    ensures forall n :: n in lookup.Keys <==> Named(repos, n).Some?
  {
    forall n ensures n in lookup.Keys <==> Named(repos, n).Some? {
      assert (if n in lookup then Some(lookup[n]) else None) == Named(repos, n);
    }
  }

  ghost function CollectedSet(tags: map<string, seq<string>>, known: set<string>, members: seq<string>): set<string> {
    (set t, n | t in members && t in tags && n in tags[t] :: n) + (set t | t in members && t in known)
  }

  lemma CollectedLists(
    repos: seq<GitRepository>, tags: map<string, seq<string>>, known: set<string>, groups: map<string, seq<string>>,
    order: seq<string>, gt: string, name: string)
    requires gt in groups
    requires forall t, n :: n in Get(tags, t) <==> Lists(repos, groups, order, t, n)
    requires forall n :: n in known <==> Named(repos, n).Some?
    ensures name in CollectedSet(tags, known, groups[gt]) <==>
            (exists m :: m in Get(groups, gt) && Lists(repos, groups, order, m, name)) ||
            (name in Get(groups, gt) && Named(repos, name).Some?)
  {
    assert forall m | m in groups[gt] :: m in tags && name in tags[m] <==> name in Get(tags, m);
  }

  datatype GroupError =
    | GroupIsRepository(group: string) | GroupIsTag(group: string)
    | MemberNotRepository(member: string) | MemberNotTag(member: string)

  // ----- what a list of ids finds

  /** The names an id stands for: itself, if it is a repository's, or else those
      listed under it. */
  ghost function NamesFor(tags: map<string, seq<string>>, lookup: map<string, GitRepository>, id: string): seq<string> {
    if id in lookup then [id] else Get(tags, id)
  }

  ghost function Candidates(tags: map<string, seq<string>>, lookup: map<string, GitRepository>, ids: seq<string>): seq<string> {
    if ids == [] then []
    else Candidates(tags, lookup, ids[..|ids| - 1]) + NamesFor(tags, lookup, ids[|ids| - 1])
  }

  /** The first occurrence of each element, in order. */
  ghost function Deduplicated(s: seq<string>): seq<string> {
    if s == [] then []
    else
      var init, last := s[..|s| - 1], s[|s| - 1];
      Deduplicated(init) + if last in init then [] else [last]
  }

  ghost function Repositories(lookup: map<string, GitRepository>, names: seq<string>): seq<GitRepository> {
    seq(|names|, i requires 0 <= i < |names| =>
      if names[i] in lookup then lookup[names[i]] else GitRepository("", "", "", []))
  }

  /** The repositories that a list of ids finds: in order, without repeats. */
  ghost function Found(tags: map<string, seq<string>>, lookup: map<string, GitRepository>, ids: seq<string>): seq<GitRepository> {
    Repositories(lookup, Deduplicated(Candidates(tags, lookup, ids)))
  }

  ghost predicate FoundSoFar(
    tags: map<string, seq<string>>, lookup: map<string, GitRepository>, names: seq<string>, seen: set<string>,
    matching: seq<GitRepository>)
  {
    seen == Elements(names) && matching == Repositories(lookup, Deduplicated(names))
  }

  lemma AddOneMore<T>(a: seq<T>, b: seq<T>, k: nat)
    requires k < |b|
    ensures a + b[..k + 1] == (a + b[..k]) + [b[k]]
  {
  }

  lemma FoundOneMore(
    tags: map<string, seq<string>>, lookup: map<string, GitRepository>, names: seq<string>, name: string,
    seen: set<string>, matching: seq<GitRepository>)
    requires FoundSoFar(tags, lookup, names, seen, matching) && name in lookup
    ensures FoundSoFar(tags, lookup, names + [name], seen + {name},
                       if name in seen then matching else matching + [lookup[name]])
  {
    assert (names + [name])[..|names|] == names;
  }

  lemma CandidatesOneMore(tags: map<string, seq<string>>, lookup: map<string, GitRepository>, ids: seq<string>, k: nat)
    requires k < |ids|
    ensures Candidates(tags, lookup, ids[..k + 1]) == Candidates(tags, lookup, ids[..k]) + NamesFor(tags, lookup, ids[k])
  {
    assert ids[..k + 1][..k] == ids[..k];
  }

  lemma FoundByOne(tags: map<string, seq<string>>, lookup: map<string, GitRepository>, id: string)
    ensures Candidates(tags, lookup, [id]) == NamesFor(tags, lookup, id)
    ensures |NamesFor(tags, lookup, id)| == 1 ==>
              Found(tags, lookup, [id]) == Repositories(lookup, NamesFor(tags, lookup, id))
  {
    assert [id][..0] == [];
    var names := NamesFor(tags, lookup, id);
    if |names| == 1 {
      OneName(names[0]);
      assert names == [names[0]];
    }
  }

  lemma OneName(n: string)
    ensures Deduplicated([n]) == [n]
  {
    assert [n][..0] == [];
  }

  // ----- the index agrees with a scan of the list

  /** What an id stands for, read off the configured list. */
  ghost function ScanNames(repos: seq<GitRepository>, id: string): seq<string> {
    if Named(repos, id).Some? then [id] else Tagged(repos, id)
  }

  ghost function ScanCandidates(repos: seq<GitRepository>, ids: seq<string>): seq<string> {
    if ids == [] then [] else ScanCandidates(repos, ids[..|ids| - 1]) + ScanNames(repos, ids[|ids| - 1])
  }

  lemma {:induction false} CandidatesByScan(
    tags: map<string, seq<string>>, lookup: map<string, GitRepository>, repos: seq<GitRepository>,
    groups: set<string>, ids: seq<string>)
    requires LookupMatches(lookup, repos)
    requires forall t | t !in groups :: Get(tags, t) == Tagged(repos, t)
    requires forall id | id in ids :: id in groups ==> Named(repos, id).Some?
    ensures Candidates(tags, lookup, ids) == ScanCandidates(repos, ids)
  {
    if ids != [] {
      var k := |ids| - 1;
      assert ids == ids[..k] + [ids[k]];
      CandidatesByScan(tags, lookup, repos, groups, ids[..k]);
      KnownAreNamed(lookup, repos);
      assert ids[k] in ids && (ids[k] in lookup.Keys <==> Named(repos, ids[k]).Some?);
    }
  }

  /** FindAll agrees with a scan that uses no index: every id that is not a tag
      group gives the repository of that name, or else the repositories that
      carry the tag, in configured order; repeats are dropped after the first. */
  lemma FindAllByScan(
    tags: map<string, seq<string>>, lookup: map<string, GitRepository>, repos: seq<GitRepository>,
    groups: map<string, seq<string>>, order: seq<string>, emptyGroups: seq<string>, ids: seq<string>)
    requires LookupMatches(lookup, repos)
    requires IsOrderOf(groups, order) && GroupsEntered(repos, tags, groups, order, emptyGroups)
    requires Sound(tags, lookup)
    requires forall id | id in ids :: id in groups ==> Named(repos, id).Some?
    ensures var names := Deduplicated(ScanCandidates(repos, ids));
            && |Found(tags, lookup, ids)| == |names|
            && forall i | 0 <= i < |names| :: Named(repos, names[i]) == Some(Found(tags, lookup, ids)[i])
  {
    CandidatesByScan(tags, lookup, repos, groups.Keys, ids);
    DeduplicatedSame(Candidates(tags, lookup, ids));
    CandidatesKnown(tags, lookup, ids);
    RepositoriesNamed(lookup, repos, Deduplicated(Candidates(tags, lookup, ids)));
  }

  lemma RepositoriesNamed(lookup: map<string, GitRepository>, repos: seq<GitRepository>, names: seq<string>)
    requires LookupMatches(lookup, repos) && forall n | n in names :: n in lookup
    ensures forall i | 0 <= i < |names| :: Named(repos, names[i]) == Some(Repositories(lookup, names)[i])
  {
    forall i | 0 <= i < |names| ensures Named(repos, names[i]) == Some(Repositories(lookup, names)[i]) {
      assert names[i] in names;
      assert (if names[i] in lookup then Some(lookup[names[i]]) else None) == Named(repos, names[i]);
    }
  }

  /** A tag group finds the repositories it stands for, in some order. */
  lemma GroupFound(
    tags: map<string, seq<string>>, lookup: map<string, GitRepository>, repos: seq<GitRepository>,
    groups: map<string, seq<string>>, order: seq<string>, emptyGroups: seq<string>, group: string)
    requires LookupMatches(lookup, repos)
    requires IsOrderOf(groups, order) && GroupsEntered(repos, tags, groups, order, emptyGroups)
    requires Sound(tags, lookup) && GroupsClosed(groups)
    requires group in groups && Named(repos, group).None?
    ensures forall r :: r in Found(tags, lookup, [group]) <==>
                        r.name in GroupMembers(repos, groups[group]) && Named(repos, r.name) == Some(r)
  {
    KnownAreNamed(lookup, repos);
    assert group !in lookup.Keys;
    FoundByOne(tags, lookup, group);
    var names := Get(tags, group);
    forall n ensures n in Elements(names) <==> n in GroupMembers(repos, groups[group]) {
      ClosedLists(repos, groups, order, group, n);
    }
    DeduplicatedSame(names);
    CandidatesKnown(tags, lookup, [group]);
    forall n | n in lookup ensures Named(repos, n) == Some(lookup[n]) {
      assert (if n in lookup then Some(lookup[n]) else None) == Named(repos, n);
    }
    forall r ensures r in Found(tags, lookup, [group]) <==> r.name in Elements(names) && Named(repos, r.name) == Some(r) {
      RepositoryOf(lookup, Deduplicated(names), r);
    }
  }

  /** What an id stands for, read off the configuration: the repository of that
      name, or else those of the group, or else those with the tag. */
  ghost predicate ScanFinds(repos: seq<GitRepository>, groups: map<string, seq<string>>, id: string, name: string) {
    if Named(repos, id).Some? then name == id
    else if id in groups then name in GroupMembers(repos, groups[id])
    else name in Tagged(repos, id)
  }

  /** For closed groups, and any mixture of names, tags and groups, FindAll finds
      exactly the repositories that the configuration says. */
  lemma FindAllIsScan(
    tags: map<string, seq<string>>, lookup: map<string, GitRepository>, repos: seq<GitRepository>,
    groups: map<string, seq<string>>, order: seq<string>, emptyGroups: seq<string>, ids: seq<string>)
    requires LookupMatches(lookup, repos) && Sound(tags, lookup) && GroupsClosed(groups)
    requires IsOrderOf(groups, order) && GroupsEntered(repos, tags, groups, order, emptyGroups)
    ensures forall r :: r in Found(tags, lookup, ids) <==>
                        Named(repos, r.name) == Some(r) && exists id :: id in ids && ScanFinds(repos, groups, id, r.name)
  {
    var names := Deduplicated(Candidates(tags, lookup, ids));
    DeduplicatedSame(Candidates(tags, lookup, ids));
    CandidatesKnown(tags, lookup, ids);
    forall n | n in lookup ensures Named(repos, n) == Some(lookup[n]) {
      assert (if n in lookup then Some(lookup[n]) else None) == Named(repos, n);
    }
    forall r ensures r in Found(tags, lookup, ids) <==>
                     Named(repos, r.name) == Some(r) && exists id :: id in ids && ScanFinds(repos, groups, id, r.name)
    {
      RepositoryOf(lookup, names, r);
      CandidateOf(tags, lookup, ids, r.name);
      forall id ensures r.name in NamesFor(tags, lookup, id) <==> ScanFinds(repos, groups, id, r.name) {
        NamesByScan(tags, lookup, repos, groups, order, emptyGroups, id, r.name);
      }
      assert (if r.name in lookup then Some(lookup[r.name]) else None) == Named(repos, r.name);
    }
  }

  lemma {:induction false} CandidateOf(
    tags: map<string, seq<string>>, lookup: map<string, GitRepository>, ids: seq<string>, name: string)
    ensures name in Candidates(tags, lookup, ids) <==> exists id :: id in ids && name in NamesFor(tags, lookup, id)
  {
    if ids != [] {
      var init, last := ids[..|ids| - 1], ids[|ids| - 1];
      CandidateOf(tags, lookup, init, name);
      assert ids == init + [last];
    }
  }

  lemma NamesByScan(
    tags: map<string, seq<string>>, lookup: map<string, GitRepository>, repos: seq<GitRepository>,
    groups: map<string, seq<string>>, order: seq<string>, emptyGroups: seq<string>, id: string, name: string)
    requires LookupMatches(lookup, repos) && GroupsClosed(groups)
    requires IsOrderOf(groups, order) && GroupsEntered(repos, tags, groups, order, emptyGroups)
    ensures name in NamesFor(tags, lookup, id) <==> ScanFinds(repos, groups, id, name)
  {
    KnownAreNamed(lookup, repos);
    assert id in lookup.Keys <==> Named(repos, id).Some?;
    ClosedLists(repos, groups, order, id, name);
    assert name in Get(tags, id) <==> Lists(repos, groups, order, id, name);
  }

  lemma RepositoryOf(lookup: map<string, GitRepository>, names: seq<string>, r: GitRepository)
    requires forall n | n in names :: n in lookup && lookup[n].name == n
    ensures r in Repositories(lookup, names) <==> r.name in names && lookup[r.name] == r
  {
    if r.name in names && lookup[r.name] == r {
      var i :| 0 <= i < |names| && names[i] == r.name;
      assert Repositories(lookup, names)[i] == r;
    }
    if r in Repositories(lookup, names) {
      var i :| 0 <= i < |names| && Repositories(lookup, names)[i] == r;
      assert names[i] in names;
    }
  }

  lemma {:induction false} DeduplicatedSame(s: seq<string>)
    ensures forall x :: x in Deduplicated(s) <==> x in s
    ensures NoDuplicates(Deduplicated(s))
  {
    if s != [] {
      DeduplicatedSame(s[..|s| - 1]);
      assert s == s[..|s| - 1] + [s[|s| - 1]];
    }
  }

  /** The element at n in s is x, which is not in front of it. */
  ghost predicate IsFirstAt(s: seq<string>, n: nat, x: string) {
    n < |s| && s[n] == x && forall i | 0 <= i < n :: s[i] != x
  }

  /** The elements are in the order of their first occurrences. */
  lemma {:induction false} FirstOccurrences(s: seq<string>) returns (at: seq<nat>)
    ensures |at| == |Deduplicated(s)| && forall i, j | 0 <= i < j < |at| :: at[i] < at[j]
    ensures forall i | 0 <= i < |at| :: IsFirstAt(s, at[i], Deduplicated(s)[i])
  {
    at := [];
    if s != [] {
      var init, last := s[..|s| - 1], s[|s| - 1];
      at := FirstOccurrences(init);
      forall i | 0 <= i < |at| ensures IsFirstAt(s, at[i], Deduplicated(init)[i]) && at[i] < |s| - 1 {
        FirstStays(s, at[i], Deduplicated(init)[i]);
      }
      if last !in init {
        LastIsFirst(s);
        at := at + [|s| - 1];
      }
    }
  }

  lemma FirstStays(s: seq<string>, n: nat, x: string)
    requires s != [] && IsFirstAt(s[..|s| - 1], n, x)
    ensures IsFirstAt(s, n, x) && n < |s| - 1
  {
  }

  lemma LastIsFirst(s: seq<string>)
    requires s != [] && s[|s| - 1] !in s[..|s| - 1]
    ensures IsFirstAt(s, |s| - 1, s[|s| - 1])
  {
    assert forall i | 0 <= i < |s| - 1 :: s[i] in s[..|s| - 1];
  }

  lemma {:induction false} CandidatesKnown(tags: map<string, seq<string>>, lookup: map<string, GitRepository>, ids: seq<string>)
    requires Sound(tags, lookup)
    ensures forall n | n in Candidates(tags, lookup, ids) :: n in lookup
  {
    if ids != [] {
      var id := ids[|ids| - 1];
      CandidatesKnown(tags, lookup, ids[..|ids| - 1]);
      assert forall n | n in Get(tags, id) :: n in Elements(Get(tags, id));
    }
  }

  /** No repository is found twice. */
  lemma FoundOnce(tags: map<string, seq<string>>, lookup: map<string, GitRepository>, ids: seq<string>)
    requires Sound(tags, lookup)
    ensures NoDuplicates(Found(tags, lookup, ids))
  {
    var names := Deduplicated(Candidates(tags, lookup, ids));
    DeduplicatedSame(Candidates(tags, lookup, ids));
    CandidatesKnown(tags, lookup, ids);
    forall i, j | 0 <= i < j < |names|
      ensures Found(tags, lookup, ids)[i] != Found(tags, lookup, ids)[j]
    {
      assert names[i] in names && names[j] in names;
      assert lookup[names[i]].name == names[i] && lookup[names[j]].name == names[j];
    }
  }

  // ----- where FindOne and FindAll differ

  /** FindOne succeeds. */
  predicate FindsOne(tags: map<string, seq<string>>, lookup: map<string, GitRepository>, id: string) {
    id in lookup || |Get(tags, id)| == 1
  }

  predicate AllEqual(s: seq<string>) {
    forall i | 0 <= i < |s| :: s[i] == s[0]
  }

  /** FindOne refuses an id under which FindAll finds a single repository exactly
      when the id is no repository's name and its list repeats one entry. */
  lemma RepeatedEntryIsAmbiguous(tags: map<string, seq<string>>, lookup: map<string, GitRepository>, id: string)
    ensures |Found(tags, lookup, [id])| == 1 && !FindsOne(tags, lookup, id) <==>
            id !in lookup && |Get(tags, id)| > 1 && AllEqual(Get(tags, id))
  {
    FoundByOne(tags, lookup, id);
    DeduplicatedToOne(NamesFor(tags, lookup, id));
  }

  lemma {:induction false} DeduplicatedToOne(s: seq<string>)
    ensures |Deduplicated(s)| == 1 <==> s != [] && AllEqual(s)
  {
    if s != [] {
      var init, last := s[..|s| - 1], s[|s| - 1];
      DeduplicatedToOne(init);
      DeduplicatedSame(init);
      if init != [] {
        assert init[0] == s[0] && init[0] in Deduplicated(init);
        if AllEqual(s) {
          assert AllEqual(init) && last == init[0];
        }
        if AllEqual(init) && last in init {
          assert last == init[0];
        }
      }
    }
  }

  /** The repository at i is the only one with the tag. */
  ghost predicate OnlyCarrier(repos: seq<GitRepository>, tag: string, i: nat) {
    i < |repos| && forall j | 0 <= j < |repos| :: tag in repos[j].tags <==> j == i
  }

  /** By the configuration: exactly when the id is neither a repository's name nor
      a group, one repository alone carries it as a tag, and lists it more than
      once. */
  lemma RepeatedTagIsAmbiguous(
    tags: map<string, seq<string>>, lookup: map<string, GitRepository>, repos: seq<GitRepository>,
    groups: map<string, seq<string>>, order: seq<string>, emptyGroups: seq<string>, id: string)
    requires LookupMatches(lookup, repos) && DistinctRepositories(repos)
    requires IsOrderOf(groups, order) && GroupsEntered(repos, tags, groups, order, emptyGroups)
    ensures |Found(tags, lookup, [id])| == 1 && !FindsOne(tags, lookup, id) <==>
            && Named(repos, id).None? && id !in groups
            && exists i: nat :: OnlyCarrier(repos, id, i) && multiset(repos[i].tags)[id] > 1
  {
    RepeatedEntryIsAmbiguous(tags, lookup, id);
    KnownAreNamed(lookup, repos);
    assert id in lookup.Keys <==> Named(repos, id).Some?;
    if id in groups {
      assert id in Elements(order) && NoDuplicates(tags[id]);
    } else {
      assert Get(tags, id) == Tagged(repos, id);
      OneCarrier(repos, id);
    }
  }

  lemma OneCarrier(repos: seq<GitRepository>, tag: string)
    requires DistinctRepositories(repos)
    ensures |Tagged(repos, tag)| > 1 && AllEqual(Tagged(repos, tag)) <==>
            exists i: nat :: OnlyCarrier(repos, tag, i) && multiset(repos[i].tags)[tag] > 1
  {
    var names := Tagged(repos, tag);
    if |names| > 1 && AllEqual(names) {
      assert names[0] in names;
      TaggedKnown(repos, tag, names[0]);
      var i :| 0 <= i < |repos| && repos[i].name == names[0] && tag in repos[i].tags;
      forall j | 0 <= j < |repos| && tag in repos[j].tags ensures j == i {
        TaggedCount(repos, tag, j);
        assert repos[j].name in multiset(names);
      }
      TaggedCount(repos, tag, i);
      EqualCount(names, names[0]);
      assert OnlyCarrier(repos, tag, i);
    }
    if i: nat :| OnlyCarrier(repos, tag, i) && multiset(repos[i].tags)[tag] > 1 {
      TaggedCount(repos, tag, i);
      forall k | 0 <= k < |names| ensures names[k] == repos[i].name {
        assert names[k] in names;
        TaggedKnown(repos, tag, names[k]);
      }
      EqualCount(names, repos[i].name);
    }
  }

  lemma {:induction false} EqualCount(s: seq<string>, x: string)
    requires forall i | 0 <= i < |s| :: s[i] == x
    ensures multiset(s)[x] == |s|
  {
    if s != [] {
      EqualCount(s[..|s| - 1], x);
      assert s == s[..|s| - 1] + [s[|s| - 1]];
    }
  }

  lemma {:induction false} RepeatsCount(name: string, tag: string, tags: seq<string>)
    ensures multiset(Repeats(name, tag, tags))[name] == multiset(tags)[tag]
  {
    if tags != [] {
      assert tags == tags[..|tags| - 1] + [tags[|tags| - 1]];
      RepeatsCount(name, tag, tags[..|tags| - 1]);
    }
  }

  /** A tag lists a repository as often as that lists the tag. */
  lemma {:induction false} TaggedCount(repos: seq<GitRepository>, tag: string, i: nat)
    requires DistinctRepositories(repos) && i < |repos|
    ensures multiset(Tagged(repos, tag))[repos[i].name] == multiset(repos[i].tags)[tag]
  {
    var k := |repos| - 1;
    var init, last := repos[..k], repos[k];
    CountInBoth(Tagged(init, tag), Repeats(last.name, tag, last.tags), repos[i].name);
    if i < k {
      TaggedCount(init, tag, i);
      RepeatsOnly(last.name, tag, last.tags);
    } else {
      RepeatsCount(last.name, tag, last.tags);
      if last.name in Tagged(init, tag) {
        TaggedKnown(init, tag, last.name);
      }
    }
  }

  lemma CountInBoth(a: seq<string>, b: seq<string>, x: string)
    ensures multiset(a + b)[x] == multiset(a)[x] + multiset(b)[x]
    ensures (x in a <==> multiset(a)[x] > 0) && (x in b <==> multiset(b)[x] > 0)
  {
  }

  // ----- when the order of the groups does not show

  /** In closed groups, each group stands for what the configured list says. */
  lemma {:induction false} ClosedLists(
    repos: seq<GitRepository>, groups: map<string, seq<string>>, order: seq<string>, tag: string, name: string)
    requires GroupsClosed(groups) && NoDuplicates(order) && forall g | g in order :: g in groups
    ensures Lists(repos, groups, order, tag, name) <==>
            if tag in order then name in GroupMembers(repos, Get(groups, tag)) else name in Tagged(repos, tag)
    decreases |order|
  {
    if order != [] {
      var before, gt := order[..|order| - 1], order[|order| - 1];
      assert order == before + [gt];
      ListsOneMore(repos, groups, before, gt, tag, name);
      if tag != gt {
        ClosedLists(repos, groups, before, tag, name);
      } else {
        forall m | m in groups[gt]
          ensures name in Tagged(repos, m) ==> Lists(repos, groups, before, m, name)
          ensures Lists(repos, groups, before, m, name) ==> name in GroupMembers(repos, groups[gt])
        {
          ClosedLists(repos, groups, before, m, name);
          if m in before {
            assert m != gt && m in groups[m];
            MembersWithin(repos, groups[m], groups[gt], name);
          }
        }
      }
    }
  }

  lemma MembersWithin(repos: seq<GitRepository>, tags: seq<string>, tags': seq<string>, name: string)
    requires forall t | t in tags :: t in tags'
    ensures name in GroupMembers(repos, tags) ==> name in GroupMembers(repos, tags')
    ensures forall t | t in tags && name in Tagged(repos, t) :: name in GroupMembers(repos, tags)
  {
  }

  /** Every group stands for what the configured list says. */
  ghost predicate AsConfigured(repos: seq<GitRepository>, groups: map<string, seq<string>>, order: seq<string>) {
    forall g, n | g in groups :: Lists(repos, groups, order, g, n) <==> n in GroupMembers(repos, groups[g])
  }

  /** Two orders of the groups make the same index. */
  ghost predicate SameLists(
    repos: seq<GitRepository>, groups: map<string, seq<string>>, order: seq<string>, order': seq<string>)
  {
    forall g, n | g in groups :: Lists(repos, groups, order, g, n) <==> Lists(repos, groups, order', g, n)
  }

  /** Whatever the repositories, and in whatever order the map gives the groups,
      each one stands for what the configured list says: this holds exactly of
      closed groups. */
  lemma ConfiguredUnlessOpen(groups: map<string, seq<string>>)
    ensures GroupsClosed(groups) <==>
            forall repos, order | DistinctRepositories(repos) && IsOrderOf(groups, order) :: AsConfigured(repos, groups, order)
  {
    if GroupsClosed(groups) {
      forall repos, order | DistinctRepositories(repos) && IsOrderOf(groups, order) ensures AsConfigured(repos, groups, order) {
        ClosedAsConfigured(repos, groups, order);
      }
    } else {
      var repos, order, order' := OpenGroupShows(groups);
      assert DistinctRepositories(repos) && IsOrderOf(groups, order);
    }
  }

  /** Whatever the repositories, the order in which the map gives the groups does
      not show: this holds exactly of closed groups as well. */
  lemma OrderShowsUnlessClosed(groups: map<string, seq<string>>)
    ensures GroupsClosed(groups) <==>
            forall repos, order, order' | DistinctRepositories(repos) && IsOrderOf(groups, order) && IsOrderOf(groups, order') ::
              SameLists(repos, groups, order, order')
  {
    if GroupsClosed(groups) {
      forall repos, order, order' | DistinctRepositories(repos) && IsOrderOf(groups, order) && IsOrderOf(groups, order')
        ensures SameLists(repos, groups, order, order')
      {
        ClosedAsConfigured(repos, groups, order);
        ClosedAsConfigured(repos, groups, order');
      }
    } else {
      var repos, order, order' := OpenGroupShows(groups);
      assert DistinctRepositories(repos) && IsOrderOf(groups, order) && IsOrderOf(groups, order');
    }
  }

  lemma ClosedAsConfigured(repos: seq<GitRepository>, groups: map<string, seq<string>>, order: seq<string>)
    requires GroupsClosed(groups) && IsOrderOf(groups, order)
    ensures AsConfigured(repos, groups, order)
  {
    forall g, n | g in groups ensures Lists(repos, groups, order, g, n) <==> n in GroupMembers(repos, groups[g]) {
      ClosedLists(repos, groups, order, g, n);
    }
  }

  /** Groups that are not closed: with the right repository, and with the group
      that is listed entered first, the one that lists it is not what the
      configured list says; entered the other way round, it is. */
  lemma OpenGroupShows(groups: map<string, seq<string>>)
    returns (repos: seq<GitRepository>, order: seq<string>, order': seq<string>)
    requires !GroupsClosed(groups)
    ensures DistinctRepositories(repos) && IsOrderOf(groups, order) && IsOrderOf(groups, order')
    ensures !AsConfigured(repos, groups, order) && !SameLists(repos, groups, order, order')
  {
    var g, h :| g in groups && h in groups && g != h && h in groups[g] &&
                !(h in groups[h] && forall m | m in groups[h] :: m in groups[g]);
    var tag := h;
    if h in groups[h] {
      tag :| tag in groups[h] && tag !in groups[g];
    }
    repos, order, order' := OpenPairShows(groups, g, h, tag);
  }

  lemma OpenPairShows(groups: map<string, seq<string>>, g: string, h: string, tag: string)
    returns (repos: seq<GitRepository>, order: seq<string>, order': seq<string>)
    requires g in groups && h in groups && g != h && h in groups[g]
    requires if tag == h then h !in groups[h] else tag in groups[h] && tag !in groups[g]
    ensures DistinctRepositories(repos) && IsOrderOf(groups, order) && IsOrderOf(groups, order')
    ensures !AsConfigured(repos, groups, order) && !SameLists(repos, groups, order, order')
  {
    var name := FreshName(groups[g], groups[h]);
    repos := [GitRepository(name, "", "", [tag])];
    var rest := ListSet(groups.Keys - {g, h});
    order, order' := [h, g] + rest, [g] + ([h] + rest);
    ShowsAt(groups, g, h, name, tag, rest);
    HiddenAt(groups, g, h, name, tag, rest);
  }

  lemma ShowsAt(groups: map<string, seq<string>>, g: string, h: string, name: string, tag: string, rest: seq<string>)
    requires g in groups && h in groups && g != h && h in groups[g] && g !in rest
    requires name !in groups[g] && name !in groups[h]
    requires if tag == h then h !in groups[h] else tag in groups[h] && tag !in groups[g]
    ensures var repos := [GitRepository(name, "", "", [tag])];
            !(Lists(repos, groups, [h, g] + rest, g, name) <==> name in GroupMembers(repos, groups[g]))
  {
    var repos := [GitRepository(name, "", "", [tag])];
    OneRepository(name, tag);
    TwoEntered(name, tag, groups, g, h);
    LaterEntries(repos, groups, [h, g], rest, g, name);
    assert name in Tagged(repos, tag);
    assert name in GroupMembers(repos, groups[g]) <==> tag in groups[g];
  }

  /** A group that is entered first is what the configured list says. */
  lemma HiddenAt(groups: map<string, seq<string>>, g: string, h: string, name: string, tag: string, rest: seq<string>)
    requires g in groups && g != h && g !in rest && name !in groups[g]
    ensures var repos := [GitRepository(name, "", "", [tag])];
            Lists(repos, groups, [g] + ([h] + rest), g, name) <==> name in GroupMembers(repos, groups[g])
  {
    var repos := [GitRepository(name, "", "", [tag])];
    OneRepository(name, tag);
    LaterEntries(repos, groups, [g], [h] + rest, g, name);
    assert [] + [g] == [g];
    ListsOneMore(repos, groups, [], g, g, name);
    assert forall m :: Lists(repos, groups, [], m, name) <==> m == tag;
    assert name in Tagged(repos, tag);
    assert name in GroupMembers(repos, groups[g]) <==> tag in groups[g];
  }

  lemma OneRepository(name: string, tag: string)
    ensures var repos := [GitRepository(name, "", "", [tag])];
            (forall t, n :: n in Tagged(repos, t) <==> t == tag && n == name) &&
            (forall n :: Named(repos, n).Some? <==> n == name)
  {
    var r := GitRepository(name, "", "", [tag]);
    forall t, n ensures n in Tagged([r], t) <==> t == tag && n == name {
      assert [r][..0] == [] && [tag][..0] == [];
      assert Tagged([r], t) == Tagged([], t) + Repeats(name, t, [tag]);
      assert Repeats(name, t, [tag]) == Repeats(name, t, []) + if tag == t then [name] else [];
    }
    forall n ensures Named([r], n).Some? <==> n == name {
      NamedHasName([r], n);
    }
  }

  /** With one repository, which neither group names: once h and then g have been
      entered, g lists it if h does, or if g lists its tag and that is not h. */
  lemma TwoEntered(name: string, tag: string, groups: map<string, seq<string>>, g: string, h: string)
    requires g in groups && h in groups && g != h && h in groups[g]
    requires name !in groups[g] && name !in groups[h]
    ensures var repos := [GitRepository(name, "", "", [tag])];
            Lists(repos, groups, [h, g], g, name) <==> tag in groups[h] || (tag in groups[g] && tag != h)
  {
    var repos := [GitRepository(name, "", "", [tag])];
    OneRepository(name, tag);
    assert [] + [h] == [h] && [h] + [g] == [h, g];
    forall t ensures Lists(repos, groups, [h], t, name) <==> if t == h then tag in groups[h] else t == tag {
      ListsOneMore(repos, groups, [], h, t, name);
      assert forall m :: Lists(repos, groups, [], m, name) <==> m == tag;
    }
    ListsOneMore(repos, groups, [h], g, g, name);
  }

  /** Groups entered later do not change what an earlier one stands for. */
  lemma {:induction false} LaterEntries(
    repos: seq<GitRepository>, groups: map<string, seq<string>>, order: seq<string>, rest: seq<string>, tag: string,
    name: string)
    requires tag !in rest
    ensures Lists(repos, groups, order + rest, tag, name) <==> Lists(repos, groups, order, tag, name)
  {
    if rest == [] {
      assert order + rest == order;
    } else {
      var init, last := rest[..|rest| - 1], rest[|rest| - 1];
      assert order + rest == (order + init) + [last];
      LaterEntries(repos, groups, order, init, tag, name);
      ListsOneMore(repos, groups, order + init, last, tag, name);
    }
  }

  lemma FreshName(a: seq<string>, b: seq<string>) returns (n: string)
    ensures n !in a && n !in b
  {
    n := LongName(a + b);
    assert forall x | x in a || x in b :: x in a + b;
  }

  /** A name that is longer than any in a list. */
  lemma {:induction false} LongName(s: seq<string>) returns (n: string)
    ensures forall x | x in s :: |x| < |n|
  {
    if s == [] {
      n := "r";
    } else {
      var shorter := LongName(s[1..]);
      n := if |s[0]| < |shorter| then shorter else s[0] + "r";
      assert s == [s[0]] + s[1..];
    }
  }

  lemma {:induction false} ListSet(s: set<string>) returns (r: seq<string>)
    ensures NoDuplicates(r) && forall x :: x in r <==> x in s
  {
    if s == {} {
      r := [];
    } else {
      var x :| x in s;
      r := ListSet(s - {x});
      r := r + [x];
    }
  }
}
