/** What merging values keeps and what it loses: commands and hints. */
module MergeLaws {
  import opened Dots
  import opened Groups
  import opened MergeGroups
  import opened Sums

  /** What each group contributes under a key. */
  ghost function Share(key: string): Group -> multiset<Command> {
    (g: Group) => if g.Key() == key then multiset(g.commands) else multiset{}
  }

  /** The same, counting only the groups of a category. */
  ghost function ShareIn(key: string, category: string): Group -> multiset<Command> {
    (g: Group) => if g.category == category && g.Key() == key then multiset(g.commands) else multiset{}
  }

  /** The commands of the groups with a key. */
  ghost function Under(groups: seq<Group>, key: string): multiset<Command> {
    Total(Share(key), groups)
  }

  /** The commands of the groups with a key and a category. */
  ghost function UnderIn(groups: seq<Group>, key: string, category: string): multiset<Command> {
    Total(ShareIn(key, category), groups)
  }

  // ----- one merged group

  /** Merging changes only the aliases, the commands and the hint. */
  lemma {:induction false} MergedKeepsIdentity(w: seq<Group>, keys: seq<string>, k: nat, n: nat)
    requires |keys| == |w| && k < n <= |w|
    ensures var m := MergedUpTo(w, keys, k, n);
            m == w[k].(aliases := m.aliases, commands := m.commands, sortHint := m.sortHint)
    decreases n
  {
    if n > k + 1 {
      MergedKeepsIdentity(w, keys, k, n - 1);
    }
  }

  lemma MergeAddsCommands(cg: Group, rhv: Group)
    ensures multiset(Merge(cg, rhv).commands) == multiset(cg.commands) + multiset(rhv.commands)
  {
  }

  lemma TotalTake<G, C>(f: G -> multiset<C>, s: seq<G>, n: nat)
    requires 0 < n <= |s|
    ensures Total(f, s[..n]) == Total(f, s[..n - 1]) + f(s[n - 1])
  {
    assert s[..n][..n - 1] == s[..n - 1];
  }

  /** What the next group adds to the merged one is its share of the key and
      category. */
  lemma MergeOneMore(w: seq<Group>, keys: seq<string>, k: nat, n: nat)
    requires keys == Keys(w) && k + 1 < n <= |w|
    ensures multiset(MergedUpTo(w, keys, k, n).commands) ==
            multiset(MergedUpTo(w, keys, k, n - 1).commands) + ShareIn(keys[k], w[k].category)(w[n - 1])
  {
    MergedKeepsIdentity(w, keys, k, n - 1);
    var m, g := MergedUpTo(w, keys, k, n - 1), w[n - 1];
    assert keys[n - 1] == g.Key() && keys[k] == m.Key();
    if keys[n - 1] == keys[k] {
      AcceptsSameCategory(m, g);
      MergeAddsCommands(m, g);
    }
  }

  /** A merged group has the commands of the groups of its key and category. */
  lemma {:induction false} MergedCommands(w: seq<Group>, keys: seq<string>, k: nat, n: nat)
    requires keys == Keys(w) && k < n <= |w| && IsFirst(keys, k)
    ensures multiset(MergedUpTo(w, keys, k, n).commands) == UnderIn(w[..n], keys[k], w[k].category)
    decreases n
  {
    TotalTake(ShareIn(keys[k], w[k].category), w, n);
    if n == k + 1 {
      NothingBefore(w, keys, k);
    } else {
      MergedCommands(w, keys, k, n - 1);
      MergeOneMore(w, keys, k, n);
    }
  }

  lemma NothingBefore(w: seq<Group>, keys: seq<string>, k: nat)
    requires keys == Keys(w) && k < |w| && IsFirst(keys, k)
    ensures UnderIn(w[..k], keys[k], w[k].category) == multiset{}
  {
    forall g | g in w[..k] ensures g.Key() != keys[k] {
      var j :| 0 <= j < k && w[j] == g;
      assert keys[j] == g.Key();
    }
    TotalNone(ShareIn(keys[k], w[k].category), w[..k]);
  }

  // ----- the whole list

  /** The merged group of a key, and the keys of the others. */
  lemma MergedOf(w: seq<Group>, keys: seq<string>, heads: seq<nat>, merged: seq<Group>, key: string) returns (i: nat)
    requires keys == Keys(w) && AreMerged(w, keys, heads, merged) && key in keys
    ensures i < |heads| && heads[i] == FirstOf(keys, key)
    ensures forall j | 0 <= j < |merged| :: merged[j].Key() == key <==> j == i
  {
    var k := FirstOf(keys, key);
    assert IsFirst(keys, k) && k in heads;
    i :| 0 <= i < |heads| && heads[i] == k;
    forall j | 0 <= j < |merged| ensures merged[j].Key() == key <==> j == i {
      MergedKeepsIdentity(w, keys, heads[j], |w|);
      assert heads[j] in heads;
      assert merged[j].Key() == w[heads[j]].Key() == keys[heads[j]];
    }
  }

  /** After merging, the commands under a key are those of the groups with the
      key and with the category of its first group. */
  lemma CommandsAfterMerge(
    w: seq<Group>, keys: seq<string>, heads: seq<nat>, merged: seq<Group>, result: seq<Group>, key: string)
    requires keys == Keys(w) && AreMerged(w, keys, heads, merged) && key in keys
    requires multiset(result) == multiset(merged)
    ensures Under(result, key) == UnderIn(w, key, w[FirstOf(keys, key)].category)
  {
    var i := MergedOf(w, keys, heads, merged, key);
    var k := heads[i];
    TotalPermuted(Share(key), result, merged);
    TotalOne(Share(key), merged, i);
    MergedCommands(w, keys, k, |w|);
    assert w[..|w|] == w;
  }

  /** Merging conserves the commands under a key exactly when the groups that
      share the key without sharing the first one's category are empty. */
  lemma MergeConserves(
    w: seq<Group>, keys: seq<string>, heads: seq<nat>, merged: seq<Group>, result: seq<Group>, key: string)
    requires keys == Keys(w) && AreMerged(w, keys, heads, merged) && key in keys
    requires multiset(result) == multiset(merged)
    ensures Under(result, key) == Under(w, key) <==>
            forall j | 0 <= j < |w| && w[j].Key() == key && w[j].category != w[FirstOf(keys, key)].category ::
              w[j].commands == []
  {
    CommandsAfterMerge(w, keys, heads, merged, result, key);
    var category := w[FirstOf(keys, key)].category;
    var part, all := ShareIn(key, category), Share(key);
    TotalSmaller(part, all, w);
    forall j | 0 <= j < |w|
      ensures part(w[j]) == all(w[j]) <==> (w[j].Key() == key && w[j].category != category ==> w[j].commands == [])
    {
      assert |multiset(w[j].commands)| == |w[j].commands|;
    }
    assert forall g | g in w :: exists j :: 0 <= j < |w| && w[j] == g;
  }

  /** Without dots in categories and names, and with no empty name, nothing is
      lost. */
  lemma DotFreeMergeConserves(
    w: seq<Group>, keys: seq<string>, heads: seq<nat>, merged: seq<Group>, result: seq<Group>, key: string)
    requires keys == Keys(w) && AreMerged(w, keys, heads, merged)
    requires multiset(result) == multiset(merged)
    requires forall g | g in w :: '.' !in g.category && '.' !in g.name && g.name != ""
    ensures Under(result, key) == Under(w, key)
  {
    if key in keys {
      MergeConserves(w, keys, heads, merged, result, key);
      var first := w[FirstOf(keys, key)];
      assert first.Key() == key;
      forall j | 0 <= j < |w| && w[j].Key() == key ensures w[j].category == first.category {
        DotFreeKey(w[j].category, w[j].name, first.category, first.name);
      }
    } else {
      forall j | 0 <= j < |w| ensures w[j].Key() != key {
        assert keys[j] == w[j].Key();
      }
      TotalNone(Share(key), w);
      TotalPermuted(Share(key), result, merged);
      forall i | 0 <= i < |merged| ensures merged[i].Key() != key {
        MergedKeepsIdentity(w, keys, heads[i], |w|);
        assert keys[heads[i]] == w[heads[i]].Key();
      }
      TotalNone(Share(key), merged);
    }
  }

  /** A category with a dot in it can meet another group's key, and that group's
      commands are lost. */
  lemma DottedCategoryLoses()
    ensures var c := Command("run", "", "", "run", false, 0, "");
            var a := Group("x", "y.z", [], "", NoHost, [], [], 0, false);
            var b := Group("x.y", "z", [], "", NoHost, [c], [], 0, false);
            a.Key() == b.Key() && !Accepts(a, b) && forall heads, merged, result |
              AreMerged([a, b], Keys([a, b]), heads, merged) && multiset(result) == multiset(merged) ::
              c in Under([a, b], a.Key()) && c !in Under(result, a.Key())
  {
    var c := Command("run", "", "", "run", false, 0, "");
    var a := Group("x", "y.z", [], "", NoHost, [], [], 0, false);
    var b := Group("x.y", "z", [], "", NoHost, [c], [], 0, false);
    var w := [a, b];
    DotJoinTwo("x", "y.z");
    DotJoinTwo("x.y", "z");
    assert "x" + "." + "y.z" == "x.y" + "." + "z";
    var keys, key := Keys(w), a.Key();
    assert keys[0] == key && keys[1] == key;
    assert w[..1] == [a] && w[..0] == [];
    assert Under(w, key) == Total(Share(key), [a]) + Share(key)(b);
    forall heads, merged, result | AreMerged(w, keys, heads, merged) && multiset(result) == multiset(merged)
      ensures c !in Under(result, key)
    {
      CommandsAfterMerge(w, keys, heads, merged, result, key);
      assert FirstOf(keys, key) == 0;
      assert UnderIn(w, key, "x") == UnderIn([a], key, "x");
      assert [a][..0] == [];
      assert UnderIn([a], key, "x") == UnderIn([], key, "x") + ShareIn(key, "x")(a);
    }
  }

  // ----- hints

  /** j is among the groups merged into the one at k. */
  ghost predicate Joins(w: seq<Group>, keys: seq<string>, k: nat, j: nat)
    requires |keys| == |w| && k < |w| && j < |w|
  {
    k <= j && keys[j] == keys[k] && w[j].category == w[k].category
  }

  /** j is the first of those merged into k, up to n, whose hint has the greatest
      absolute value. */
  ghost predicate IsFirstGreatest(w: seq<Group>, keys: seq<string>, k: nat, n: nat, j: nat)
    requires |keys| == |w| && k < n <= |w|
  {
    && k <= j < n && Joins(w, keys, k, j)
    && (forall i | k <= i < n && Joins(w, keys, k, i) :: Abs(w[i].sortHint) <= Abs(w[j].sortHint))
    && (forall i | k <= i < j && Joins(w, keys, k, i) :: Abs(w[i].sortHint) < Abs(w[j].sortHint))
  }

  /** A merged group's hint is the first one of greatest absolute value among
      the groups that went into it. */
  lemma {:induction false} MergedHint(w: seq<Group>, keys: seq<string>, k: nat, n: nat) returns (j: nat)
    requires keys == Keys(w) && k < n <= |w|
    ensures IsFirstGreatest(w, keys, k, n, j) && MergedUpTo(w, keys, k, n).sortHint == w[j].sortHint
    decreases n
  {
    if n == k + 1 {
      j := k;
    } else {
      var i := MergedHint(w, keys, k, n - 1);
      HintOneMore(w, keys, k, n);
      j := if Joins(w, keys, k, n - 1) && Abs(w[i].sortHint) < Abs(w[n - 1].sortHint) then n - 1 else i;
      GreatestOneMore(w, keys, k, n, i, j);
    }
  }

  lemma GreatestOneMore(w: seq<Group>, keys: seq<string>, k: nat, n: nat, i: nat, j: nat)
    requires |keys| == |w| && k + 1 < n <= |w| && IsFirstGreatest(w, keys, k, n - 1, i)
    requires j == if Joins(w, keys, k, n - 1) && Abs(w[i].sortHint) < Abs(w[n - 1].sortHint) then n - 1 else i
    ensures IsFirstGreatest(w, keys, k, n, j)
  {
  }

  lemma HintOneMore(w: seq<Group>, keys: seq<string>, k: nat, n: nat)
    requires keys == Keys(w) && k + 1 < n <= |w|
    ensures var m, g := MergedUpTo(w, keys, k, n - 1), w[n - 1];
            MergedUpTo(w, keys, k, n).sortHint ==
            if Joins(w, keys, k, n - 1) && Abs(m.sortHint) < Abs(g.sortHint) then g.sortHint else m.sortHint
  {
    MergedKeepsIdentity(w, keys, k, n - 1);
    var m, g := MergedUpTo(w, keys, k, n - 1), w[n - 1];
    assert keys[n - 1] == g.Key() && keys[k] == m.Key();
    if keys[n - 1] == keys[k] {
      AcceptsSameCategory(m, g);
    }
  }
}
