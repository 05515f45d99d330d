/** Dotted names (util/dots.go): joining, splitting, and the paths they
    stand for. */
module Dots {
  import opened Prelude

  function DotSplit(s: string): (r: seq<string>)
    ensures |r| >= 1
  {
    Split(s, '.')
  }

  /** The library's strings.Join, with ".". */
  function Join(parts: seq<string>): string {
    if parts == [] then ""
    else if |parts| == 1 then parts[0]
    else parts[0] + "." + Join(parts[1..])
  }

  predicate IsZero(s: string) {
    s == ""
  }

  /** Unicode's white space, but for the block from U+2000. */
  const WHITE_SPACE: set<int> :=
    {9, 10, 11, 12, 13, 32, 0x85, 0xA0, 0x1680, 0x2028, 0x2029, 0x202F, 0x205F, 0x3000}

  predicate IsSpace(c: char) {
    c as int in WHITE_SPACE || 0x2000 <= c as int <= 0x200A
  }

  /** Nothing is left of s after trimming white space. */
  predicate IsWhitespace(s: string) {
    forall i | 0 <= i < |s| :: IsSpace(s[i])
  }

  function JoinAnd(pfn: seq<string -> bool>): string -> bool {
    s => forall i | 0 <= i < |pfn| :: pfn[i](s)
  }

  /** The non-empty strings. */
  function Sparse(elems: seq<string>): seq<string> {
    if elems == [] then []
    else if IsZero(elems[0]) then Sparse(elems[1..])
    else [elems[0]] + Sparse(elems[1..])
  }

  function DotJoin(elems: seq<string>): string {
    Join(Sparse(elems))
  }

  /** The path a dotted name stands for: its non-empty segments. */
  function Path(s: string): seq<string> {
    Sparse(DotSplit(s))
  }

  // ----- compaction in place

  /** The library's slices.DeleteFunc: keeps the other elements in order at the
      front, and clears what is left behind them. */
  method DeleteFunc(a: array<string>, del: string -> bool) returns (n: nat)
    modifies a
    ensures n <= a.Length
    ensures a[..n] == Filter(s => !del(s), old(a[..]))
    ensures forall i | n <= i < a.Length :: a[i] == ""
  {
    n := 0;
    ghost var was := a[..];
    for k := 0 to a.Length
      invariant n <= k
      invariant a[..n] == Filter(s => !del(s), was[..k])
      invariant forall i | k <= i < a.Length :: a[i] == was[i]
    {
      FilterOneMore(s => !del(s), was, k);
      if !del(a[k]) {
        a[n] := a[k];
        n := n + 1;
        assert a[..n] == a[..n - 1] + [was[k]];
      }
    }
    assert was[..a.Length] == was;
    Clear(a, n);
  }

  method Clear(a: array<string>, n: nat)
    requires n <= a.Length
    modifies a
    ensures a[..n] == old(a[..n])
    ensures forall i | n <= i < a.Length :: a[i] == ""
  {
    for k := n to a.Length
      invariant a[..n] == old(a[..n])
      invariant forall i | n <= i < k :: a[i] == ""
    {
      a[k] := "";
    }
  }

  /** SparseString drops a string only when it is both empty and blank, and so
      keeps blank strings that have characters. */
  method SparseString(a: array<string>) returns (n: nat)
    modifies a
    ensures n <= a.Length
    ensures a[..n] == Sparse(old(a[..]))
  {
    var del := JoinAnd([IsZero, IsWhitespace]);
    n := DeleteFunc(a, del);
    forall s ensures del(s) <==> s == "" {
      DropsOnlyEmpty(s);
    }
    DeletesOnlyEmpty(del, old(a[..]));
  }

  lemma {:induction false} DeletesOnlyEmpty(del: string -> bool, elems: seq<string>)
    requires forall s :: del(s) <==> s == ""
    ensures Filter(s => !del(s), elems) == Sparse(elems)
  {
    if elems != [] {
      DeletesOnlyEmpty(del, elems[1..]);
    }
  }

  lemma DropsOnlyEmpty(s: string)
    ensures JoinAnd([IsZero, IsWhitespace])(s) <==> s == ""
  {
    var pfn := [IsZero, IsWhitespace];
    assert pfn[0](s) <==> s == "";
    if s == "" {
      assert pfn[1](s);
    }
  }

  /** MakeSparse on strings. */
  method MakeSparse(a: array<string>) returns (n: nat)
    modifies a
    ensures n <= a.Length
    ensures a[..n] == Sparse(old(a[..]))
  {
    var del := IsZero;
    n := DeleteFunc(a, del);
    DeletesOnlyEmpty(del, old(a[..]));
  }

  // ----- splitting and joining

  /** Joining the segments of a name gives the name back. */
  lemma {:induction false} JoinSplit(s: string)
    ensures Join(DotSplit(s)) == s
  {
    if s != [] {
      JoinSplit(s[1..]);
      var rest := DotSplit(s[1..]);
      if s[0] != '.' && |rest| > 1 {
        assert DotSplit(s)[1..] == rest[1..];
      } else if s[0] == '.' {
        assert DotSplit(s)[1..] == rest;
      }
    }
  }

  /** Splitting a joined list of dot-free segments gives the list back. */
  lemma {:induction false} SplitJoin(parts: seq<string>)
    requires parts != []
    requires forall p | p in parts :: '.' !in p
    ensures DotSplit(Join(parts)) == parts
  {
    SplitDotFree(parts[0]);
    if |parts| > 1 {
      SplitJoin(parts[1..]);
      SplitConcat(parts[0], Join(parts[1..]));
    }
  }

  lemma SplitDotFree(s: string)
    requires '.' !in s
    ensures DotSplit(s) == [s]
  {
    SplitPlain(s, '.');
  }

  lemma SplitConcat(a: string, b: string)
    ensures DotSplit(a + "." + b) == DotSplit(a) + DotSplit(b)
  {
    SplitBetween(a, '.', b);
  }

  lemma PathConcat(a: string, b: string)
    ensures Path(a + "." + b) == Path(a) + Path(b)
  {
    SplitConcat(a, b);
    SparseConcat(DotSplit(a), DotSplit(b));
  }

  ghost function Paths(elems: seq<string>): seq<string> {
    if elems == [] then [] else Path(elems[0]) + Paths(elems[1..])
  }

  lemma {:induction false} PathJoin(elems: seq<string>)
    ensures Path(Join(elems)) == Paths(elems)
  {
    if |elems| == 1 {
      assert Paths(elems[1..]) == [];
    } else if |elems| > 1 {
      PathConcat(elems[0], Join(elems[1..]));
      PathJoin(elems[1..]);
    }
  }

  lemma {:induction false} PathsSparse(elems: seq<string>)
    ensures Paths(Sparse(elems)) == Paths(elems)
  {
    if elems != [] {
      PathsSparse(elems[1..]);
    }
  }

  /** The path of a joined name is the paths of its parts, one after another,
      whatever dots the parts contain. */
  lemma PathDotJoin(elems: seq<string>)
    ensures Path(DotJoin(elems)) == Paths(elems)
  {
    PathJoin(Sparse(elems));
    PathsSparse(elems);
  }

  // ----- joining is associative

  lemma {:induction false} JoinConcat(a: seq<string>, b: seq<string>)
    requires a != [] && b != []
    ensures Join(a + b) == Join(a) + "." + Join(b)
  {
    assert (a + b)[1..] == a[1..] + b;
    if |a| > 1 {
      JoinConcat(a[1..], b);
      assert Join(a + b) == a[0] + "." + (Join(a[1..]) + "." + Join(b));
    }
  }

  lemma {:induction false} JoinEmpty(a: seq<string>)
    requires forall s | s in a :: s != ""
    ensures Join(a) == "" <==> a == []
  {
    if a != [] {
      assert a[0] in a && |a[0]| > 0;
    }
  }

  lemma {:induction false} SparseConcat(a: seq<string>, b: seq<string>)
    ensures Sparse(a + b) == Sparse(a) + Sparse(b)
  {
    if a == [] {
      assert a + b == b;
    } else {
      assert (a + b)[1..] == a[1..] + b;
      SparseConcat(a[1..], b);
    }
  }

  lemma {:induction false} SparseHasNoEmpty(elems: seq<string>)
    ensures forall s | s in Sparse(elems) :: s != ""
  {
    if elems != [] {
      SparseHasNoEmpty(elems[1..]);
    }
  }

  lemma DotJoinTwo(a: string, b: string)
    ensures DotJoin([a, b]) == if a == "" then b else if b == "" then a else a + "." + b
  {
    var parts := [a, b];
    assert parts[1..] == [b] && parts[1..][1..] == [];
    var last := [b];
    var q := Sparse(last);
    assert last[1..] == [] && Sparse(last[1..]) == [];
    assert q == if b == "" then [] else [b];
    assert Sparse(parts) == if a == "" then q else [a] + q;
    if a != "" && b != "" {
      var both := [a] + q;
      assert both[1..] == [b];
      assert Join(both) == a + "." + Join(both[1..]) == a + "." + b;
    }
  }

  lemma DotJoinConcat(a: seq<string>, b: seq<string>)
    ensures DotJoin(a + b) == DotJoin([DotJoin(a), DotJoin(b)])
  {
    var p, q := Sparse(a), Sparse(b);
    SparseConcat(a, b);
    SparseHasNoEmpty(a);
    SparseHasNoEmpty(b);
    JoinEmpty(p);
    JoinEmpty(q);
    DotJoinTwo(Join(p), Join(q));
    if p == [] {
      assert p + q == q;
    } else if q == [] {
      assert p + q == p;
    } else {
      JoinConcat(p, q);
    }
  }

  lemma DotJoinOne(s: string)
    ensures DotJoin([s]) == s
  {
    assert Sparse([s]) == if s == "" then [] else [s];
  }

  /** A name may be joined in one go, or with any run of its parts joined
      first. */
  lemma DotJoinAssociative(before: seq<string>, middle: seq<string>, after: seq<string>)
    ensures DotJoin(before + [DotJoin(middle)] + after) == DotJoin(before + middle + after)
  {
    var name := DotJoin(middle);
    DotJoinOne(name);
    DotJoinConcat(before + [name], after);
    DotJoinConcat(before, [name]);
    DotJoinConcat(before + middle, after);
    DotJoinConcat(before, middle);
  }

  /** Empty parts do not show. */
  lemma DotJoinDropsEmpty(before: seq<string>, after: seq<string>)
    ensures DotJoin(before + [""] + after) == DotJoin(before + after)
  {
    var empty: seq<string> := [""];
    SparseConcat(before + empty, after);
    SparseConcat(before, empty);
    SparseConcat(before, after);
    assert empty[1..] == [] && Sparse(empty) == Sparse(empty[1..]);
    assert Sparse(before) + [] == Sparse(before);
  }

  // ----- paths are canonical

  lemma {:induction false} SegmentsDotFree(s: string)
    ensures forall p | p in DotSplit(s) :: '.' !in p
  {
    if s != [] {
      SegmentsDotFree(s[1..]);
      var rest := DotSplit(s[1..]);
      forall p | p in DotSplit(s) ensures '.' !in p {
        assert rest[0] in rest;
        assert p == [] || p in rest || p == [s[0]] + rest[0];
      }
    }
  }

  /** A path is the path of the name that its segments join to: dropping empty
      segments from a name does not change where it leads. */
  lemma PathCanonical(s: string)
    ensures Path(DotJoin(Path(s))) == Path(s)
  {
    var p := Path(s);
    SegmentsDotFree(s);
    SparseWithin(DotSplit(s));
    SparseIdempotent(DotSplit(s));
    if p != [] {
      SplitJoin(p);
    }
  }

  lemma {:induction false} SparseWithin(elems: seq<string>)
    ensures forall s | s in Sparse(elems) :: s in elems
  {
    if elems != [] {
      SparseWithin(elems[1..]);
    }
  }

  lemma {:induction false} SparseIdempotent(elems: seq<string>)
    ensures Sparse(Sparse(elems)) == Sparse(elems)
  {
    if elems != [] {
      SparseIdempotent(elems[1..]);
    }
  }

  /** Equal group keys with the same category come from equal names. */
  lemma KeyDeterminesName(category: string, name: string, name': string)
    requires DotJoin([category, name]) == DotJoin([category, name'])
    ensures name == name'
  {
    DotJoinTwo(category, name);
    DotJoinTwo(category, name');
    if category != "" {
      assert |category| > 0;
      if name != "" && name' != "" {
        var k, k' := category + "." + name, category + "." + name';
        assert name == k[|category| + 1..] && name' == k'[|category| + 1..];
      }
    }
  }

  /** Without dots in them, a category and a non-empty name can be read off the
      key. */
  lemma DotFreeKey(category: string, name: string, category': string, name': string)
    requires '.' !in category && '.' !in name && '.' !in category' && '.' !in name'
    requires name != "" && name' != ""
    requires DotJoin([category, name]) == DotJoin([category', name'])
    ensures category == category' && name == name'
  {
    DotJoinTwo(category, name);
    DotJoinTwo(category', name');
    SplitKey(category, name);
    SplitKey(category', name');
  }

  lemma SplitKey(category: string, name: string)
    requires '.' !in category && '.' !in name && name != ""
    ensures DotSplit(DotJoin([category, name])) == if category == "" then [name] else [category, name]
  {
    DotJoinTwo(category, name);
    SplitDotFree(name);
    if category != "" {
      SplitDotFree(category);
      SplitConcat(category, name);
    }
  }
}
