/** Small vocabulary shared by every component: optional values, results that
    may be errors, and a few facts about sequences. */
module Prelude {

  datatype Option<+T> = None | Some(value: T)

  datatype Result<+T, +E> = Ok(value: T) | Err(error: E)

  ghost predicate NoDuplicates<T>(s: seq<T>) {
    forall i, j | 0 <= i < j < |s| :: s[i] != s[j]
  }

  ghost function Elements<T>(s: seq<T>): set<T> {
    set x | x in s
  }

  lemma ElementsConcat<T>(a: seq<T>, b: seq<T>)
    ensures Elements(a + b) == Elements(a) + Elements(b)
  {
  }

  /** The elements of s that satisfy keep, in order. */
  function Filter<T>(keep: T -> bool, s: seq<T>): (r: seq<T>)
    ensures |r| <= |s|
    ensures forall x | x in r :: x in s && keep(x)
    ensures forall x | x in s && keep(x) :: x in r
  {
    if s == [] then []
    else if keep(s[0]) then [s[0]] + Filter(keep, s[1..])
    else Filter(keep, s[1..])
  }

  /** The last element of s that satisfies has. */
  function Last<T>(has: T -> bool, s: seq<T>): Option<T> {
    if s == [] then None
    else if has(s[|s| - 1]) then Some(s[|s| - 1])
    else Last(has, s[..|s| - 1])
  }

  lemma {:induction false} LastIsLast<T>(has: T -> bool, s: seq<T>)
    ensures match Last(has, s)
            case Some(x) => exists i | 0 <= i < |s| :: s[i] == x && has(s[i]) && forall j | i < j < |s| :: !has(s[j])
            case None => forall i | 0 <= i < |s| :: !has(s[i])
  {
    if s != [] && !has(s[|s| - 1]) {
      var init := s[..|s| - 1];
      LastIsLast(has, init);
      if Last(has, init).Some? {
        var i :| 0 <= i < |init| && init[i] == Last(has, init).value && has(init[i]) && forall j | i < j < |init| :: !has(init[j]);
        assert s[i] == init[i] && forall j | i < j < |init| :: s[j] == init[j];
      }
    }
  }

  /** Concatenation of a sequence of sequences. */
  function Flat<T>(ss: seq<seq<T>>): seq<T> {
    if ss == [] then [] else Flat(ss[..|ss| - 1]) + ss[|ss| - 1]
  }

  lemma FlatSnoc<T>(ss: seq<seq<T>>, s: seq<T>)
    ensures Flat(ss + [s]) == Flat(ss) + s
  {
    assert (ss + [s])[..|ss|] == ss;
  }

  lemma {:induction false} InFlat<T>(ss: seq<seq<T>>, x: T)
    ensures x in Flat(ss) <==> exists k | 0 <= k < |ss| :: x in ss[k]
  {
    if ss != [] {
      var init := ss[..|ss| - 1];
      InFlat(init, x);
      assert forall k | 0 <= k < |init| :: init[k] == ss[k];
    }
  }

  lemma {:induction false} FilterConcat<T>(keep: T -> bool, a: seq<T>, b: seq<T>)
    ensures Filter(keep, a + b) == Filter(keep, a) + Filter(keep, b)
  {
    if a == [] {
      assert a + b == b;
    } else {
      assert (a + b)[1..] == a[1..] + b;
      FilterConcat(keep, a[1..], b);
    }
  }

  lemma FilterOneMore<T>(keep: T -> bool, s: seq<T>, k: nat)
    requires k < |s|
    ensures Filter(keep, s[..k + 1]) == Filter(keep, s[..k]) + if keep(s[k]) then [s[k]] else []
  {
    assert s[..k + 1] == s[..k] + [s[k]];
    FilterConcat(keep, s[..k], [s[k]]);
  }

  lemma {:induction false} NoDuplicatesCount<T>(s: seq<T>, x: T)
    requires NoDuplicates(s) && x in s
    ensures multiset(s)[x] == 1
  {
    assert s == [s[0]] + s[1..];
    if x == s[0] {
      assert x !in s[1..];
    } else {
      NoDuplicatesCount(s[1..], x);
    }
  }

  lemma RepeatCount<T>(s: seq<T>, i: nat, j: nat)
    requires i < j < |s| && s[i] == s[j]
    ensures multiset(s)[s[i]] >= 2
  {
    assert s == s[..j] + s[j..];
    assert s[..j][i] in multiset(s[..j]) && s[j..][0] in multiset(s[j..]);
  }

  lemma CountNoDuplicates<T>(s: seq<T>)
    requires forall x | x in s :: multiset(s)[x] <= 1
    ensures NoDuplicates(s)
  {
    forall i, j | 0 <= i < j < |s| && s[i] == s[j]
      ensures multiset(s)[s[i]] >= 2
    {
      RepeatCount(s, i, j);
    }
  }

  /** A sequence without duplicates is as long as the set of its elements. */
  lemma {:induction false} NoDuplicatesCardinality<T>(s: seq<T>, elems: set<T>)
    requires NoDuplicates(s)
    requires elems == set x | x in s
    ensures |elems| == |s|
  {
    if s != [] {
      assert s == [s[0]] + s[1..];
      var rest := set x | x in s[1..];
      NoDuplicatesCardinality(s[1..], rest);
      assert elems == {s[0]} + rest;
    }
  }

  lemma {:induction false} SetOfSeqCardinality<T>(s: seq<T>, elems: set<T>)
    requires elems == set x | x in s
    ensures |elems| <= |s|
  {
    if s != [] {
      assert s == [s[0]] + s[1..];
      var rest := set x | x in s[1..];
      SetOfSeqCardinality(s[1..], rest);
      assert elems == {s[0]} + rest;
    }
  }

  lemma SnocCount<T>(s: seq<T>, x: T)
    ensures multiset(s + [x]) == multiset(s) + multiset{x}
  {
  }

  lemma SameSetSameMultiset<T>(s: seq<T>, s': seq<T>)
    requires NoDuplicates(s) && NoDuplicates(s') && Elements(s) == Elements(s')
    ensures multiset(s) == multiset(s')
  {
    forall x ensures multiset(s)[x] == multiset(s')[x] {
      assert x in Elements(s) <==> x in Elements(s');
      if x in s {
        NoDuplicatesCount(s, x);
        NoDuplicatesCount(s', x);
      }
    }
  }

  /** A sequence as long as its set of elements has no duplicates. */
  lemma {:induction false} FullCardinality<T>(s: seq<T>, elems: set<T>)
    requires elems == set x | x in s
    requires |elems| == |s|
    ensures NoDuplicates(s)
  {
    if s != [] {
      assert s == [s[0]] + s[1..];
      var rest := set x | x in s[1..];
      SetOfSeqCardinality(s[1..], rest);
      assert elems == {s[0]} + rest;
      assert s[0] !in rest by {
        assert s[0] in rest ==> elems == rest;
      }
      FullCardinality(s[1..], rest);
    }
  }

  lemma SameElements<T>(s: seq<T>, r: seq<T>)
    requires multiset(r) == multiset(s)
    ensures |r| == |s|
    ensures Elements(r) == Elements(s)
  {
    assert |multiset(r)| == |multiset(s)|;
    forall x ensures x in r <==> x in s {
      assert x in r <==> x in multiset(r);
      assert x in s <==> x in multiset(s);
    }
  }

  function Mapped<T, U>(f: T -> U, s: seq<T>): seq<U> {
    seq(|s|, i requires 0 <= i < |s| => f(s[i]))
  }

  lemma MappedTail<T, U>(f: T -> U, s: seq<T>)
    requires s != []
    ensures Mapped(f, s) == [f(s[0])] + Mapped(f, s[1..]) && Mapped(f, s)[1..] == Mapped(f, s[1..])
  {
  }

  lemma TakeOneMore<T>(s: seq<T>, k: nat)
    requires k < |s|
    ensures s[..k + 1] == s[..k] + [s[k]]
  {
  }

  lemma TakeAll<T>(s: seq<T>)
    ensures s[..|s|] == s
  {
  }

  // ----- machine integers

  const MIN_INT64 := -0x8000_0000_0000_0000
  const MAX_INT64 := 0x7fff_ffff_ffff_ffff

  type Int64 = x: int | MIN_INT64 <= x <= MAX_INT64 witness 0

  function Min(a: int, b: int): int {
    if a < b then a else b
  }

  function Max(a: int, b: int): int {
    if a > b then a else b
  }

  // ----- the library's strings.Split, on a single character

  function Split(s: string, sep: char): (r: seq<string>)
    ensures |r| >= 1
  {
    if s == [] then [[]]
    else
      var rest := Split(s[1..], sep);
      if s[0] == sep then [[]] + rest else [[s[0]] + rest[0]] + rest[1..]
  }

  lemma {:induction false} SplitPlain(s: string, sep: char)
    requires sep !in s
    ensures Split(s, sep) == [s]
  {
    if s != [] {
      assert s[0] in s && s == [s[0]] + s[1..];
      SplitPlain(s[1..], sep);
    }
  }

  lemma {:induction false} SplitBetween(a: string, sep: char, b: string)
    ensures Split(a + [sep] + b, sep) == Split(a, sep) + Split(b, sep)
  {
    if a == [] {
      assert (a + [sep] + b)[1..] == b;
    } else {
      assert (a + [sep] + b)[1..] == a[1..] + [sep] + b;
      SplitBetween(a[1..], sep, b);
    }
  }

  // ----- going through a set

  /** The elements of a set, in whatever order a map or set gives them. */
  method InSomeOrder<T(==)>(s: set<T>) returns (r: seq<T>)
    ensures NoDuplicates(r) && forall x :: x in r <==> x in s
  {
    r := [];
    var rest := s;
    while rest != {}
      invariant rest <= s
      invariant NoDuplicates(r)
      invariant forall x :: x in r <==> x in s - rest
    {
      var x :| x in rest;
      assert x !in r;
      r := r + [x];
      rest := rest - {x};
    }
  }
}
