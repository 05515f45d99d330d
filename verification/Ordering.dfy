/** Three-way comparison in the style of Go's cmp package, and the contract of
    the library's stable sort. */
module Ordering {
  import opened Prelude

  function CompareInt(a: int, b: int): int {
    if a < b then -1 else if b < a then 1 else 0
  }

  /** Lexicographic order on the characters of a string. */
  function CompareString(a: string, b: string): int {
    if a == [] then (if b == [] then 0 else -1)
    else if b == [] then 1
    else if a[0] != b[0] then CompareInt(a[0] as int, b[0] as int)
    else CompareString(a[1..], b[1..])
  }

  /** a is a proper prefix of b, or has the smaller character where they first
      differ. */
  ghost predicate ComesBefore(a: string, b: string) {
    exists k: nat :: DifferAt(a, b, k)
  }

  ghost predicate DifferAt(a: string, b: string, k: nat) {
    && k <= |a| && k < |b| && (forall i | 0 <= i < k :: a[i] == b[i])
    && (k == |a| || a[k] < b[k])
  }

  /** The comparison says which of two strings comes before the other. */
  lemma {:induction false} CompareStringMeans(a: string, b: string)
    ensures CompareString(a, b) < 0 <==> ComesBefore(a, b)
  {
    if a != [] && b != [] && a[0] == b[0] {
      CompareStringMeans(a[1..], b[1..]);
      BeforeBehindHead(a, b);
    } else {
      assert b != [] && (a == [] || a[0] < b[0]) ==> DifferAt(a, b, 0);
    }
  }

  lemma BeforeBehindHead(a: string, b: string)
    requires a != [] && b != [] && a[0] == b[0]
    ensures ComesBefore(a, b) <==> ComesBefore(a[1..], b[1..])
  {
    if ComesBefore(a, b) {
      var k: nat :| DifferAt(a, b, k);
      assert DifferAt(a[1..], b[1..], k - 1);
    }
    if ComesBefore(a[1..], b[1..]) {
      var k: nat :| DifferAt(a[1..], b[1..], k);
      assert forall i | 1 <= i < k + 1 :: a[i] == a[1..][i - 1] && b[i] == b[1..][i - 1];
      assert DifferAt(a, b, k + 1);
    }
  }

  ghost predicate NotAfter(a: string, b: string) {
    a == b || ComesBefore(a, b)
  }

  lemma NotAfterMeans(a: string, b: string)
    ensures CompareString(a, b) <= 0 <==> NotAfter(a, b)
  {
    CompareStringMeans(a, b);
    CompareStringAntisymmetric(a, b);
  }

  /** No name is after a later one. */
  ghost predicate InDictionaryOrder(names: seq<string>) {
    forall i, j | 0 <= i < j < |names| :: NotAfter(names[i], names[j])
  }

  lemma SortedNames(names: seq<string>)
    ensures Sorted(CompareString, names) <==> InDictionaryOrder(names)
  {
    forall i, j | 0 <= i < j < |names| ensures CompareString(names[i], names[j]) <= 0 <==> NotAfter(names[i], names[j]) {
      NotAfterMeans(names[i], names[j]);
    }
  }

  lemma {:induction false} CompareStringAntisymmetric(a: string, b: string)
    ensures CompareString(a, b) == -CompareString(b, a)
    ensures CompareString(a, b) == 0 <==> a == b
  {
    if a != [] && b != [] && a[0] == b[0] {
      CompareStringAntisymmetric(a[1..], b[1..]);
      assert a == [a[0]] + a[1..] && b == [b[0]] + b[1..];
    }
  }

  lemma {:induction false} CompareStringTransitive(a: string, b: string, c: string)
    requires CompareString(a, b) <= 0 && CompareString(b, c) <= 0
    ensures CompareString(a, c) <= 0
  {
    if a != [] && b != [] && c != [] && a[0] == b[0] == c[0] {
      CompareStringTransitive(a[1..], b[1..], c[1..]);
    }
  }

  /** What a sort asks of its comparison on a set of elements: swapping the
      arguments swaps the sign, and "not after" is transitive. */
  ghost predicate TotalPreorderOn<T>(cmp: (T, T) -> int, d: set<T>) {
    && (forall a, b {:trigger cmp(a, b)} | a in d && b in d :: cmp(a, b) <= 0 <==> cmp(b, a) >= 0)
    && (forall a, b, c {:trigger cmp(a, b), cmp(b, c)} | a in d && b in d && c in d ::
          cmp(a, b) <= 0 && cmp(b, c) <= 0 ==> cmp(a, c) <= 0)
  }

  ghost predicate Sorted<T>(cmp: (T, T) -> int, s: seq<T>) {
    forall i, j | 0 <= i < j < |s| :: cmp(s[i], s[j]) <= 0
  }

  /** The elements of s that tie with x, in order. */
  function Ties<T>(cmp: (T, T) -> int, x: T, s: seq<T>): seq<T> {
    Filter(y => cmp(x, y) == 0, s)
  }

  lemma {:induction false} TiesMapped<T, U>(f: T -> U, cmp: (T, T) -> int, cmp': (U, U) -> int, x: T, s: seq<T>)
    requires forall y | y in s :: cmp'(f(x), f(y)) == cmp(x, y)
    ensures Ties(cmp', f(x), Mapped(f, s)) == Mapped(f, Ties(cmp, x, s))
  {
    if s != [] {
      assert s[0] in s && forall y | y in s[1..] :: y in s;
      TiesMapped(f, cmp, cmp', x, s[1..]);
      MappedTail(f, s);
      MappedTail(f, [s[0]] + Ties(cmp, x, s[1..]));
      assert ([s[0]] + Ties(cmp, x, s[1..]))[1..] == Ties(cmp, x, s[1..]);
    }
  }

  /** r is s sorted, with tied elements left in the order they had in s. */
  ghost predicate IsStableSort<T>(cmp: (T, T) -> int, s: seq<T>, r: seq<T>) {
    && multiset(r) == multiset(s)
    && Sorted(cmp, r)
    && forall x | x in s :: Ties(cmp, x, r) == Ties(cmp, x, s)
  }

  lemma SameTail<T>(s: seq<T>, r: seq<T>)
    requires multiset(r) == multiset(s)
    requires s != [] && r != [] && s[0] == r[0]
    ensures multiset(r[1..]) == multiset(s[1..])
  {
    assert s == [s[0]] + s[1..] && r == [r[0]] + r[1..];
    assert multiset(s[1..]) == multiset(s) - multiset{s[0]};
    assert multiset(r[1..]) == multiset(r) - multiset{s[0]};
  }

  /** The first element of a sorted list is not after any other. */
  lemma HeadIsLeast<T>(cmp: (T, T) -> int, d: set<T>, s: seq<T>, x: T)
    requires TotalPreorderOn(cmp, d) && Elements(s) <= d
    requires Sorted(cmp, s) && x in s
    ensures cmp(s[0], x) <= 0
  {
    var i :| 0 <= i < |s| && s[i] == x;
    assert s[0] in Elements(s) && x in Elements(s);
    assert cmp(s[0], s[0]) <= 0;
  }

  /** There is only one stable sort of a sequence. */
  lemma StableSortUnique<T>(cmp: (T, T) -> int, s: seq<T>, r: seq<T>, r': seq<T>)
    requires TotalPreorderOn(cmp, Elements(s))
    requires IsStableSort(cmp, s, r) && IsStableSort(cmp, s, r')
    ensures r == r'
  {
    SameElements(s, r);
    SameElements(s, r');
    forall x | x in Elements(s) ensures Ties(cmp, x, r) == Ties(cmp, x, r') {
      assert x in s;
    }
    SameOrder(cmp, Elements(s), r, r');
  }

  lemma TiesOfTail<T>(cmp: (T, T) -> int, x: T, r: seq<T>, r': seq<T>)
    requires r != [] && r' != [] && r[0] == r'[0]
    requires Ties(cmp, x, r) == Ties(cmp, x, r')
    ensures Ties(cmp, x, r[1..]) == Ties(cmp, x, r'[1..])
  {
    if cmp(x, r[0]) == 0 {
      assert Ties(cmp, x, r)[1..] == Ties(cmp, x, r[1..]);
      assert Ties(cmp, x, r')[1..] == Ties(cmp, x, r'[1..]);
    }
  }

  lemma {:induction false} SameOrder<T>(cmp: (T, T) -> int, d: set<T>, r: seq<T>, r': seq<T>)
    requires TotalPreorderOn(cmp, d) && Elements(r) <= d
    requires multiset(r) == multiset(r')
    requires Sorted(cmp, r) && Sorted(cmp, r')
    requires forall x | x in d :: Ties(cmp, x, r) == Ties(cmp, x, r')
    ensures r == r'
  {
    SameElements(r, r');
    if r != [] {
      SameHead(cmp, d, r, r');
      SameTail(r, r');
      assert r == [r[0]] + r[1..] && r' == [r'[0]] + r'[1..];
      forall x | x in d ensures Ties(cmp, x, r[1..]) == Ties(cmp, x, r'[1..]) {
        TiesOfTail(cmp, x, r, r');
      }
      SameOrder(cmp, d, r[1..], r'[1..]);
    }
  }

  lemma SameHead<T>(cmp: (T, T) -> int, d: set<T>, r: seq<T>, r': seq<T>)
    requires TotalPreorderOn(cmp, d) && Elements(r) == Elements(r') <= d
    requires r != [] && r' != []
    requires Sorted(cmp, r) && Sorted(cmp, r')
    requires forall x | x in d :: Ties(cmp, x, r) == Ties(cmp, x, r')
    ensures r[0] == r'[0]
  {
    var a, b := r[0], r'[0];
    assert a in Elements(r) && b in Elements(r');
    HeadIsLeast(cmp, d, r, b);
    HeadIsLeast(cmp, d, r', a);
    assert cmp(a, b) == 0 && cmp(a, a) <= 0;
    assert Ties(cmp, a, r)[0] == a;
    assert Ties(cmp, a, r')[0] == b;
  }

  /** Puts x, which came earlier in the input, in front of its ties. */
  function Insert<T>(cmp: (T, T) -> int, x: T, s: seq<T>): (r: seq<T>)
    ensures multiset(r) == multiset(s) + multiset{x} && |r| == |s| + 1
    ensures forall y | y in r :: y == x || y in s
  {
    if s == [] || cmp(x, s[0]) <= 0 then [x] + s
    else
      assert s == [s[0]] + s[1..];
      [s[0]] + Insert(cmp, x, s[1..])
  }

  lemma {:induction false} InsertKeepsSorted<T>(cmp: (T, T) -> int, d: set<T>, x: T, s: seq<T>)
    requires TotalPreorderOn(cmp, d) && Elements(s) <= d && x in d
    requires Sorted(cmp, s)
    ensures Sorted(cmp, Insert(cmp, x, s))
  {
    if s == [] {
    } else if cmp(x, s[0]) <= 0 {
      forall i | 0 <= i < |s| ensures cmp(x, s[i]) <= 0 {
        assert s[i] in Elements(s);
        HeadIsLeast(cmp, d, s, s[i]);
        assert s[0] in Elements(s);
      }
    } else {
      InsertKeepsSorted(cmp, d, x, s[1..]);
      StaysBehind(cmp, d, x, s, Insert(cmp, x, s[1..]));
    }
  }

  /** The head stays first when x, which is not before it, goes in behind it. */
  lemma StaysBehind<T>(cmp: (T, T) -> int, d: set<T>, x: T, s: seq<T>, r: seq<T>)
    requires TotalPreorderOn(cmp, d) && Elements(s) <= d && x in d
    requires s != [] && Sorted(cmp, s) && cmp(x, s[0]) > 0
    requires forall y | y in r :: y == x || y in s[1..]
    ensures forall i | 0 <= i < |r| :: cmp(s[0], r[i]) <= 0
  {
    assert s[0] in Elements(s);
    forall i | 0 <= i < |r| ensures cmp(s[0], r[i]) <= 0 {
      assert r[i] in r;
      if r[i] != x {
        assert r[i] in s;
        HeadIsLeast(cmp, d, s, r[i]);
      }
    }
  }

  /** Inserting x adds x in front of the elements that tie with it. */
  lemma {:induction false} InsertTies<T>(cmp: (T, T) -> int, d: set<T>, x: T, s: seq<T>, z: T)
    requires TotalPreorderOn(cmp, d) && Elements(s) <= d && x in d && z in d
    ensures Ties(cmp, z, Insert(cmp, x, s)) == (if cmp(z, x) == 0 then [x] else []) + Ties(cmp, z, s)
  {
    if s == [] || cmp(x, s[0]) <= 0 {
      assert ([x] + s)[1..] == s;
    } else {
      var r := Insert(cmp, x, s[1..]);
      assert ([s[0]] + r)[1..] == r;
      assert s[0] in Elements(s);
      var y := s[0];
      assert cmp(x, z) <= 0 && cmp(z, y) <= 0 ==> cmp(x, y) <= 0;
      InsertTies(cmp, d, x, s[1..], z);
    }
  }

  function InsertionSort<T>(cmp: (T, T) -> int, s: seq<T>): (r: seq<T>)
    ensures multiset(r) == multiset(s) && |r| == |s|
  {
    if s == [] then []
    else
      assert s == [s[0]] + s[1..];
      Insert(cmp, s[0], InsertionSort(cmp, s[1..]))
  }

  lemma {:induction false} InsertionSortStable<T>(cmp: (T, T) -> int, d: set<T>, s: seq<T>)
    requires TotalPreorderOn(cmp, d) && Elements(s) <= d
    ensures Sorted(cmp, InsertionSort(cmp, s))
    ensures forall z | z in d :: Ties(cmp, z, InsertionSort(cmp, s)) == Ties(cmp, z, s)
  {
    if s != [] {
      var x, rest := s[0], InsertionSort(cmp, s[1..]);
      assert x in Elements(s);
      InsertionSortStable(cmp, d, s[1..]);
      SameElements(s[1..], rest);
      InsertKeepsSorted(cmp, d, x, rest);
      forall z | z in d ensures Ties(cmp, z, InsertionSort(cmp, s)) == Ties(cmp, z, s) {
        InsertTies(cmp, d, x, rest, z);
      }
    }
  }

  /** The library's stable sort (slices.SortStableFunc): always a permutation,
      and the stable sort when the comparison is a total preorder. */
  method SortStableFunc<T>(s: seq<T>, cmp: (T, T) -> int) returns (r: seq<T>)
    ensures multiset(r) == multiset(s)
    ensures TotalPreorderOn(cmp, Elements(s)) ==> IsStableSort(cmp, s, r)
  {
    r := InsertionSort(cmp, s);
    if TotalPreorderOn(cmp, Elements(s)) {
      InsertionSortStable(cmp, Elements(s), s);
      assert forall x | x in s :: x in Elements(s);
    }
  }

  lemma StringPreorder(d: set<string>)
    ensures TotalPreorderOn(CompareString, d)
  {
    forall a, b | a in d && b in d
      ensures CompareString(a, b) <= 0 <==> CompareString(b, a) >= 0
    {
      CompareStringAntisymmetric(a, b);
    }
    forall a, b, c | a in d && b in d && c in d && CompareString(a, b) <= 0 && CompareString(b, c) <= 0
      ensures CompareString(a, c) <= 0
    {
      CompareStringTransitive(a, b, c);
    }
  }

  /** The library's sort.Strings. */
  method SortStrings(s: seq<string>) returns (r: seq<string>)
    ensures multiset(r) == multiset(s)
    ensures Sorted(CompareString, r)
  {
    StringPreorder(Elements(s));
    r := SortStableFunc(s, CompareString);
  }

  /** Sorted strings are determined by their multiset. */
  lemma {:induction false} SortedStringsUnique(r: seq<string>, r': seq<string>)
    requires multiset(r) == multiset(r')
    requires Sorted(CompareString, r) && Sorted(CompareString, r')
    ensures r == r'
  {
    SameElements(r, r');
    if r != [] {
      SameFirst(r, r');
      SameTail(r, r');
      SortedStringsUnique(r[1..], r'[1..]);
      assert r == [r[0]] + r[1..] && r' == [r'[0]] + r'[1..];
    }
  }

  lemma SameFirst(r: seq<string>, r': seq<string>)
    requires r != [] && r' != [] && Elements(r) == Elements(r')
    requires Sorted(CompareString, r) && Sorted(CompareString, r')
    ensures r[0] == r'[0]
  {
    var d := Elements(r);
    StringPreorder(d);
    assert r[0] in d && r'[0] in Elements(r');
    HeadIsLeast(CompareString, d, r, r'[0]);
    HeadIsLeast(CompareString, d, r', r[0]);
    CompareStringAntisymmetric(r[0], r'[0]);
  }
}
