/** Sums of multisets over a list. */
module Sums {
  import opened Prelude

  /** The sum of f over a list. */
  ghost function Total<G, C>(f: G -> multiset<C>, s: seq<G>): multiset<C> {
    if s == [] then multiset{} else Total(f, s[..|s| - 1]) + f(s[|s| - 1])
  }

  lemma {:induction false} TotalRemove<G, C>(f: G -> multiset<C>, s: seq<G>, j: nat)
    requires j < |s|
    ensures Total(f, s) == Total(f, s[..j] + s[j + 1..]) + f(s[j])
  {
    var k := |s| - 1;
    var rest := s[..j] + s[j + 1..];
    if j == k {
      assert rest == s[..k];
    } else {
      TotalRemove(f, s[..k], j);
      assert rest[..|rest| - 1] == s[..k][..j] + s[..k][j + 1..];
      assert rest[|rest| - 1] == s[k];
    }
  }

  lemma RemoveSame<G>(a: seq<G>, b: seq<G>, j: nat)
    requires multiset(a) == multiset(b) && a != [] && j < |b| && b[j] == a[|a| - 1]
    ensures multiset(a[..|a| - 1]) == multiset(b[..j] + b[j + 1..])
  {
    assert a == a[..|a| - 1] + [a[|a| - 1]];
    assert b == b[..j] + [b[j]] + b[j + 1..];
    assert multiset(a[..|a| - 1]) == multiset(a) - multiset{b[j]};
  }

  /** The order of the list does not matter. */
  lemma {:induction false} TotalPermuted<G, C>(f: G -> multiset<C>, a: seq<G>, b: seq<G>)
    requires multiset(a) == multiset(b)
    ensures Total(f, a) == Total(f, b)
  {
    SameElements(a, b);
    if a != [] {
      var k := |a| - 1;
      assert a[k] in Elements(a);
      var j :| 0 <= j < |b| && b[j] == a[k];
      TotalRemove(f, b, j);
      RemoveSame(a, b, j);
      TotalPermuted(f, a[..k], b[..j] + b[j + 1..]);
    }
  }

  lemma {:induction false} TotalNone<G, C>(f: G -> multiset<C>, s: seq<G>)
    requires forall x | x in s :: f(x) == multiset{}
    ensures Total(f, s) == multiset{}
  {
    if s != [] {
      assert forall x | x in s[..|s| - 1] :: x in s;
      TotalNone(f, s[..|s| - 1]);
    }
  }

  lemma {:induction false} TotalOne<G, C>(f: G -> multiset<C>, s: seq<G>, i: nat)
    requires i < |s| && forall j | 0 <= j < |s| && j != i :: f(s[j]) == multiset{}
    ensures Total(f, s) == f(s[i])
  {
    TotalRemove(f, s, i);
    TotalNone(f, s[..i] + s[i + 1..]);
  }

  lemma SumsEqual<T>(a: multiset<T>, b: multiset<T>, c: multiset<T>, d: multiset<T>)
    requires a <= b && c <= d
    ensures a + c == b + d <==> a == b && c == d
  {
    if a + c == b + d {
      forall x ensures a[x] == b[x] && c[x] == d[x] {
        assert (a + c)[x] == a[x] + c[x] && (b + d)[x] == b[x] + d[x];
      }
    }
  }

  lemma {:induction false} TotalSmaller<G, C>(f: G -> multiset<C>, f': G -> multiset<C>, s: seq<G>)
    requires forall x | x in s :: f(x) <= f'(x)
    ensures Total(f, s) <= Total(f', s)
    ensures Total(f, s) == Total(f', s) <==> forall x | x in s :: f(x) == f'(x)
  {
    if s != [] {
      var init, x := s[..|s| - 1], s[|s| - 1];
      assert s == init + [x];
      TotalSmaller(f, f', init);
      SumsEqual(Total(f, init), Total(f', init), f(x), f'(x));
    }
  }

  lemma {:induction false} TotalMember<G, C>(f: G -> multiset<C>, s: seq<G>, c: C)
    ensures c in Total(f, s) <==> exists g :: g in s && c in f(g)
  {
    if s != [] {
      TotalMember(f, s[..|s| - 1], c);
      assert s == s[..|s| - 1] + [s[|s| - 1]];
    }
  }

  /** Changing one element changes the sum by its share. */
  lemma {:induction false} TotalUpdate<G, C>(f: G -> multiset<C>, s: seq<G>, i: nat, x: G)
    requires i < |s|
    ensures Total(f, s[i := x]) + f(s[i]) == Total(f, s) + f(x)
  {
    var k := |s| - 1;
    if i == k {
      assert s[i := x][..k] == s[..k];
    } else {
      var now := s[i := x];
      assert now[..k] == s[..k][i := x];
      TotalUpdate(f, s[..k], i, x);
      var a, b, c := Total(f, now[..k]), Total(f, s[..k]), f(s[k]);
      assert (a + c) + f(s[i]) == (a + f(s[i])) + c;
      assert (b + c) + f(x) == (b + f(x)) + c;
    }
  }

  lemma SumCancel<T>(a: multiset<T>, b: multiset<T>, c: multiset<T>)
    requires a + c == b + c
    ensures a == b
  {
    forall x ensures a[x] == b[x] {
      assert (a + c)[x] == a[x] + c[x] && (b + c)[x] == b[x] + c[x];
    }
  }

  lemma TotalReplace<G, C>(f: G -> multiset<C>, s: seq<G>, i: nat, x: G)
    requires i < |s| && f(x) == f(s[i])
    ensures Total(f, s[i := x]) == Total(f, s)
  {
    TotalUpdate(f, s, i, x);
    SumCancel(Total(f, s[i := x]), Total(f, s), f(x));
  }

  lemma TotalFill<G, C>(f: G -> multiset<C>, s: seq<G>, i: nat, x: G)
    requires i < |s| && f(s[i]) == multiset{}
    ensures Total(f, s[i := x]) == Total(f, s) + f(x)
  {
    TotalUpdate(f, s, i, x);
  }

  lemma TotalEmpty<G, C>(f: G -> multiset<C>, s: seq<G>, i: nat, x: G)
    requires i < |s| && f(x) == multiset{}
    ensures Total(f, s) == Total(f, s[i := x]) + f(s[i])
  {
    TotalUpdate(f, s, i, x);
  }

  lemma TotalSnoc<G, C>(f: G -> multiset<C>, s: seq<G>, x: G)
    ensures Total(f, s + [x]) == Total(f, s) + f(x)
  {
    assert (s + [x])[..|s|] == s;
  }

  lemma TotalPop<G, C>(f: G -> multiset<C>, s: seq<G>)
    requires s != []
    ensures Total(f, s) == Total(f, s[1..]) + f(s[0])
  {
    TotalRemove(f, s, 0);
    assert s[..0] + s[1..] == s[1..];
  }

  /** Moving x from one part of a sum to another. */
  lemma SumShift<T>(base: multiset<T>, a: multiset<T>, m: multiset<T>, b: multiset<T>, x: multiset<T>)
    ensures base + a + m + (b + x) == base + (a + x) + m + b
  {
  }

  lemma TotalTwo<G, C>(f: G -> multiset<C>, s: seq<G>, i: nat, j: nat)
    requires i < j < |s|
    ensures f(s[i]) + f(s[j]) <= Total(f, s)
  {
    var rest := s[..j] + s[j + 1..];
    TotalRemove(f, s, j);
    assert rest[i] == s[i];
    TotalRemove(f, rest, i);
  }

  lemma {:induction false} MappedIsTotal<G, U>(f: G -> U, s: seq<G>)
    ensures multiset(Mapped(f, s)) == Total(x => multiset{f(x)}, s)
  {
    if s != [] {
      var init, last := s[..|s| - 1], s[|s| - 1];
      MappedIsTotal(f, init);
      assert Mapped(f, s) == Mapped(f, init) + [f(last)];
    }
  }

  lemma MappedMultiset<G, U>(f: G -> U, a: seq<G>, b: seq<G>)
    requires multiset(a) == multiset(b)
    ensures multiset(Mapped(f, a)) == multiset(Mapped(f, b))
  {
    MappedIsTotal(f, a);
    MappedIsTotal(f, b);
    TotalPermuted(x => multiset{f(x)}, a, b);
  }
}
