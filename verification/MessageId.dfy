/** The letters of a random suffix (x/router/rand.go). */
module Alphabet {
  const UPPER_A_M := "ABCDEFGHIJKLM"
  const UPPER_N_Z := "NOPQRSTUVWXYZ"
  const LOWER_A_M := "abcdefghijklm"
  const LOWER_N_Z := "nopqrstuvwxyz"

  /** The fifty-two letters, upper case first. */
  const CHAR_SET := UPPER_A_M + UPPER_N_Z + LOWER_A_M + LOWER_N_Z

  /** The letters in order, upper case first. */
  function Letter(k: nat): char
    requires k < 52
  {
    if k < 26 then 'A' + k as char else 'a' + (k - 26) as char
  }

  lemma LetterAt(k: nat)
    requires k < |CHAR_SET|
    ensures |CHAR_SET| == 52 && CHAR_SET[k] == Letter(k)
  {
    if k < 13 {
      assert CHAR_SET[k] == UPPER_A_M[k];
    } else if k < 26 {
      assert CHAR_SET[k] == UPPER_N_Z[k - 13];
    } else if k < 39 {
      assert CHAR_SET[k] == LOWER_A_M[k - 26];
    } else {
      assert CHAR_SET[k] == LOWER_N_Z[k - 39];
    }
  }

  lemma NoDashInCharSet()
    ensures '-' !in CHAR_SET
  {
    assert '-' !in UPPER_A_M && '-' !in UPPER_N_Z;
    assert '-' !in LOWER_A_M && '-' !in LOWER_N_Z;
  }
}

/** Message identifiers (x/router/rand.go): printing, parsing, and the counter
    that keeps them apart. */
module MessageIds {
  import opened Prelude
  import opened Alphabet

  const ID_LENGTH := 32

  /** A 64-bit sum, wrapping round. */
  function WrapAdd(a: Int64, b: Int64): Int64 {
    var sum := a + b;
    if sum > MAX_INT64 then sum - 0x1_0000_0000_0000_0000
    else if sum < MIN_INT64 then sum + 0x1_0000_0000_0000_0000
    else sum
  }

  // ----- decimal numerals

  function DigitChar(d: nat): char
    requires d < 10
  {
    '0' + d as char
  }

  predicate IsDigit(c: char) {
    '0' <= c <= '9'
  }

  function DigitValue(c: char): nat
    requires IsDigit(c)
  {
    c as int - '0' as int
  }

  function PrintNat(n: nat): (s: string)
    ensures s != [] && forall i | 0 <= i < |s| :: IsDigit(s[i])
  {
    if n < 10 then [DigitChar(n)] else PrintNat(n / 10) + [DigitChar(n % 10)]
  }

  /** What fmt.Fprint writes for an integer. */
  function PrintInt(n: int): string {
    if n < 0 then "-" + PrintNat(-n) else PrintNat(n)
  }

  /** The number of decimal digits of n. */
  function Digits(n: nat): nat {
    if n < 10 then 1 else 1 + Digits(n / 10)
  }

  function ParseNat(s: string): Option<nat> {
    if s == [] then None
    else if !IsDigit(s[|s| - 1]) then None
    else if |s| == 1 then Some(DigitValue(s[0]))
    else
      match ParseNat(s[..|s| - 1])
      case None => None
      case Some(high) => Some(10 * high + DigitValue(s[|s| - 1]))
  }

  /** The library's strconv.ParseInt, in base ten and for 64 bits: a sign if
      there is one, then digits, and a value in range. */
  function ParseInt(s: string): Option<Int64> {
    if s == [] then None
    else
      var negative := s[0] == '-';
      match ParseNat(if s[0] == '-' || s[0] == '+' then s[1..] else s)
      case None => None
      case Some(n) =>
        var value: int := if negative then -(n as int) else n;
        if MIN_INT64 <= value <= MAX_INT64 then Some(value) else None
  }

  lemma {:induction false} ParsePrintNat(n: nat)
    ensures ParseNat(PrintNat(n)) == Some(n)
    ensures |PrintNat(n)| == Digits(n)
  {
    if n >= 10 {
      ParsePrintNat(n / 10);
      var s := PrintNat(n);
      assert s[..|s| - 1] == PrintNat(n / 10);
    }
  }

  function Magnitude(n: int): nat {
    if n < 0 then -n else n
  }

  lemma ParsePrintInt(n: Int64)
    ensures ParseInt(PrintInt(n)) == Some(n)
  {
    var abs := Magnitude(n);
    var s, digits := PrintInt(n), PrintNat(abs);
    ParsePrintNat(abs);
    if n < 0 {
      assert s[0] == '-' && s[1..] == digits;
    } else {
      assert IsDigit(digits[0]);
    }
  }

  // ----- the fields of an identifier

  function DashSplit(s: string): (r: seq<string>)
    ensures |r| >= 1
  {
    Split(s, '-')
  }

  /** What comes before the random suffix. */
  function Head(ts: Int64, hostID: string, count: Int64): string {
    PrintInt(ts) + "-" + hostID + "-" + PrintInt(count) + "-"
  }

  /** The host identifier is eight hexadecimal digits. */
  predicate IsHostID(s: string) {
    |s| == 8 && forall i | 0 <= i < |s| :: IsDigit(s[i]) || 'a' <= s[i] <= 'f'
  }

  predicate IsSuffix(s: string) {
    forall i | 0 <= i < |s| :: s[i] in CHAR_SET
  }

  /** How many letters follow a fixed part: sixteen, or fewer if the identifier
      is then long enough. */
  function SuffixLength(fixed: nat): nat {
    if fixed >= ID_LENGTH then 0 else if fixed + 16 <= ID_LENGTH then 16 else ID_LENGTH - fixed
  }

  /** The identifier for a time and a count: the fixed part, then letters. */
  ghost predicate IsID(id: string, ts: Int64, hostID: string, count: Int64) {
    var fixed := Head(ts, hostID, count);
    && fixed <= id
    && |id| == |fixed| + SuffixLength(|fixed|)
    && IsSuffix(id[|fixed|..])
  }

  /** MakeID for a time in Unix seconds. rnd(i) is the i-th number drawn. */
  method MakeID(ts: Int64, count: Int64, hostID: string, rnd: nat -> nat) returns (id: string)
    ensures IsID(id, ts, hostID, count)
    ensures PrintInt(ts) + "-" + hostID + "-" + PrintInt(count) + "-" <= id
    ensures var fixed := |PrintInt(ts) + "-" + hostID + "-" + PrintInt(count) + "-"|;
            forall i | 0 <= i < |id| - fixed :: id[fixed + i] == Letter(rnd(i) % 52)
  {
    id := PrintInt(ts);
    id := id + "-";
    id := id + hostID;
    id := id + "-";
    id := id + PrintInt(count);
    id := id + "-";
    ghost var fixed, letters := id, "";
    var i := 0;
    while i < 16 && |id| < ID_LENGTH
      invariant i <= 16 && id == fixed + letters && |letters| == i
      invariant forall j | 0 <= j < i :: letters[j] == Letter(rnd(j) % 52) && letters[j] in CHAR_SET
      invariant i > 0 ==> |id| <= ID_LENGTH
    {
      LetterAt(rnd(i) % |CHAR_SET|);
      var c := CHAR_SET[rnd(i) % |CHAR_SET|];
      letters := letters + [c];
      id := id + [c];
      i := i + 1;
    }
    assert id[|fixed|..] == letters;
  }

  datatype Parts = Parts(seconds: Int64, host: string, count: Int64, suffix: string)

  /** MessageID.Parse. */
  function Parse(id: string): Option<Parts> {
    var parts := DashSplit(id);
    if |parts| != 4 then None
    else
      match (ParseInt(parts[0]), ParseInt(parts[2]))
      case (Some(ts), Some(count)) => Some(Parts(ts, parts[1], count, parts[3]))
      case _ => None
  }

  lemma SplitFour(a: string, b: string, c: string, d: string)
    ensures DashSplit(a + "-" + b + "-" + c + "-" + d) == DashSplit(a) + DashSplit(b) + DashSplit(c) + DashSplit(d)
  {
    SplitBetween(a, '-', b);
    SplitBetween(a + "-" + b, '-', c);
    SplitBetween(a + "-" + b + "-" + c, '-', d);
  }

  lemma SplitID(ts: Int64, hostID: string, count: Int64, suffix: string)
    requires IsHostID(hostID) && IsSuffix(suffix)
    ensures DashSplit(Head(ts, hostID, count) + suffix) == DashSplit(PrintInt(ts)) + [hostID] + DashSplit(PrintInt(count)) + [suffix]
  {
    NoDashInCharSet();
    SplitPlain(suffix, '-');
    SplitPlain(hostID, '-');
    SplitFour(PrintInt(ts), hostID, PrintInt(count), suffix);
  }

  lemma IDFields(id: string, ts: Int64, hostID: string, count: Int64) returns (suffix: string)
    requires IsHostID(hostID) && IsID(id, ts, hostID, count)
    ensures suffix == id[|Head(ts, hostID, count)|..]
    ensures DashSplit(id) == DashSplit(PrintInt(ts)) + [hostID] + DashSplit(PrintInt(count)) + [suffix]
  {
    suffix := After(Head(ts, hostID, count), id);
    SplitID(ts, hostID, count, suffix);
  }

  /** What follows the fixed part. */
  lemma After(fixed: string, id: string) returns (suffix: string)
    requires fixed <= id
    ensures suffix == id[|fixed|..] && id == fixed + suffix
  {
    suffix := id[|fixed|..];
  }

  lemma SplitInt(n: int)
    ensures DashSplit(PrintInt(n)) == if n < 0 then ["", PrintNat(-n)] else [PrintNat(n)]
  {
    if n < 0 {
      SplitPlain(PrintNat(-n), '-');
      assert PrintInt(n)[1..] == PrintNat(-n);
    } else {
      SplitPlain(PrintNat(n), '-');
    }
  }

  /** Parsing takes an identifier apart exactly when neither the time nor the
      counter is negative; otherwise it fails. */
  lemma ParseMakeID(id: string, ts: Int64, hostID: string, count: Int64)
    requires IsHostID(hostID) && IsID(id, ts, hostID, count)
    ensures Parse(id) == if ts >= 0 && count >= 0
                         then Some(Parts(ts, hostID, count, id[|Head(ts, hostID, count)|..])) else None
  {
    var suffix := IDFields(id, ts, hostID, count);
    SplitInt(ts);
    SplitInt(count);
    if ts >= 0 && count >= 0 {
      ParseFields(id, ts, hostID, count, suffix);
    } else {
      assert |DashSplit(id)| > 4;
    }
  }

  lemma ParseFields(id: string, ts: Int64, hostID: string, count: Int64, suffix: string)
    requires DashSplit(id) == [PrintInt(ts)] + [hostID] + [PrintInt(count)] + [suffix]
    ensures Parse(id) == Some(Parts(ts, hostID, count, suffix))
  {
    ParsePrintInt(ts);
    ParsePrintInt(count);
  }

  /** Every field shows in an identifier: one that is made from two times and
      counters of one process is made from equal ones, whatever the signs. */
  lemma EqualIDsEqualFields(id: string, hostID: string, ts: Int64, count: Int64, ts': Int64, count': Int64)
    requires IsHostID(hostID) && IsID(id, ts, hostID, count) && IsID(id, ts', hostID, count')
    ensures ts == ts' && count == count'
  {
    var suffix := IDFields(id, ts, hostID, count);
    var suffix' := IDFields(id, ts', hostID, count');
    SplitInt(ts);
    SplitInt(ts');
    SameParts(DashSplit(PrintInt(ts)), hostID, DashSplit(PrintInt(count)), suffix,
              DashSplit(PrintInt(ts')), DashSplit(PrintInt(count')), suffix');
    SplitInjective(ts, ts');
    SplitInjective(count, count');
  }

  lemma SameParts(
    a: seq<string>, h: string, c: seq<string>, s: string, a': seq<string>, c': seq<string>, s': string)
    requires a + [h] + c + [s] == a' + [h] + c' + [s']
    requires 1 <= |a| <= 2 && 1 <= |a'| <= 2 && (a[0] == "" <==> |a| == 2) && (a'[0] == "" <==> |a'| == 2)
    ensures a == a' && c == c' && s == s'
  {
    var all, all' := a + [h] + c + [s], a' + [h] + c' + [s'];
    assert all[0] == a[0] && all'[0] == a'[0];
    assert a == all[..|a|] && a' == all'[..|a|];
    assert c == all[|a| + 1..|all| - 1] && c' == all'[|a| + 1..|all| - 1];
    assert s == all[|all| - 1] && s' == all'[|all| - 1];
  }

  lemma SplitInjective(n: Int64, m: Int64)
    requires DashSplit(PrintInt(n)) == DashSplit(PrintInt(m))
    ensures n == m
  {
    var parts, parts' := DashSplit(PrintInt(n)), DashSplit(PrintInt(m));
    SplitInt(n);
    SplitInt(m);
    assert |parts| == |parts'|;
    PrintNatInjective(Magnitude(n), Magnitude(m));
    assert parts[|parts| - 1] == parts'[|parts| - 1];
  }

  lemma PrintNatInjective(n: nat, m: nat)
    ensures PrintNat(n) == PrintNat(m) ==> n == m
  {
    ParsePrintNat(n);
    ParsePrintNat(m);
  }

  /** How long an identifier is: 32 characters as long as the fixed part is 16 to
      32 of them. */
  lemma IDLength(id: string, ts: Int64, hostID: string, count: Int64)
    requires ts >= 0 && count >= 0 && IsHostID(hostID) && IsID(id, ts, hostID, count)
    ensures var p := Digits(ts) + Digits(count) + 11;
            |id| == Max(p, Min(ID_LENGTH, p + 16)) && (16 <= p <= 32 <==> |id| == 32)
  {
    HeadLength(ts, hostID, count);
    WholeLength(|Head(ts, hostID, count)|);
  }

  lemma WholeLength(p: nat)
    ensures p + SuffixLength(p) == Max(p, Min(ID_LENGTH, p + 16))
    ensures 16 <= p <= 32 <==> p + SuffixLength(p) == 32
  {
  }

  lemma HeadLength(ts: Int64, hostID: string, count: Int64)
    requires ts >= 0 && count >= 0 && IsHostID(hostID)
    ensures |Head(ts, hostID, count)| == Digits(ts) + Digits(count) + 11
  {
    ParsePrintNat(ts);
    ParsePrintNat(count);
  }

  /** The counter after n identifiers have been generated. */
  function CounterAfter(n: nat): Int64 {
    if n == 0 then 0 else WrapAdd(CounterAfter(n - 1), 1)
  }

  /** The counter is n, but for whole turns. */
  lemma {:induction false} CounterTurns(n: nat) returns (turns: nat)
    ensures n == CounterAfter(n) + turns * 0x1_0000_0000_0000_0000
  {
    turns := 0;
    if n > 0 {
      turns := CounterTurns(n - 1);
      if CounterAfter(n - 1) == MAX_INT64 {
        turns := turns + 1;
      }
    }
  }

  lemma CountersDiffer(i: nat, j: nat)
    requires i < j < i + 0x1_0000_0000_0000_0000
    ensures CounterAfter(i) != CounterAfter(j)
  {
    var turns := CounterTurns(i);
    var turns' := CounterTurns(j);
  }

  /** Identifiers generated in one process differ, whatever the clock says and
      whatever is drawn, until the counter has come round. */
  lemma GeneratedIDsDiffer(hostID: string, i: nat, ts: Int64, id: string, j: nat, ts': Int64, id': string)
    requires IsHostID(hostID) && i < j < i + 0x1_0000_0000_0000_0000
    requires IsID(id, ts, hostID, CounterAfter(i)) && IsID(id', ts', hostID, CounterAfter(j))
    ensures id != id'
  {
    CountersDiffer(i, j);
    if id == id' {
      EqualIDsEqualFields(id, hostID, ts, CounterAfter(i), ts', CounterAfter(j));
    }
  }

  /** The process-wide counter and the identifiers made from it. */
  class Generator {
    var counter: Int64
    const hostID: string

    constructor (hostID: string)
      ensures counter == 0 && this.hostID == hostID
    {
      counter := 0;
      this.hostID := hostID;
    }

    /** GenerateID, at a given time. */
    method GenerateID(now: Int64, rnd: nat -> nat) returns (id: string)
      modifies this`counter
      ensures counter == WrapAdd(old(counter), 1)
      ensures forall n: nat | old(counter) == CounterAfter(n) :: counter == CounterAfter(n + 1)
      ensures IsID(id, now, hostID, counter)
    {
      counter := WrapAdd(counter, 1);
      id := MakeID(now, counter, hostID, rnd);
    }

    /** populateID keeps an identifier that is there. */
    method PopulateID(id: string, now: Int64, rnd: nat -> nat) returns (r: string)
      modifies this`counter
      ensures id != "" ==> r == id && counter == old(counter)
      ensures id == "" ==> counter == WrapAdd(old(counter), 1) && IsID(r, now, hostID, counter)
      ensures r != ""
    {
      if id != "" {
        return id;
      }
      r := GenerateID(now, rnd);
    }
  }
}
