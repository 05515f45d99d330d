/** Go's slices of commands: a slice is a part of an array that other slices may
    share, and appending writes into the array while there is room in it. */
module Slices {
  import opened Prelude
  import opened Groups

  /** The arrays, each of fixed length. */
  type Store = seq<seq<Command>>

  /** The first len elements of an array. */
  datatype Slice = Slice(id: nat, len: nat)

  /** How long an array append allocates when one of a given length has no room
      for so many elements. */
  type Growth = (nat, nat) -> nat

  const BLANK := Command("", "", "", "", false, 0, "")

  function Blanks(n: nat): seq<Command> {
    seq(n, _ => BLANK)
  }

  predicate Fits(st: Store, s: Slice) {
    s.id < |st| && s.len <= |st[s.id]|
  }

  function Capacity(st: Store, s: Slice): nat {
    if s.id < |st| then |st[s.id]| else 0
  }

  /** There is no room behind the slice. */
  predicate Full(st: Store, s: Slice) {
    s.len == Capacity(st, s)
  }

  function Content(st: Store, s: Slice): seq<Command> {
    if Fits(st, s) then st[s.id][..s.len] else []
  }

  function Write(st: Store, id: nat, at: nat, cs: seq<Command>): (r: Store)
    requires id < |st| && at + |cs| <= |st[id]|
    ensures |r| == |st| && forall j | 0 <= j < |st| :: |r[j]| == |st[j]|
  {
    st[id := st[id][..at] + cs + st[id][at + |cs|..]]
  }

  /** What the language says of append: in place while there is room, or else in
      a new array, of the length that the growth says. */
  ghost predicate IsAppended(st: Store, s: Slice, cs: seq<Command>, grow: Growth, st': Store, s': Slice)
    requires Fits(st, s)
  {
    var n := s.len + |cs|;
    if cs == [] then st' == st && s' == s
    else if n <= Capacity(st, s) then st' == Write(st, s.id, s.len, cs) && s' == Slice(s.id, n)
    else
      && |st'| == |st| + 1 && st'[..|st|] == st && s' == Slice(|st|, n)
      && |st'[|st|]| == Max(grow(Capacity(st, s), n), n) && st'[|st|][..n] == Content(st, s) + cs
  }

  /** The store and the slice after appending commands to a slice. */
  type Appending = (Store, Slice, seq<Command>) -> (Store, Slice)

  ghost predicate IsAppend(ap: Appending, grow: Growth) {
    forall st, s, cs {:trigger IsAppended(st, s, cs, grow, ap(st, s, cs).0, ap(st, s, cs).1)} | Fits(st, s) ::
      IsAppended(st, s, cs, grow, ap(st, s, cs).0, ap(st, s, cs).1)
  }

  function Append(grow: Growth): Appending {
    (st: Store, s: Slice, cs: seq<Command>) =>
      var n := s.len + |cs|;
      if cs == [] || !Fits(st, s) then (st, s)
      else if n <= Capacity(st, s) then (Write(st, s.id, s.len, cs), Slice(s.id, n))
      else
        var room := Max(grow(Capacity(st, s), n), n);
        (st + [Content(st, s) + cs + Blanks(room - n)], Slice(|st|, n))
  }

  /** There is an append for every growth. */
  lemma AppendIsAppend(grow: Growth)
    ensures IsAppend(Append(grow), grow)
  {
    forall st, s, cs | Fits(st, s)
      ensures IsAppended(st, s, cs, grow, Append(grow)(st, s, cs).0, Append(grow)(st, s, cs).1)
    {
      AppendedSo(grow, st, s, cs);
    }
  }

  lemma AppendedSo(grow: Growth, st: Store, s: Slice, cs: seq<Command>)
    requires Fits(st, s)
    ensures IsAppended(st, s, cs, grow, Append(grow)(st, s, cs).0, Append(grow)(st, s, cs).1)
  {
  }

  lemma AppendContent(ap: Appending, grow: Growth, st: Store, s: Slice, cs: seq<Command>)
    requires IsAppend(ap, grow) && Fits(st, s)
    ensures var (st', s') := ap(st, s, cs);
            && Fits(st', s') && Content(st', s') == Content(st, s) + cs
            && s'.len == s.len + |cs| && |st| <= |st'|
  {
    assert IsAppended(st, s, cs, grow, ap(st, s, cs).0, ap(st, s, cs).1);
  }

  /** Where the result is: the slice itself, its array when there was room, or a
      new array. */
  lemma AppendPlace(ap: Appending, grow: Growth, st: Store, s: Slice, cs: seq<Command>)
    requires IsAppend(ap, grow) && Fits(st, s)
    ensures var (st', s') := ap(st, s, cs);
            if cs == [] then s' == s && st' == st
            else if s.len + |cs| <= Capacity(st, s) then
              s'.id == s.id && !Full(st, s) && Capacity(st', s') == Capacity(st, s)
            else s'.id == |st| && Capacity(st', s') == Max(grow(Capacity(st, s), s.len + |cs|), s.len + |cs|)
  {
    assert IsAppended(st, s, cs, grow, ap(st, s, cs).0, ap(st, s, cs).1);
  }

  /** Appending leaves every other slice as it was that is on another array or
      does not reach into the room behind this one. */
  lemma AppendKeeps(ap: Appending, grow: Growth, st: Store, s: Slice, cs: seq<Command>, t: Slice)
    requires IsAppend(ap, grow) && Fits(st, s) && Fits(st, t)
    ensures var st' := ap(st, s, cs).0;
            && Fits(st', t) && Capacity(st', t) == Capacity(st, t)
            && (cs == [] || t.id != s.id || t.len <= s.len ==> Content(st', t) == Content(st, t))
  {
    var st' := ap(st, s, cs).0;
    assert IsAppended(st, s, cs, grow, st', ap(st, s, cs).1);
    assert t.id != s.id || cs == [] || s.len + |cs| > Capacity(st, s) ==> st'[t.id] == st[t.id];
  }

  /** A group as the configuration keeps it: its fields, and the slice that its
      commands are. */
  datatype Header = Header(group: Group, slice: Slice)

  /** The group that a header stands for, read off the arrays. */
  function Read(st: Store, h: Header): Group {
    h.group.(commands := Content(st, h.slice))
  }

  datatype State = State(store: Store, headers: seq<Header>)
  {
    predicate AllFit() {
      forall k | 0 <= k < |headers| :: Fits(store, headers[k].slice)
    }

    /** Every group has an array of its own. */
    ghost predicate Separate() {
      && AllFit()
      && forall j, k | 0 <= j < k < |headers| :: headers[j].slice.id != headers[k].slice.id
    }

    function AsGroups(): (r: seq<Group>)
      ensures |r| == |headers|
    {
      seq(|headers|, k requires 0 <= k < |headers| => Read(store, headers[k]))
    }
  }
}
