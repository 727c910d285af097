/**
 The breakpoint table of gdb_protocol.c:61-125: a strictly ascending array.

 `Play` is what the commands mean on a set of addresses; the methods search and shift the
 array in place and are proved to follow it.
 */
module Breakpoints {
  import opened Words

  const MAX_BREAKPOINTS_NUMBER: int := 1024

  ghost predicate Ascending(s: seq<Word>) {
    forall i, j :: 0 <= i < j < |s| ==> s[i] < s[j]
  }

  ghost function SetOf(s: seq<Word>): set<Word> {
    set x | x in s
  }

  // ---------------------------------------------------------------- the meaning

  datatype Command = AddAt(address: Word) | RemoveAt(address: Word)

  /**
   One command on a set of addresses.  When the table is full an addition is refused, even of
   an address already in it.
   */
  function After(s: set<Word>, c: Command): set<Word> {
    match c
    case AddAt(a) => if |s| < MAX_BREAKPOINTS_NUMBER then s + {a} else s
    case RemoveAt(a) => s - {a}
  }

  function Reply(s: set<Word>, c: Command): int {
    match c
    case AddAt(a) => if |s| < MAX_BREAKPOINTS_NUMBER then 1 else 0
    case RemoveAt(a) => if a in s then 1 else 0
  }

  function Play(s: set<Word>, cs: seq<Command>): set<Word>
    decreases |cs|
  {
    if cs == [] then s else After(Play(s, cs[..|cs| - 1]), cs[|cs| - 1])
  }

  lemma {:induction false} NeverOverfull(cs: seq<Command>)
    ensures |Play({}, cs)| <= MAX_BREAKPOINTS_NUMBER
    decreases |cs|
  {
    if cs != [] {
      var s, c := Play({}, cs[..|cs| - 1]), cs[|cs| - 1];
      NeverOverfull(cs[..|cs| - 1]);
      if c.RemoveAt? { Shrinks(s, c.address); } else { Grows(s, c.address); }
    }
  }

  lemma Shrinks(s: set<Word>, a: Word)
    ensures |s - {a}| <= |s|
  {
    if a !in s { assert s - {a} == s; }
  }

  lemma Grows(s: set<Word>, a: Word)
    ensures |s + {a}| <= |s| + 1
  {
    if a in s { assert s + {a} == s; }
  }

  /** The command at i added a, and nothing since has removed it. */
  ghost predicate AddedAt(cs: seq<Command>, i: int, a: Word) {
    && 0 <= i < |cs| && cs[i] == AddAt(a) && |Play({}, cs[..i])| < MAX_BREAKPOINTS_NUMBER
    && forall j :: i < j < |cs| ==> cs[j] != RemoveAt(a)
  }

  /** A command about another address, or a refused addition, changes nothing for a. */
  lemma AddedBefore(cs: seq<Command>, i: int, a: Word)
    requires cs != []
    ensures var n := |cs| - 1;
            AddedAt(cs, i, a) <==>
              if i == n then cs[n] == AddAt(a) && |Play({}, cs[..n])| < MAX_BREAKPOINTS_NUMBER
              else AddedAt(cs[..n], i, a) && cs[n] != RemoveAt(a)
  {
    var before := cs[..|cs| - 1];
    if 0 <= i < |before| {
      assert before[..i] == cs[..i];
    }
    hide Play;
  }

  /** After any commands from the empty table, its members are the addresses last added, not removed. */
  lemma {:induction false} Membership(cs: seq<Command>, a: Word)
    ensures a in Play({}, cs) <==> exists i :: AddedAt(cs, i, a)
    decreases |cs|
  {
    if cs != [] {
      var n := |cs| - 1;
      Membership(cs[..n], a);
      AddedBefore(cs, n, a);
      forall i ensures AddedAt(cs, i, a) <==>
          if i == n then cs[n] == AddAt(a) && |Play({}, cs[..n])| < MAX_BREAKPOINTS_NUMBER
          else AddedAt(cs[..n], i, a) && cs[n] != RemoveAt(a) {
        AddedBefore(cs, i, a);
      }
      assert !AddedAt(cs[..n], n, a);
      hide AddedAt;
      if i :| AddedAt(cs[..n], i, a) {
        assert AddedAt(cs, i, a) <==> cs[n] != RemoveAt(a);
      }
    }
  }

  // ---------------------------------------------------------------- ascending sequences

  lemma {:induction false} AscendingSize(s: seq<Word>)
    requires Ascending(s)
    ensures |SetOf(s)| == |s|
  {
    if s != [] {
      var n := |s| - 1;
      AscendingSize(s[..n]);
      assert SetOf(s) == SetOf(s[..n]) + {s[n]};
    }
  }

  /** A table is determined by its set of addresses. */
  lemma {:induction false} AscendingUnique(s: seq<Word>, t: seq<Word>)
    requires Ascending(s) && Ascending(t) && SetOf(s) == SetOf(t)
    ensures s == t
  {
    AscendingSize(s);
    AscendingSize(t);
    if s != [] {
      var n := |s| - 1;
      LastIsGreatest(s);
      LastIsGreatest(t);
      assert s[n] in SetOf(t) && t[n] in SetOf(s);
      assert SetOf(s[..n]) == SetOf(s) - {s[n]};
      assert SetOf(t[..n]) == SetOf(t) - {t[n]};
      AscendingUnique(s[..n], t[..n]);
      assert s == s[..n] + [s[n]] && t == t[..n] + [t[n]];
    }
  }

  lemma LastIsGreatest(s: seq<Word>)
    requires Ascending(s) && s != []
    ensures forall x :: x in SetOf(s) ==> x <= s[|s| - 1]
  {
  }

  lemma InsertedSet(s: seq<Word>, j: int, a: Word)
    requires 0 <= j <= |s|
    ensures SetOf(s[..j] + [a] + s[j..]) == SetOf(s) + {a}
  {
    var t := s[..j] + [a] + s[j..];
    forall x ensures x in SetOf(t) <==> x in SetOf(s) + {a} {
      assert s == s[..j] + s[j..];
    }
  }

  lemma InsertedAscending(s: seq<Word>, j: int, a: Word)
    requires Ascending(s) && 0 <= j <= |s|
    requires forall k :: 0 <= k < |s| ==> if k < j then s[k] < a else s[k] > a
    ensures Ascending(s[..j] + [a] + s[j..])
  {
  }

  /** The table t after the greater addresses have moved up to make room for a. */
  lemma Inserted(s: seq<Word>, j: int, a: Word, t: seq<Word>)
    requires Ascending(s) && a !in SetOf(s) && 0 <= j <= |s| && |t| == |s| + 1 && t[j] == a
    requires forall k :: 0 <= k < j ==> t[k] == s[k] <= a
    requires forall k :: j < k < |t| ==> t[k] == s[k - 1] && t[k] > a
    ensures Ascending(t) && SetOf(t) == SetOf(s) + {a}
  {
    assert t == s[..j] + [a] + s[j..];
    InsertedSet(s, j, a);
    forall k | 0 <= k < |s| ensures if k < j then s[k] < a else s[k] > a {
      assert s[k] in SetOf(s);
      assert k >= j ==> t[k + 1] == s[k];
    }
    InsertedAscending(s, j, a);
  }

  lemma RemovedSet(s: seq<Word>, p: int)
    requires Ascending(s) && 0 <= p < |s|
    ensures SetOf(s[..p] + s[p + 1..]) == SetOf(s) - {s[p]}
    ensures Ascending(s[..p] + s[p + 1..])
  {
    var t := s[..p] + s[p + 1..];
    assert s == s[..p] + [s[p]] + s[p + 1..];
    forall x ensures x in SetOf(t) <==> x in SetOf(s) - {s[p]} {
    }
  }

  // ---------------------------------------------------------------- the array

  class Table {
    const cells: array<Word>
    var count: nat

    ghost predicate Valid()
      reads this, cells
    {
      cells.Length == MAX_BREAKPOINTS_NUMBER && count <= cells.Length && Ascending(cells[..count])
    }

    ghost function Addresses(): set<Word>
      requires Valid()
      reads this, cells
    {
      SetOf(cells[..count])
    }

    constructor ()
      ensures Valid() && Addresses() == {} && fresh(cells)
    {
      cells := new Word[MAX_BREAKPOINTS_NUMBER](_ => 0);
      count := 0;
    }

    /** `gdb_find_breakpoint`: binary search. */
    method Find(address: Word) returns (position: int)
      requires Valid()
      ensures position == -1 <==> address !in Addresses()
      ensures position != -1 ==> 0 <= position < count && cells[position] == address
    {
      var begin, end := 0, count;
      while begin < end
        invariant 0 <= begin <= end <= count
        invariant forall k :: 0 <= k < begin ==> cells[k] < address
        invariant forall k :: end <= k < count ==> cells[k] > address
      {
        var middle := (begin + end) / 2;
        var at := cells[middle];
        assert at == cells[..count][middle];
        if at > address {
          end := middle;
        } else if at < address {
          begin := middle + 1;
        } else {
          return middle;
        }
      }
      return -1;
    }

    /** `gdb_add_breakpoint`: shift the greater addresses up and insert. */
    method Add(address: Word) returns (reply: int)
      requires Valid()
      modifies this, cells
      ensures Valid()
      ensures Addresses() == After(old(Addresses()), AddAt(address))
      ensures reply == Reply(old(Addresses()), AddAt(address))
      ensures reply == (if |old(Addresses())| < 1024 then 1 else 0)
      ensures Addresses() == if reply == 1 then old(Addresses()) + {address} else old(Addresses())
    {
      ghost var o := cells[..count];
      AscendingSize(o);
      if count >= MAX_BREAKPOINTS_NUMBER { return 0; }
      var position := Find(address);
      if position != -1 {
        assert SetOf(o) + {address} == SetOf(o);
        return 1;
      }
      assert Ascending(o) && address !in SetOf(o);
      var j := ShiftUp(address, o);
      cells[j] := address;
      Inserted(o, j, address, cells[..count]);
      return 1;
    }

    /** The loop of gdb_protocol.c:93-98; it leaves the place of the new address free. */
    method ShiftUp(address: Word, ghost o: seq<Word>) returns (j: nat)
      requires Valid() && count < MAX_BREAKPOINTS_NUMBER && o == cells[..count]
      modifies this, cells
      ensures count == |o| + 1 && j <= |o|
      ensures forall k :: 0 <= k < j ==> cells[k] == o[k] <= address
      ensures forall k :: j < k < count ==> cells[k] == o[k - 1] && cells[k] > address
    {
      j := count;
      count := count + 1;
      while j > 0 && cells[j - 1] > address
        invariant count == |o| + 1 && 0 <= j <= |o|
        invariant forall k :: 0 <= k < j ==> cells[k] == o[k]
        invariant forall k :: j < k < count ==> cells[k] == o[k - 1] && cells[k] > address
      {
        cells[j] := cells[j - 1];
        j := j - 1;
      }
      forall k | 0 <= k < j ensures cells[k] == o[k] <= address {
        assert o[j - 1] == cells[j - 1];
      }
    }

    /** `gdb_remove_breakpoint`: shift the following addresses down. */
    method Remove(address: Word) returns (reply: int)
      requires Valid()
      modifies this, cells
      ensures Valid()
      ensures Addresses() == After(old(Addresses()), RemoveAt(address))
      ensures reply == Reply(old(Addresses()), RemoveAt(address))
      ensures reply == (if address in old(Addresses()) then 1 else 0)
      ensures Addresses() == old(Addresses()) - {address}
    {
      var position := Find(address);
      ghost var o := cells[..count];
      if position == -1 {
        assert SetOf(o) - {address} == SetOf(o);
        return 0;
      }
      assert address in SetOf(o) by { assert o[position] == address; }
      count := count - 1;
      var last := count;
      for j := position to last
        invariant count == last == |o| - 1
        invariant forall k :: 0 <= k < position ==> cells[k] == o[k]
        invariant forall k :: position <= k < j ==> cells[k] == o[k + 1]
        invariant forall k :: j <= k <= last ==> cells[k] == o[k]
      {
        cells[j] := cells[j + 1];
      }
      RemovedSet(o, position);
      assert cells[..count] == o[..position] + o[position + 1..];
      return 1;
    }
  }
}
