/** The walk over the variable-length records of the MADT. */
module Madt {
  import opened Bytes
  import opened Words

  /** Where the records start: behind the header, the local APIC address and the flags. */
  const RECORDS: nat := 44

  /** Pointers each of the seven tables has room for. */
  const SLOTS: nat := 32

  const TABLES: nat := 7

  /** The table a record type belongs to, in the order of the fields of `acpi.tbl`. */
  function TableOf(kind: byte): Option<nat> {
    match kind
    case 0 => Some(0) // processor local APIC
    case 1 => Some(1) // I/O APIC
    case 2 => Some(2) // interrupt source override
    case 3 => Some(3) // I/O APIC NMI source
    case 4 => Some(4) // local APIC NMI
    case 5 => Some(5) // local APIC address override
    case 9 => Some(6) // processor local x2APIC
    case _ => None
  }

  /** The records a walk from `p` visits, or None when it reaches one of length zero and stays there. */
  function Walk(mem: seq<byte>, end: nat, p: nat): Option<seq<nat>>
    requires end < |mem|
    decreases end - p
  {
    if p >= end then Some([])
    else if mem[p + 1] == 0 then None
    else match Walk(mem, end, p + mem[p + 1])
         case None => None
         case Some(rest) => Some([p] + rest)
  }

  /** The pointer after `k` rounds of the loop body, standing still once it is past the end. */
  function Pointer(mem: seq<byte>, end: nat, p: nat, k: nat): nat
    requires end < |mem|
    decreases k
  {
    if k == 0 || p >= end then p else Pointer(mem, end, p + mem[p + 1], k - 1)
  }

  /** The loop comes to an end exactly when no record it reaches has length zero. */
  lemma {:induction false} WalkEnds(mem: seq<byte>, end: nat, p: nat)
    requires end < |mem|
    ensures Walk(mem, end, p).Some? <==> exists k: nat :: Pointer(mem, end, p, k) >= end
    decreases end - p
  {
    if p >= end {
      assert Pointer(mem, end, p, 0) >= end;
    } else if mem[p + 1] == 0 {
      forall k: nat
        ensures Pointer(mem, end, p, k) < end
      {
        StandsStill(mem, end, p, k);
      }
    } else {
      var q := p + mem[p + 1];
      WalkEnds(mem, end, q);
      if Walk(mem, end, q).Some? {
        var k: nat :| Pointer(mem, end, q, k) >= end;
        PointerNext(mem, end, p, k);
      } else {
        forall k: nat
          ensures Pointer(mem, end, p, k) < end
        {
          if k > 0 {
            PointerNext(mem, end, p, k - 1);
          }
        }
      }
    }
  }

  lemma {:induction false} PointerNext(mem: seq<byte>, end: nat, p: nat, k: nat)
    requires p < end < |mem|
    ensures Pointer(mem, end, p, k + 1) == Pointer(mem, end, p + mem[p + 1], k)
  {
  }

  lemma {:induction false} StandsStill(mem: seq<byte>, end: nat, p: nat, k: nat)
    requires p < end < |mem| && mem[p + 1] == 0
    ensures Pointer(mem, end, p, k) == p
    decreases k
  {
    if k == 0 {
    } else {
      StandsStill(mem, end, p, k - 1);
    }
  }

  /** The visited records of one table, in order. */
  function Collected(mem: seq<byte>, visited: seq<nat>, t: nat): seq<nat> {
    if visited == [] then []
    else
      var front, p := visited[..|visited| - 1], visited[|visited| - 1];
      Collected(mem, front, t) + if p < |mem| && TableOf(mem[p]) == Some(t) then [p] else []
  }

  // The layout of the table.

  /** A record: its type, and what follows the type and length bytes. */
  datatype Record = Record(kind: byte, body: seq<byte>) {
    predicate Valid() {
      |body| <= 253
    }

    function Bytes(): seq<byte>
      requires Valid()
    {
      [kind, 2 + |body|] + body
    }
  }

  predicate AllValid(rs: seq<Record>) {
    forall r | r in rs :: r.Valid()
  }

  /** The records one behind the other. */
  function Layout(rs: seq<Record>): seq<byte>
    requires AllValid(rs)
  {
    if rs == [] then [] else rs[0].Bytes() + Layout(rs[1..])
  }

  /** The addresses of records laid out from `p`. */
  function Addresses(rs: seq<Record>, p: nat): (a: seq<nat>)
    requires AllValid(rs)
    ensures |a| == |rs|
  {
    if rs == [] then [] else [p] + Addresses(rs[1..], p + |rs[0].Bytes()|)
  }

  /** The records lie in memory from `p`, and memory goes on behind them. */
  predicate LaidOut(mem: seq<byte>, p: nat, rs: seq<Record>)
    requires AllValid(rs)
  {
    p + |Layout(rs)| < |mem| && mem[p..p + |Layout(rs)|] == Layout(rs)
  }

  lemma {:induction false} LaidOutParts(mem: seq<byte>, p: nat, rs: seq<Record>)
    requires AllValid(rs) && rs != [] && LaidOut(mem, p, rs)
    ensures var b := rs[0].Bytes();
            && AllValid(rs[1..]) && LaidOut(mem, p + |b|, rs[1..]) && |Layout(rs)| == |b| + |Layout(rs[1..])|
            && mem[p..p + |b|] == b && mem[p] == rs[0].kind && mem[p + 1] == |b|
  {
    var b, rest := rs[0].Bytes(), Layout(rs[1..]);
    var all := mem[p..p + |Layout(rs)|];
    assert all == b + rest;
    assert mem[p..p + |b|] == all[..|b|] == b;
    assert mem[p + |b|..p + |b| + |rest|] == all[|b|..] == rest;
    assert mem[p] == all[0] && mem[p + 1] == all[1];
  }

  /** Walking a table made of records visits each of them once, in order, where it lies. */
  lemma {:induction false} WalkUndoesLayout(mem: seq<byte>, p: nat, rs: seq<Record>)
    requires AllValid(rs) && LaidOut(mem, p, rs)
    ensures Walk(mem, p + |Layout(rs)|, p) == Some(Addresses(rs, p))
    ensures forall i | 0 <= i < |rs| ::
              var a := Addresses(rs, p)[i];
              a + |rs[i].Bytes()| <= |mem| && mem[a..a + |rs[i].Bytes()|] == rs[i].Bytes()
    decreases |rs|
  {
    if rs != [] {
      LaidOutParts(mem, p, rs);
      hide Layout, LaidOut;
      WalkUndoesLayout(mem, p + |rs[0].Bytes()|, rs[1..]);
    } else {
      assert Layout(rs) == [];
    }
  }

  /** The addresses of the records of one type. */
  function AddressesOf(rs: seq<Record>, p: nat, kind: byte): seq<nat>
    requires AllValid(rs)
  {
    if rs == [] then []
    else (if rs[0].kind == kind then [p] else []) + AddressesOf(rs[1..], p + |rs[0].Bytes()|, kind)
  }

  /** A table that one type goes to is the list of the records of that type in the order they are laid out. */
  lemma {:induction false} TableIsExact(mem: seq<byte>, p: nat, rs: seq<Record>, t: nat, kind: byte)
    requires AllValid(rs) && LaidOut(mem, p, rs)
    requires forall k: byte :: TableOf(k) == Some(t) <==> k == kind
    ensures Collected(mem, Addresses(rs, p), t) == AddressesOf(rs, p, kind)
    decreases |rs|
  {
    if rs == [] {
    } else {
      LaidOutParts(mem, p, rs);
      hide Layout, LaidOut, Collected, TableOf;
      var q := p + |rs[0].Bytes()|;
      TableIsExact(mem, q, rs[1..], t, kind);
      CollectedSplits(mem, p, Addresses(rs[1..], q), t);
    }
  }

  /** The tables of local APICs, I/O APICs, overrides, two sorts of NMI sources and address overrides list the
      records of types 0 to 5, the table of local x2APICs those of type 9, each in the order they are laid out. */
  lemma {:induction false} TablesAreExact(mem: seq<byte>, p: nat, rs: seq<Record>)
    requires AllValid(rs) && LaidOut(mem, p, rs)
    ensures Collected(mem, Addresses(rs, p), 0) == AddressesOf(rs, p, 0)
    ensures Collected(mem, Addresses(rs, p), 1) == AddressesOf(rs, p, 1)
    ensures Collected(mem, Addresses(rs, p), 2) == AddressesOf(rs, p, 2)
    ensures Collected(mem, Addresses(rs, p), 3) == AddressesOf(rs, p, 3)
    ensures Collected(mem, Addresses(rs, p), 4) == AddressesOf(rs, p, 4)
    ensures Collected(mem, Addresses(rs, p), 5) == AddressesOf(rs, p, 5)
    ensures Collected(mem, Addresses(rs, p), 6) == AddressesOf(rs, p, 9)
  {
    hide Collected, AddressesOf, Addresses, LaidOut;
    TableIsExact(mem, p, rs, 0, 0);
    TableIsExact(mem, p, rs, 1, 1);
    TableIsExact(mem, p, rs, 2, 2);
    TableIsExact(mem, p, rs, 3, 3);
    TableIsExact(mem, p, rs, 4, 4);
    TableIsExact(mem, p, rs, 5, 5);
    TableIsExact(mem, p, rs, 6, 9);
  }

  lemma {:induction false} CollectedHas(mem: seq<byte>, visited: seq<nat>, t: nat, x: nat)
    ensures x in Collected(mem, visited, t) <==> x in visited && x < |mem| && TableOf(mem[x]) == Some(t)
  {
    hide TableOf;
    if visited == [] {
    } else {
      var front, p := visited[..|visited| - 1], visited[|visited| - 1];
      CollectedHas(mem, front, t, x);
      assert visited == front + [p];
    }
  }

  /** A record of any other type is in no table. */
  lemma {:induction false} OthersInNone(mem: seq<byte>, p: nat, rs: seq<Record>, i: nat, t: nat)
    requires AllValid(rs) && LaidOut(mem, p, rs) && i < |rs|
    requires rs[i].kind !in [0, 1, 2, 3, 4, 5, 9]
    ensures Addresses(rs, p)[i] !in Collected(mem, Addresses(rs, p), t)
  {
    WalkUndoesLayout(mem, p, rs);
    var a := Addresses(rs, p)[i];
    assert mem[a..a + |rs[i].Bytes()|][0] == rs[i].kind;
    CollectedHas(mem, Addresses(rs, p), t, a);
  }

  lemma {:induction false} CollectedSplits(mem: seq<byte>, p: nat, rest: seq<nat>, t: nat)
    ensures Collected(mem, [p] + rest, t)
            == (if p < |mem| && TableOf(mem[p]) == Some(t) then [p] else []) + Collected(mem, rest, t)
    decreases |rest|
  {
    if rest == [] {
      assert [p] + rest == [p] && [p][..0] == [];
    } else {
      var n := |rest| - 1;
      CollectedSplits(mem, p, rest[..n], t);
      assert ([p] + rest)[..n + 1] == [p] + rest[..n];
    }
  }

  /** A table holds no more records than there are of its type. */
  lemma {:induction false} CollectedGrows(mem: seq<byte>, seen: seq<nat>, rest: seq<nat>, t: nat)
    ensures |Collected(mem, seen, t)| <= |Collected(mem, seen + rest, t)|
    decreases |rest|
  {
    if rest == [] {
      assert seen + rest == seen;
    } else {
      CollectedGrows(mem, seen, rest[..|rest| - 1], t);
      assert (seen + rest)[..|seen + rest| - 1] == seen + rest[..|rest| - 1];
    }
  }

  lemma {:induction false} CollectedNext(mem: seq<byte>, seen: seq<nat>, p: nat, t: nat)
    requires p < |mem|
    ensures Collected(mem, seen + [p], t)
            == Collected(mem, seen, t) + if TableOf(mem[p]) == Some(t) then [p] else []
  {
    assert (seen + [p])[..|seen|] == seen;
  }

  /** The seven tables of pointers and their counters. */
  class Acpi {
    const tbl: array2<nat>
    const idx: array<nat>

    ghost predicate Valid()
      reads this, idx
    {
      && tbl.Length0 == TABLES && tbl.Length1 == SLOTS && idx.Length == TABLES
      && forall t | 0 <= t < TABLES :: idx[t] <= SLOTS
    }

    ghost function Table(t: nat): seq<nat>
      requires Valid() && t < TABLES
      reads this, idx, tbl
    {
      seq(idx[t], j requires 0 <= j < idx[t] <= SLOTS && tbl.Length0 == TABLES && tbl.Length1 == SLOTS
        reads this, idx, tbl => tbl[t, j])
    }

    constructor ()
      ensures Valid() && fresh(tbl) && fresh(idx)
      ensures forall t | 0 <= t < TABLES :: Table(t) == []
    {
      tbl := new nat[TABLES, SLOTS];
      idx := new nat[TABLES](_ => 0);
    }

    method Push(t: nat, p: nat)
      requires Valid() && t < TABLES && |Table(t)| < SLOTS
      modifies tbl, idx
      ensures Valid()
      ensures Table(t) == old(Table(t)) + [p]
      ensures forall u | 0 <= u < TABLES && u != t :: Table(u) == old(Table(u))
    {
      tbl[t, idx[t]] := p;
      idx[t] := idx[t] + 1;
    }

    /** The walk of `acpi_init_madt` over a table of `length` bytes in memory that goes on behind it. */
    method InitMadt(mem: seq<byte>, length: nat)
      requires Valid() && forall t | 0 <= t < TABLES :: Table(t) == []
      requires length < |mem| && Walk(mem, length, 44).Some?
      requires forall t | 0 <= t < 7 :: |Collected(mem, Walk(mem, length, 44).value, t)| <= 32
      modifies tbl, idx
      ensures Valid()
      ensures forall t | 0 <= t < 7 :: Table(t) == Collected(mem, Walk(mem, length, 44).value, t)
    {
      hide Collected;
      ghost var whole := Walk(mem, length, RECORDS).value;
      ghost var seen: seq<nat> := [];
      var ptr := RECORDS;
      forall t | 0 <= t < TABLES
        ensures Collected(mem, [], t) == []
      {
        CollectedNothing(mem, t);
      }
      while ptr < length
        invariant Walk(mem, length, ptr).Some? && whole == seen + Walk(mem, length, ptr).value
        invariant Valid()
        invariant forall t | 0 <= t < TABLES :: Table(t) == Collected(mem, seen, t)
        decreases length - ptr
      {
        ghost var rest := Walk(mem, length, ptr + mem[ptr + 1]).value;
        assert whole == (seen + [ptr]) + rest;
        forall t | 0 <= t < TABLES
          ensures Collected(mem, seen + [ptr], t) ==
            Collected(mem, seen, t) + if TableOf(mem[ptr]) == Some(t) then [ptr] else []
          ensures |Collected(mem, seen + [ptr], t)| <= SLOTS
        {
          CollectedNext(mem, seen, ptr, t);
          CollectedGrows(mem, seen + [ptr], rest, t);
        }
        match TableOf(mem[ptr]) {
          case Some(t) => Push(t, ptr);
          case None =>
        }
        seen := seen + [ptr];
        ptr := ptr + mem[ptr + 1];
      }
      assert whole == seen;
    }
  }

  lemma {:induction false} CollectedNothing(mem: seq<byte>, t: nat)
    ensures Collected(mem, [], t) == []
  {
  }
}
