// The ACPI interrupt-controller table: variable-length records behind a header, walked once to
// count them by type and once to collect their addresses.

module Madt {
  type Byte = n: nat | n < 0x100

  const FIRST_RECORD: nat := 44
  const SLOTS: nat := 7

  // Memory from the first byte of the table on: its length field, and at least as much memory as
  // it says. A record that starts in the last byte of the table has its length in the next byte.
  predicate IsTable(m: seq<Byte>) { |m| >= FIRST_RECORD && |m| > Length(m) }

  function Length(m: seq<Byte>): nat
    requires |m| >= FIRST_RECORD
  {
    var b0: int, b1: int, b2: int, b3: int := m[4], m[5], m[6], m[7];
    b0 + 0x100 * b1 + 0x1_0000 * b2 + 0x100_0000 * b3
  }

  function RecordLength(m: seq<Byte>, at: nat): nat
    requires IsTable(m) && at < Length(m)
  {
    m[at + 1]
  }

  // The table a record type is collected in; no table for the unknown ones.
  function SlotOf(entryType: Byte): (slot: nat)
    ensures slot <= SLOTS
  {
    if entryType <= 5 then entryType else if entryType == 9 then 6 else SLOTS
  }

  function Maximum(slot: nat): nat
    requires slot < SLOTS
  {
    [16, 8, 32, 16, 16, 2, 16][slot]
  }

  // The result arrays lie one behind the other.
  function Base(slot: nat): nat
    requires slot < SLOTS
  {
    [0, 16, 24, 56, 72, 88, 90][slot]
  }

  const CELLS: nat := 106

  lemma SlotsDoNotOverlap(s: nat, t: nat)
    requires s < SLOTS && t < SLOTS
    ensures s < t ==> Base(s) + Maximum(s) <= Base(t)
    ensures Base(s) + Maximum(s) <= CELLS
  {}

  // ---------------------------------------------------------------- the walk

  // No record that the walk reaches has length zero.
  predicate Walkable(m: seq<Byte>, at: nat := FIRST_RECORD)
    requires IsTable(m)
    decreases Length(m) - at
  {
    at < Length(m) ==> RecordLength(m, at) > 0 && Walkable(m, at + RecordLength(m, at))
  }

  // Where `ptr` stands after k iterations.
  function After(m: seq<Byte>, at: nat, k: nat): nat
    requires IsTable(m)
    decreases k
  {
    if k == 0 || at >= Length(m) then at else After(m, at + RecordLength(m, at), k - 1)
  }

  function Records(m: seq<Byte>, at: nat := FIRST_RECORD): seq<nat>
    requires IsTable(m) && Walkable(m, at)
    decreases Length(m) - at
  {
    if at >= Length(m) then [] else [at] + Records(m, at + RecordLength(m, at))
  }

  // The addresses of the records of one slot.
  function OfSlot(m: seq<Byte>, at: nat, slot: nat): seq<nat>
    requires IsTable(m) && Walkable(m, at)
    decreases Length(m) - at
  {
    if at >= Length(m) then []
    else if SlotOf(m[at]) == slot then [at] + OfSlot(m, at + RecordLength(m, at), slot)
    else OfSlot(m, at + RecordLength(m, at), slot)
  }

  // The walk ends exactly when it meets no zero-length record.
  lemma WalkEndsIff(m: seq<Byte>)
    requires IsTable(m)
    ensures Walkable(m) <==> exists k :: After(m, FIRST_RECORD, k) >= Length(m)
  {
    if Walkable(m) {
      RecordsArePlacesReached(m, FIRST_RECORD, |Records(m)|);
    }
    forall k | After(m, FIRST_RECORD, k) >= Length(m) ensures Walkable(m) {
      EndReachedMeansWalkable(m, FIRST_RECORD, k);
    }
  }

  lemma {:induction false} EndReachedMeansWalkable(m: seq<Byte>, at: nat, k: nat)
    requires IsTable(m) && After(m, at, k) >= Length(m)
    ensures Walkable(m, at)
    decreases k
  {
    if at < Length(m) {
      if RecordLength(m, at) == 0 {
        Stuck(m, at, k);
      } else {
        EndReachedMeansWalkable(m, at + RecordLength(m, at), k - 1);
      }
    }
  }

  lemma {:induction false} Stuck(m: seq<Byte>, at: nat, k: nat)
    requires IsTable(m) && at < Length(m) && RecordLength(m, at) == 0
    ensures After(m, at, k) == at
    decreases k
  {
    if k > 0 {
      Stuck(m, at, k - 1);
    }
  }

  // The k-th record is where the walk stands after k iterations; it ends after |records| of them.
  lemma {:induction false} RecordsArePlacesReached(m: seq<Byte>, at: nat, k: nat)
    requires IsTable(m) && Walkable(m, at) && k <= |Records(m, at)|
    ensures k < |Records(m, at)| ==> After(m, at, k) == Records(m, at)[k] < Length(m)
    ensures k == |Records(m, at)| ==> After(m, at, k) >= Length(m)
    decreases k
  {
    if k > 0 {
      RecordsArePlacesReached(m, at + RecordLength(m, at), k - 1);
    }
  }

  // Records lie in order, each where the one before it ends, inside the table.
  lemma {:induction false} RecordsFollowOneAnother(m: seq<Byte>, at: nat, i: nat)
    requires IsTable(m) && Walkable(m, at) && i < |Records(m, at)|
    ensures at <= Records(m, at)[i] < Length(m)
    ensures i + 1 < |Records(m, at)| ==>
      Records(m, at)[i + 1] == Records(m, at)[i] + RecordLength(m, Records(m, at)[i]) > Records(m, at)[i]
    decreases Length(m) - at
  {
    var next := at + RecordLength(m, at);
    if i > 0 {
      RecordsFollowOneAnother(m, next, i - 1);
    } else if |Records(m, at)| > 1 {
      assert Records(m, at)[1] == Records(m, next)[0];
    }
  }

  // A slot holds exactly the records of its type, in table order.
  lemma {:induction false} SlotHoldsItsType(m: seq<Byte>, at: nat, slot: nat, x: nat)
    requires IsTable(m) && Walkable(m, at)
    ensures x in OfSlot(m, at, slot) <==> x in Records(m, at) && x < Length(m) && SlotOf(m[x]) == slot
    decreases Length(m) - at
  {
    if at < Length(m) {
      SlotHoldsItsType(m, at + RecordLength(m, at), slot, x);
    }
  }

  lemma {:induction false} SlotIsInOrder(m: seq<Byte>, at: nat, slot: nat, i: nat, j: nat)
    requires IsTable(m) && Walkable(m, at) && i < j < |OfSlot(m, at, slot)|
    ensures at <= OfSlot(m, at, slot)[i] < OfSlot(m, at, slot)[j]
    decreases Length(m) - at
  {
    var next := at + RecordLength(m, at);
    if SlotOf(m[at]) != slot {
      SlotIsInOrder(m, next, slot, i, j);
    } else if i > 0 {
      SlotIsInOrder(m, next, slot, i - 1, j - 1);
    } else {
      StartsBehind(m, next, slot, j - 1);
    }
  }

  lemma {:induction false} StartsBehind(m: seq<Byte>, at: nat, slot: nat, i: nat)
    requires IsTable(m) && Walkable(m, at) && i < |OfSlot(m, at, slot)|
    ensures at <= OfSlot(m, at, slot)[i]
    decreases Length(m) - at
  {
    var next := at + RecordLength(m, at);
    if SlotOf(m[at]) != slot {
      StartsBehind(m, next, slot, i);
    } else if i > 0 {
      StartsBehind(m, next, slot, i - 1);
    }
  }

  // In the bytes of the table: the type byte of a record decides the slot.
  lemma {:induction false} SlotsByTypeByte(m: seq<Byte>, x: nat)
    requires IsTable(m) && Walkable(m) && x in Records(m)
    ensures x < Length(m)
    ensures x in OfSlot(m, FIRST_RECORD, 0) <==> m[x] == 0
    ensures x in OfSlot(m, FIRST_RECORD, 1) <==> m[x] == 1
    ensures x in OfSlot(m, FIRST_RECORD, 2) <==> m[x] == 2
    ensures x in OfSlot(m, FIRST_RECORD, 3) <==> m[x] == 3
    ensures x in OfSlot(m, FIRST_RECORD, 4) <==> m[x] == 4
    ensures x in OfSlot(m, FIRST_RECORD, 5) <==> m[x] == 5
    ensures x in OfSlot(m, FIRST_RECORD, 6) <==> m[x] == 9
  {
    var i :| 0 <= i < |Records(m)| && Records(m)[i] == x;
    RecordsFollowOneAnother(m, FIRST_RECORD, i);
    forall slot: nat | slot < SLOTS ensures x in OfSlot(m, FIRST_RECORD, slot) <==> SlotOf(m[x]) == slot {
      SlotHoldsItsType(m, FIRST_RECORD, slot, x);
    }
  }

  // The header: the length field, least byte first, and the first record behind it.
  lemma {:induction false} HeaderBytes(m: seq<Byte>)
    requires IsTable(m)
    ensures var b4: int, b5: int, b6: int, b7: int := m[4], m[5], m[6], m[7];
      Length(m) == ((b7 * 0x100 + b6) * 0x100 + b5) * 0x100 + b4
    ensures Walkable(m) && Length(m) > 44 ==> Records(m) != [] && Records(m)[0] == 44
    ensures Length(m) <= 44 ==> Walkable(m) && Records(m) == []
  {}

  // Every record is counted once: in one of the seven slots, or as unknown.
  lemma {:induction false} EveryRecordCountedOnce(m: seq<Byte>, at: nat)
    requires IsTable(m) && Walkable(m, at)
    ensures |OfSlot(m, at, 0)| + |OfSlot(m, at, 1)| + |OfSlot(m, at, 2)| + |OfSlot(m, at, 3)| + |OfSlot(m, at, 4)|
            + |OfSlot(m, at, 5)| + |OfSlot(m, at, 6)| + |OfSlot(m, at, SLOTS)| == |Records(m, at)|
    decreases Length(m) - at
  {
    if at < Length(m) {
      EveryRecordCountedOnce(m, at + RecordLength(m, at));
    }
  }

  // ---------------------------------------------------------------- the two walks

  // Counting and what is left to count make the whole.
  ghost predicate Counted(m: seq<Byte>, ptr: nat, counts: seq<nat>)
    requires IsTable(m) && Walkable(m) && Walkable(m, ptr)
  {
    && |counts| == SLOTS
    && forall s | 0 <= s < SLOTS :: counts[s] + |OfSlot(m, ptr, s)| == |OfSlot(m, FIRST_RECORD, s)|
  }

  method GetCount(m: seq<Byte>) returns (counts: array<nat>)
    requires IsTable(m) && Walkable(m)
    ensures fresh(counts) && counts.Length == SLOTS
    ensures forall s | 0 <= s < SLOTS :: counts[s] == |OfSlot(m, FIRST_RECORD, s)|
  {
    counts := new nat[SLOTS](_ => 0);
    var ptr: nat := FIRST_RECORD;
    var end := Length(m);
    while ptr < end
      invariant Walkable(m, ptr) && Counted(m, ptr, counts[..])
      decreases end - ptr
    {
      var slot := SlotOf(m[ptr]);
      ghost var before := counts[..];
      if slot < SLOTS {
        counts[slot] := counts[slot] + 1;
        assert counts[..] == before[slot := before[slot] + 1];
      }
      ptr := ptr + RecordLength(m, ptr);
    }
    assert forall s | 0 <= s < SLOTS :: counts[..][s] == |OfSlot(m, FIRST_RECORD, s)|;
  }

  predicate CountsFit(m: seq<Byte>)
    requires IsTable(m) && Walkable(m)
  {
    forall s | 0 <= s < SLOTS :: |OfSlot(m, FIRST_RECORD, s)| <= Maximum(s)
  }

  function Entries(cells: seq<nat>, slot: nat, count: nat): seq<nat>
    requires slot < SLOTS && count <= Maximum(slot) && |cells| == CELLS
  {
    cells[Base(slot)..Base(slot) + count]
  }

  // Collected so far, followed by what is left, is the whole.
  ghost predicate Collected(m: seq<Byte>, ptr: nat, cells: seq<nat>, counts: seq<nat>)
    requires IsTable(m) && Walkable(m) && Walkable(m, ptr) && CountsFit(m)
  {
    && |cells| == CELLS && |counts| == SLOTS
    && (forall s | 0 <= s < SLOTS :: counts[s] <= Maximum(s))
    && (forall s | 0 <= s < SLOTS ::
          Entries(cells, s, counts[s]) + OfSlot(m, ptr, s) == OfSlot(m, FIRST_RECORD, s))
  }

  lemma OwnSlotGrows(cells: seq<nat>, s: nat, n: nat, v: nat)
    requires s < SLOTS && n < Maximum(s) && |cells| == CELLS
    ensures Base(s) + n < CELLS
    ensures Entries(cells[Base(s) + n := v], s, n + 1) == Entries(cells, s, n) + [v]
  {
    SlotsDoNotOverlap(s, s);
  }

  lemma OtherSlotKept(cells: seq<nat>, s: nat, n: nat, t: nat, k: nat, v: nat)
    requires s < SLOTS && n <= Maximum(s) && t < SLOTS && k < Maximum(t) && s != t && |cells| == CELLS
    ensures Base(t) + k < CELLS
    ensures Entries(cells[Base(t) + k := v], s, n) == Entries(cells, s, n)
  {
    SlotsDoNotOverlap(s, t);
    SlotsDoNotOverlap(t, s);
  }

  lemma {:induction false} RoomForOneMore(m: seq<Byte>, ptr: nat, cells: seq<nat>, counts: seq<nat>)
    requires IsTable(m) && Walkable(m) && Walkable(m, ptr) && CountsFit(m)
    requires ptr < Length(m) && SlotOf(m[ptr]) < SLOTS && Collected(m, ptr, cells, counts)
    ensures counts[SlotOf(m[ptr])] < Maximum(SlotOf(m[ptr]))
  {
    var slot := SlotOf(m[ptr]);
    assert |Entries(cells, slot, counts[slot])| + |OfSlot(m, ptr, slot)| == |OfSlot(m, FIRST_RECORD, slot)|;
  }

  lemma {:induction false} CollectOne(m: seq<Byte>, ptr: nat, cells: seq<nat>, counts: seq<nat>)
    requires IsTable(m) && Walkable(m) && Walkable(m, ptr) && CountsFit(m)
    requires ptr < Length(m) && SlotOf(m[ptr]) < SLOTS && Collected(m, ptr, cells, counts)
    requires counts[SlotOf(m[ptr])] < Maximum(SlotOf(m[ptr]))
    ensures var slot := SlotOf(m[ptr]);
      && Base(slot) + counts[slot] < CELLS
      && Collected(m, ptr + RecordLength(m, ptr), cells[Base(slot) + counts[slot] := ptr],
                   counts[slot := counts[slot] + 1])
  {
    var slot := SlotOf(m[ptr]);
    SlotsDoNotOverlap(slot, slot);
    forall s | 0 <= s < SLOTS
      ensures Entries(cells[Base(slot) + counts[slot] := ptr], s, counts[slot := counts[slot] + 1][s])
              + OfSlot(m, ptr + RecordLength(m, ptr), s) == OfSlot(m, FIRST_RECORD, s)
    {
      CollectForSlot(m, ptr, cells, counts[s], counts[slot], s, OfSlot(m, FIRST_RECORD, s));
    }
  }

  // Slot s holds n addresses, the record's own slot k, before the address is stored.
  lemma {:induction false} CollectForSlot(m: seq<Byte>, ptr: nat, cells: seq<nat>, n: nat, k: nat, s: nat, all: seq<nat>)
    requires IsTable(m) && Walkable(m, ptr) && ptr < Length(m) && SlotOf(m[ptr]) < SLOTS && |cells| == CELLS
    requires s < SLOTS && n <= Maximum(s) && k < Maximum(SlotOf(m[ptr])) && (s == SlotOf(m[ptr]) ==> n == k)
    requires Entries(cells, s, n) + OfSlot(m, ptr, s) == all
    ensures Base(SlotOf(m[ptr])) + k < CELLS
    ensures Entries(cells[Base(SlotOf(m[ptr])) + k := ptr], s, if s == SlotOf(m[ptr]) then k + 1 else n)
            + OfSlot(m, ptr + RecordLength(m, ptr), s) == all
  {
    if s == SlotOf(m[ptr]) {
      OwnSlotGrows(cells, s, k, ptr);
      Regroup(Entries(cells, s, k), ptr, OfSlot(m, ptr + RecordLength(m, ptr), s));
    } else {
      OtherSlotKept(cells, s, n, SlotOf(m[ptr]), k, ptr);
    }
  }

  lemma Regroup(done: seq<nat>, x: nat, rest: seq<nat>)
    ensures done + [x] + rest == done + ([x] + rest)
  {}

  method StoreRecord(m: seq<Byte>, ptr: nat, slot: nat, counts: array<nat>, cells: array<nat>)
    requires IsTable(m) && Walkable(m) && Walkable(m, ptr) && CountsFit(m)
    requires counts.Length == SLOTS && cells.Length == CELLS && counts != cells
    requires ptr < Length(m) && slot == SlotOf(m[ptr]) < SLOTS && Collected(m, ptr, cells[..], counts[..])
    modifies counts, cells
    ensures Collected(m, ptr + RecordLength(m, ptr), cells[..], counts[..])
  {
    RoomForOneMore(m, ptr, cells[..], counts[..]);
    CollectOne(m, ptr, cells[..], counts[..]);
    var k := counts[slot];
    ghost var cells', counts' := cells[..], counts[..];
    cells[Base(slot) + k] := ptr;
    counts[slot] := k + 1;
    assert cells[..] == cells'[Base(slot) + k := ptr];
    assert counts[..] == counts'[slot := k + 1];
  }

  // The records of each type, in order, at the head of their array, and how many there are.
  method ParseMadt(m: seq<Byte>) returns (counts: array<nat>, cells: array<nat>)
    requires IsTable(m) && Walkable(m) && CountsFit(m)
    ensures fresh(counts) && fresh(cells) && counts.Length == SLOTS && cells.Length == CELLS
    ensures forall s | 0 <= s < SLOTS ::
      counts[s] == |OfSlot(m, FIRST_RECORD, s)| && Entries(cells[..], s, counts[s]) == OfSlot(m, FIRST_RECORD, s)
  {
    counts := new nat[SLOTS](_ => 0);
    cells := new nat[CELLS](_ => 0);
    var ptr: nat := FIRST_RECORD;
    var end := Length(m);
    while ptr < end
      invariant Walkable(m, ptr) && Collected(m, ptr, cells[..], counts[..])
      decreases end - ptr
    {
      var slot := SlotOf(m[ptr]);
      if slot < SLOTS {
        StoreRecord(m, ptr, slot, counts, cells);
      }
      ptr := ptr + RecordLength(m, ptr);
    }
    forall s | 0 <= s < SLOTS
      ensures counts[s] == |OfSlot(m, FIRST_RECORD, s)| && Entries(cells[..], s, counts[s]) == OfSlot(m, FIRST_RECORD, s)
    {
      assert counts[..][s] == counts[s];
      assert Entries(cells[..], s, counts[s]) + [] == OfSlot(m, FIRST_RECORD, s);
    }
  }
}
