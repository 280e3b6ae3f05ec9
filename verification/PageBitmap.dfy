// The bitmap of physical pages, eight to a byte, and first-fit allocation over it.

module PhysicalPages {
  import opened Common

  const PAGE_SIZE: nat := 0x1000
  const NUM_PAGES: nat := 0x10_0000
  const RESERVED_PAGES: nat := 1024

  type Addr = a: nat | a < 0x1_0000_0000

  // 4 GB of memory in pages of 4 KB, the first 4 MB of them reserved.
  lemma MemoryLayout()
    ensures PAGE_SIZE == 4096 && NUM_PAGES * 4096 == 0x1_0000_0000 && RESERVED_PAGES * 4096 == 4 * 1024 * 1024
  {}

  predicate Between(p: nat, start: nat, n: nat) { start <= p < start + n }

  ghost function Range(start: nat, n: nat): set<nat> { set p: nat | p < start + n && Between(p, start, n) }

  ghost predicate FreeRun(used: set<nat>, start: nat, n: nat) {
    start + n <= NUM_PAGES && Range(start, n) !! used
  }

  // The lowest free run of n pages that starts at s or later.
  ghost function FirstFrom(used: set<nat>, n: nat, s: nat): (r: Option<nat>)
    ensures r.Some? ==> r.value >= s && FreeRun(used, r.value, n)
    ensures forall q | s <= q < (if r.Some? then r.value else NUM_PAGES + 1) :: !FreeRun(used, q, n)
    decreases NUM_PAGES - s
  {
    if s + n > NUM_PAGES then None
    else if FreeRun(used, s, n) then Some(s)
    else FirstFrom(used, n, s + 1)
  }

  ghost function FirstFit(used: set<nat>, n: nat): Option<nat> {
    if n == 0 || n > NUM_PAGES then None else FirstFrom(used, n, 0)
  }

  lemma {:induction false} FirstFromIs(used: set<nat>, n: nat, s: nat, start: nat)
    requires s <= start && FreeRun(used, start, n)
    requires forall q | s <= q < start :: !FreeRun(used, q, n)
    ensures FirstFrom(used, n, s) == Some(start)
    decreases start - s
  {
    if s < start {
      FirstFromIs(used, n, s + 1, start);
    }
  }

  // First fit is sound, complete and lowest.
  lemma FirstFitCharacterized(used: set<nat>, n: nat, start: nat)
    ensures FirstFit(used, n) == Some(start) <==>
            n > 0 && FreeRun(used, start, n) && forall q | 0 <= q < start :: !FreeRun(used, q, n)
    ensures FirstFit(used, n) == None ==> n == 0 || !FreeRun(used, start, n)
  {
    if n > 0 && FreeRun(used, start, n) && forall q | 0 <= q < start :: !FreeRun(used, q, n) {
      FirstFromIs(used, n, 0, start);
    }
  }

  // The address alloc_n_pages returns: 0 for failure.
  ghost function ReturnedAddress(used: set<nat>, n: nat): nat {
    match FirstFit(used, n)
    case Some(p) => p * PAGE_SIZE
    case None => 0
  }

  // With page 0 in use, 0 means failure and nothing else.
  lemma ZeroMeansNone(used: set<nat>, n: nat)
    requires 0 in used
    ensures ReturnedAddress(used, n) == 0 <==> n == 0 || n > NUM_PAGES || forall start :: !FreeRun(used, start, n)
  {
    assert n > 0 ==> Between(0, 0, n) && 0 in Range(0, n);
    if FirstFit(used, n) == None {
      forall start | n > 0 ensures !FreeRun(used, start, n) {
        FirstFitCharacterized(used, n, start);
      }
    }
  }

  lemma {:induction false} RangeSize(start: nat, n: nat)
    ensures |Range(start, n)| == n
    decreases n
  {
    if n > 0 {
      RangeSize(start, n - 1);
      assert Range(start, n) == Range(start, n - 1) + {start + n - 1};
    } else {
      assert Range(start, n) == {};
    }
  }
}

module PageAllocator {
  import opened Common
  import opened PhysicalPages

  const BITMAP_SIZE: nat := NUM_PAGES / 8

  function Mask(bit: nat): bv8
    requires bit < 8
  {
    1 << bit
  }

  // Changing one bit of a byte changes that bit and no other.
  lemma OneBitChanges(b: bv8, i: nat, j: nat)
    requires i < 8 && j < 8
    ensures (b | Mask(i)) & Mask(j) != 0 <==> i == j || b & Mask(j) != 0
    ensures (b & !Mask(i)) & Mask(j) != 0 <==> i != j && b & Mask(j) != 0
  {}

  predicate BitSet(bits: seq<bv8>, idx: nat)
    requires idx / 8 < |bits|
  {
    bits[idx / 8] & Mask(idx % 8) != 0
  }

  ghost function UsedIn(bits: seq<bv8>): set<nat>
    requires |bits| == BITMAP_SIZE
  {
    set p | 0 <= p < NUM_PAGES && BitSet(bits, p)
  }

  // Eight pages to a byte, the lowest in the lowest bit.
  lemma PageBits(bits: seq<bv8>, q: nat)
    requires q < |bits|
    ensures BitSet(bits, 8 * q) <==> bits[q] & 0x01 == 0x01
    ensures BitSet(bits, 8 * q + 1) <==> bits[q] & 0x02 == 0x02
    ensures BitSet(bits, 8 * q + 2) <==> bits[q] & 0x04 == 0x04
    ensures BitSet(bits, 8 * q + 3) <==> bits[q] & 0x08 == 0x08
    ensures BitSet(bits, 8 * q + 4) <==> bits[q] & 0x10 == 0x10
    ensures BitSet(bits, 8 * q + 5) <==> bits[q] & 0x20 == 0x20
    ensures BitSet(bits, 8 * q + 6) <==> bits[q] & 0x40 == 0x40
    ensures BitSet(bits, 8 * q + 7) <==> bits[q] & 0x80 == 0x80
  {
    BitMasks(bits[q]);
  }

  lemma BitMasks(b: bv8)
    ensures Mask(0) == 0x01 && Mask(1) == 0x02 && Mask(2) == 0x04 && Mask(3) == 0x08
    ensures Mask(4) == 0x10 && Mask(5) == 0x20 && Mask(6) == 0x40 && Mask(7) == 0x80
    ensures forall i: nat | i < 8 :: b & Mask(i) != 0 <==> b & Mask(i) == Mask(i)
  {}

  // As bytes: with exactly the first 4 MB used, 128 bytes are full and all others empty.
  lemma InitialBytes(bits: seq<bv8>, q: nat)
    requires |bits| == BITMAP_SIZE && q < BITMAP_SIZE && UsedIn(bits) == Range(0, RESERVED_PAGES)
    ensures bits[q] == if q < 128 then 0xFF else 0x00
  {
    PageBits(bits, q);
    InitialBit(bits, q, 0);
    InitialBit(bits, q, 1);
    InitialBit(bits, q, 2);
    InitialBit(bits, q, 3);
    InitialBit(bits, q, 4);
    InitialBit(bits, q, 5);
    InitialBit(bits, q, 6);
    InitialBit(bits, q, 7);
    AllAlike(bits[q], q < 128);
  }

  lemma InitialBit(bits: seq<bv8>, q: nat, r: nat)
    requires |bits| == BITMAP_SIZE && q < BITMAP_SIZE && r < 8 && UsedIn(bits) == Range(0, RESERVED_PAGES)
    ensures BitSet(bits, 8 * q + r) <==> q < 128
  {
    assert 8 * q + r in UsedIn(bits) <==> BitSet(bits, 8 * q + r);
    assert 8 * q + r in Range(0, RESERVED_PAGES) <==> Between(8 * q + r, 0, RESERVED_PAGES);
  }

  lemma AllAlike(b: bv8, all: bool)
    requires b & 0x01 == 0x01 <==> all
    requires b & 0x02 == 0x02 <==> all
    requires b & 0x04 == 0x04 <==> all
    requires b & 0x08 == 0x08 <==> all
    requires b & 0x10 == 0x10 <==> all
    requires b & 0x20 == 0x20 <==> all
    requires b & 0x40 == 0x40 <==> all
    requires b & 0x80 == 0x80 <==> all
    ensures b == if all then 0xFF else 0x00
  {}

  lemma BitAfterSet(bits: seq<bv8>, idx: nat, p: nat)
    requires idx / 8 < |bits| && p / 8 < |bits|
    ensures BitSet(bits[idx / 8 := bits[idx / 8] | Mask(idx % 8)], p) <==> p == idx || BitSet(bits, p)
  {
    if p / 8 == idx / 8 {
      OneBitChanges(bits[idx / 8], idx % 8, p % 8);
    }
  }

  lemma BitAfterClear(bits: seq<bv8>, idx: nat, p: nat)
    requires idx / 8 < |bits| && p / 8 < |bits|
    ensures BitSet(bits[idx / 8 := bits[idx / 8] & !Mask(idx % 8)], p) <==> p != idx && BitSet(bits, p)
  {
    if p / 8 == idx / 8 {
      OneBitChanges(bits[idx / 8], idx % 8, p % 8);
    }
  }

  lemma SetBitUses(bits: seq<bv8>, after: seq<bv8>, idx: nat)
    requires |bits| == |after| == BITMAP_SIZE && idx < NUM_PAGES
    requires forall p: nat | p < NUM_PAGES :: BitSet(after, p) <==> p == idx || BitSet(bits, p)
    ensures UsedIn(after) == UsedIn(bits) + {idx}
  {}

  lemma ClearBitFrees(bits: seq<bv8>, after: seq<bv8>, idx: nat)
    requires |bits| == |after| == BITMAP_SIZE && idx < NUM_PAGES
    requires forall p: nat | p < NUM_PAGES :: BitSet(after, p) <==> p != idx && BitSet(bits, p)
    ensures UsedIn(after) == UsedIn(bits) - {idx}
  {}

  class PageBitmap {
    const bits: array<bv8>

    ghost predicate Valid() { bits.Length == BITMAP_SIZE }

    ghost function Used(): set<nat>
      requires Valid()
      reads bits
    {
      UsedIn(bits[..])
    }

    constructor ()
      ensures Valid() && fresh(bits)
    {
      bits := new bv8[BITMAP_SIZE];
    }

    method SetPagePresent(idx: nat)
      requires Valid() && idx < NUM_PAGES
      modifies bits
      ensures Used() == old(Used()) + {idx}
    {
      ghost var before := bits[..];
      bits[idx / 8] := bits[idx / 8] | Mask(idx % 8);
      forall p: nat | p < NUM_PAGES { BitAfterSet(before, idx, p); }
      SetBitUses(before, bits[..], idx);
    }

    method ClearPagePresent(idx: nat)
      requires Valid() && idx < NUM_PAGES
      modifies bits
      ensures Used() == old(Used()) - {idx}
    {
      ghost var before := bits[..];
      bits[idx / 8] := bits[idx / 8] & !Mask(idx % 8);
      forall p: nat | p < NUM_PAGES { BitAfterClear(before, idx, p); }
      ClearBitFrees(before, bits[..], idx);
    }

    predicate IsPagePresent(idx: nat)
      requires Valid() && idx < NUM_PAGES
      reads bits
      ensures IsPagePresent(idx) <==> idx in Used()
    {
      bits[idx / 8] & Mask(idx % 8) != 0
    }

    // The first 4 MB are taken, everything else is free.
    method InitPageBitmap()
      requires Valid()
      modifies bits
      ensures Used() == Range(0, RESERVED_PAGES)
    {
      for i := 0 to BITMAP_SIZE
        invariant forall j | 0 <= j < i :: bits[j] == 0
      {
        bits[i] := 0;
      }
      assert Used() == Range(0, 0);
      for i := 0 to RESERVED_PAGES
        invariant Used() == Range(0, i)
      {
        SetPagePresent(i);
      }
    }

    method AllocPage() returns (r: Addr)
      requires Valid()
      modifies bits
      ensures match FirstFit(old(Used()), 1)
              case Some(p) => r == p * PAGE_SIZE && Used() == old(Used()) + Range(p, 1)
              case None => r == 0 && Used() == old(Used())
    {
      for i := 0 to NUM_PAGES
        invariant bits[..] == old(bits[..])
        invariant forall q: nat | q < i :: !FreeRun(Used(), q, 1)
      {
        if !IsPagePresent(i) {
          assert Range(i, 1) == {i};
          FirstFromIs(Used(), 1, 0, i);
          SetPagePresent(i);
          return i * PAGE_SIZE;
        }
        assert i in Range(i, 1);
      }
      return 0;
    }

    method FreePage(physAddr: Addr)
      requires Valid()
      modifies bits
      ensures Used() == old(Used()) - {physAddr / PAGE_SIZE}
    {
      ClearPagePresent(physAddr / PAGE_SIZE);
    }

    // Sets the bits of exactly the lowest free run, or changes nothing. The address 0 stands both
    // for failure and for a run that starts at page 0.
    method AllocNPages(n: Addr) returns (r: Addr)
      requires Valid()
      modifies bits
      ensures match FirstFit(old(Used()), n)
              case Some(p) => r == p * PAGE_SIZE && Used() == old(Used()) + Range(p, n)
              case None => r == 0 && Used() == old(Used())
    {
      if n == 0 || n > NUM_PAGES {
        return 0;
      }
      var start, count := 0, 0;
      for i := 0 to NUM_PAGES
        invariant bits[..] == old(bits[..])
        invariant Scanned(Used(), i, start, count, n)
      {
        if !IsPagePresent(i) {
          if count == 0 {
            start := i;
          }
          ScanFree(Used(), i, start, count, n);
          count := count + 1;
          if count == n {
            MarkRun(start, n);
            return start * PAGE_SIZE;
          }
        } else {
          ScanUsed(Used(), i, start, count, n);
          count := 0;
        }
      }
      return 0;
    }

    // The inner loop of alloc_n_pages.
    method MarkRun(start: nat, n: nat)
      requires Valid() && start + n <= NUM_PAGES
      modifies bits
      ensures Used() == old(Used()) + Range(start, n)
    {
      for j := 0 to n
        invariant Used() == old(Used()) + Range(start, j)
      {
        SetPagePresent(start + j);
      }
    }

    method FreeNPages(physAddr: Addr, n: nat)
      requires Valid() && physAddr / PAGE_SIZE + n <= NUM_PAGES
      modifies bits
      ensures Used() == old(Used()) - Range(physAddr / PAGE_SIZE, n)
    {
      var startIdx := physAddr / PAGE_SIZE;
      for i := 0 to n
        invariant Used() == old(Used()) - Range(startIdx, i)
      {
        ClearPagePresent(startIdx + i);
      }
    }
  }

  // Pages below i have been scanned without success; the current run of free pages has `count`
  // pages, begins at `start` and ends at i.
  ghost predicate Scanned(used: set<nat>, i: nat, start: nat, count: nat, n: nat) {
    && count < n && count <= i
    && (count > 0 ==> start == i - count)
    && Range(i - count, count) !! used
    && (i == count || i - count - 1 in used)
    && (forall q: nat | q + n <= i :: !FreeRun(used, q, n))
  }

  // A free page extends the current run. If that completes n pages it is the lowest such run: a
  // run of n pages ending at i or before that began earlier would contain the used page just
  // before the current run.
  lemma ScanFree(used: set<nat>, i: nat, start: nat, count: nat, n: nat)
    requires i < NUM_PAGES && i !in used && n <= NUM_PAGES
    requires Scanned(used, i, start, count, n) || (count == 0 && Scanned(used, i, 0, 0, n))
    requires start == i - count
    ensures count + 1 < n ==> Scanned(used, i + 1, start, count + 1, n)
    ensures count + 1 == n ==> FirstFrom(used, n, 0) == Some(start)
  {
    forall p | p in Range(start, count + 1) ensures p !in used {
      assert p == i || p in Range(i - count, count);
    }
    if count + 1 == n {
      FirstFromIs(used, n, 0, start);
    } else {
      forall q: nat | q + n == i + 1 ensures !FreeRun(used, q, n) {
        assert i - count - 1 in Range(q, n);
      }
    }
  }

  lemma ScanUsed(used: set<nat>, i: nat, start: nat, count: nat, n: nat)
    requires i in used && Scanned(used, i, start, count, n)
    ensures Scanned(used, i + 1, start, 0, n)
  {
    forall q: nat | q + n == i + 1 ensures !FreeRun(used, q, n) {
      assert i in Range(q, n);
    }
  }
}
