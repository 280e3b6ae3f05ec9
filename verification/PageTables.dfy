// Two-level page tables: forward and reverse address translation.

module PageTables {
  import opened Common
  import opened PhysicalPages

  const ENTRIES: nat := 1024
  const VIRTUAL_PAGES: nat := ENTRIES * ENTRIES

  // What the processor and the code see: the directory, and the table at each page-aligned
  // address that a present directory entry points to.
  datatype Space = Space(directory: seq<Addr>, tables: map<Addr, seq<Addr>>)

  predicate Present(entry: Addr) { entry % 2 == 1 }
  function Base(entry: Addr): Addr { entry - entry % PAGE_SIZE }

  predicate WellFormed(s: Space) {
    && |s.directory| == ENTRIES
    && forall i | 0 <= i < ENTRIES && Present(s.directory[i]) ::
         Base(s.directory[i]) in s.tables && |s.tables[Base(s.directory[i])]| == ENTRIES
  }

  // The frame that 32-bit paging maps a virtual page to (Intel SDM Volume 3A, section 4.3).
  function FrameOf(s: Space, page: nat): Option<Addr>
    requires WellFormed(s) && page < VIRTUAL_PAGES
  {
    var pde := s.directory[page / ENTRIES];
    if !Present(pde) then None
    else
      var pte := s.tables[Base(pde)][page % ENTRIES];
      if !Present(pte) then None else Some(Base(pte))
  }

  function Translate(s: Space, v: Addr): Option<Addr>
    requires WellFormed(s)
  {
    match FrameOf(s, v / PAGE_SIZE)
    case None => None
    case Some(frame) => Some(frame + v % PAGE_SIZE)
  }

  // virt_to_phys
  function VirtToPhys(s: Space, v: Addr): (p: Addr)
    requires WellFormed(s)
    ensures match Translate(s, v)
            case None => p == 0
            case Some(q) => p == q
  {
    var pdIndex := v / 0x40_0000;
    var ptIndex := v / PAGE_SIZE % ENTRIES;
    var offset := v % PAGE_SIZE;
    var pdEntry := s.directory[pdIndex];
    assert v / PAGE_SIZE / ENTRIES == pdIndex;
    if !Present(pdEntry) then 0
    else
      var ptEntry := s.tables[Base(pdEntry)][ptIndex];
      if !Present(ptEntry) then 0 else Base(ptEntry) + offset
  }

  predicate Maps(s: Space, page: nat, frame: Addr)
    requires WellFormed(s)
  {
    page < VIRTUAL_PAGES && FrameOf(s, page) == Some(frame)
  }

  ghost predicate Mapped(s: Space, frame: Addr)
    requires WellFormed(s)
  {
    exists page: nat :: Maps(s, page, frame)
  }

  ghost predicate LowestMapping(s: Space, page: nat, frame: Addr)
    requires WellFormed(s)
  {
    Maps(s, page, frame) && forall q: nat | q < page :: !Maps(s, q, frame)
  }

  // There is always something to return.
  lemma {:induction false} PhysToVirtExists(s: Space, p: Addr)
    requires WellFormed(s)
    ensures exists v: Addr :: IsPhysToVirt(s, p, v)
    ensures Mapped(s, Base(p)) ==> exists page: nat :: LowestMapping(s, page, Base(p))
  {
    if Mapped(s, Base(p)) {
      var page: nat :| Maps(s, page, Base(p));
      var low := LowestFrom(s, page, Base(p));
      var v: Addr := low * PAGE_SIZE + p % PAGE_SIZE;
      assert v / PAGE_SIZE == low && v % PAGE_SIZE == p % PAGE_SIZE;
      assert IsPhysToVirt(s, p, v);
    } else {
      assert IsPhysToVirt(s, p, 0);
    }
  }

  lemma {:induction false} LowestFrom(s: Space, page: nat, frame: Addr) returns (low: nat)
    requires WellFormed(s) && Maps(s, page, frame)
    ensures LowestMapping(s, low, frame)
    decreases page
  {
    if q: nat :| q < page && Maps(s, q, frame) {
      low := LowestFrom(s, q, frame);
    } else {
      low := page;
    }
  }

  // What phys_to_virt must return: the lowest virtual address of that physical byte.
  ghost predicate IsPhysToVirt(s: Space, p: Addr, v: Addr)
    requires WellFormed(s)
  {
    if Mapped(s, Base(p)) then LowestMapping(s, v / PAGE_SIZE, Base(p)) && v % PAGE_SIZE == p % PAGE_SIZE
    else v == 0
  }

  // ---------------------------------------------------------------- inverse translations

  lemma PhysToVirtIsUnique(s: Space, p: Addr, v: Addr, w: Addr)
    requires WellFormed(s) && IsPhysToVirt(s, p, v) && IsPhysToVirt(s, p, w)
    ensures v == w
  {
    if Mapped(s, Base(p)) {
      assert v / PAGE_SIZE == w / PAGE_SIZE;
    }
  }

  // A found virtual address translates back, and no lower address translates to that byte.
  lemma ForwardUndoesReverse(s: Space, p: Addr, v: Addr)
    requires WellFormed(s) && IsPhysToVirt(s, p, v) && Mapped(s, Base(p))
    ensures Translate(s, v) == Some(p) && VirtToPhys(s, v) == p
    ensures forall w: Addr | w < v :: Translate(s, w) != Some(p)
  {
    forall w: Addr | Translate(s, w) == Some(p) ensures w >= v {
      TranslateGivesFrame(s, w, p);
    }
  }

  lemma TranslateGivesFrame(s: Space, w: Addr, p: Addr)
    requires WellFormed(s) && Translate(s, w) == Some(p)
    ensures Maps(s, w / PAGE_SIZE, Base(p)) && w % PAGE_SIZE == p % PAGE_SIZE
  {
    var frame := FrameOf(s, w / PAGE_SIZE).value;
    assert frame % PAGE_SIZE == 0;
    assert p % PAGE_SIZE == w % PAGE_SIZE;
  }

  // The other way round, a mapped virtual address comes back as its lowest alias, so it comes
  // back as itself exactly when it has no lower one.
  lemma ReverseUndoesForward(s: Space, w: Addr, v: Addr)
    requires WellFormed(s) && Translate(s, w).Some?
    requires IsPhysToVirt(s, VirtToPhys(s, w), v)
    ensures v <= w && v % PAGE_SIZE == w % PAGE_SIZE && Translate(s, v) == Translate(s, w)
    ensures v == w <==> LowestMapping(s, w / PAGE_SIZE, FrameOf(s, w / PAGE_SIZE).value)
  {
    var p := VirtToPhys(s, w);
    TranslateGivesFrame(s, w, p);
    ForwardUndoesReverse(s, p, v);
    assert Base(p) == FrameOf(s, w / PAGE_SIZE).value;
  }

  // Zero is also an answer. It means "not mapped" except for the first byte of virtual page 0 in
  // one direction, and for the first byte of physical page 0 in the other.
  lemma WhenNullMeansUnmapped(s: Space, p: Addr, v: Addr)
    requires WellFormed(s) && IsPhysToVirt(s, p, v)
    ensures v == 0 <==> !Mapped(s, Base(p)) || (p % PAGE_SIZE == 0 && Maps(s, 0, Base(p)))
    ensures VirtToPhys(s, v) == 0 <==> Translate(s, v) == None || Translate(s, v) == Some(0)
  {}

  // ---------------------------------------------------------------- the identity map

  // PAGE_PRESENT | PAGE_RW
  function Entry(address: Addr): Addr
    requires address % PAGE_SIZE == 0
  {
    address + 3
  }

  // The address, and the bits "present" and "writable".
  lemma EntryBits(address: Addr)
    requires address % PAGE_SIZE == 0
    ensures Entry(address) / 4096 == address / 4096 && Entry(address) % 4096 == 1 + 2
    ensures Present(Entry(address)) && Base(Entry(address)) == address
  {
    PresentEntry(address);
  }

  predicate FirstTableIdentity(t: seq<Addr>, upTo: nat) {
    |t| == ENTRIES && upTo <= ENTRIES && forall i | 0 <= i < upTo :: t[i] == Entry(i * PAGE_SIZE)
  }

  predicate FirstFourMegabytes(s: Space)
    requires WellFormed(s)
  {
    && Present(s.directory[0])
    && FirstTableIdentity(s.tables[Base(s.directory[0])], ENTRIES)
  }

  lemma FirstEntrySet(before: Space, after: Space, addr: Addr, table: seq<Addr>)
    requires WellFormed(before) && addr % PAGE_SIZE == 0 && FirstTableIdentity(table, ENTRIES)
    requires after.directory == before.directory[0 := Entry(addr)]
    requires before.tables.Keys <= after.tables.Keys && addr in after.tables && after.tables[addr] == table
    requires forall a | a in before.tables && a != addr :: after.tables[a] == before.tables[a]
    ensures WellFormed(after) && FirstFourMegabytes(after)
    ensures after.directory[1..] == before.directory[1..]
  {
    PresentEntry(addr);
  }

  lemma PresentEntry(addr: Addr)
    requires addr % PAGE_SIZE == 0
    ensures Present(Entry(addr)) && Base(Entry(addr)) == addr
  {
    EntryFields(addr / PAGE_SIZE);
  }

  lemma IdentityFrames(s: Space, page: nat)
    requires WellFormed(s) && FirstFourMegabytes(s) && page < ENTRIES
    ensures FrameOf(s, page) == Some(page * PAGE_SIZE)
  {
    assert page / ENTRIES == 0 && page % ENTRIES == page;
    EntryFields(page);
    assert s.tables[Base(s.directory[0])][page] == Entry(page * PAGE_SIZE);
  }

  lemma EntryFields(page: nat)
    requires page < VIRTUAL_PAGES
    ensures Present(Entry(page * PAGE_SIZE)) && Base(Entry(page * PAGE_SIZE)) == page * PAGE_SIZE
  {
    var entry := page * PAGE_SIZE + 3;
    assert entry == (2048 * page + 1) * 2 + 1;
    assert entry / PAGE_SIZE == page;
  }

  // On the first 4 MB both translations are the identity, whatever else is mapped.
  lemma IdentityOnFirstFourMegabytes(s: Space, a: Addr, v: Addr)
    requires WellFormed(s) && FirstFourMegabytes(s) && a < ENTRIES * PAGE_SIZE
    requires IsPhysToVirt(s, a, v)
    ensures VirtToPhys(s, a) == a && v == a
  {
    IdentityFrames(s, a / PAGE_SIZE);
    assert Maps(s, a / PAGE_SIZE, Base(a));
    forall q: nat | q < a / PAGE_SIZE ensures !Maps(s, q, Base(a)) {
      IdentityFrames(s, q);
    }
  }

  // ---------------------------------------------------------------- the kernel's tables

  class AddressSpace {
    const directory: array<Addr>             // page_directory
    const firstPageTable: array<Addr>
    const firstPageTableAddr: Addr           // where the linker put it
    const otherTables: map<Addr, seq<Addr>>  // tables the kernel never writes

    ghost predicate Valid()
      reads directory, firstPageTable
    {
      && directory.Length == ENTRIES && firstPageTable.Length == ENTRIES
      && directory != firstPageTable
      && firstPageTableAddr % PAGE_SIZE == 0
      && WellFormed(View())
    }

    function Tables(): map<Addr, seq<Addr>>
      reads firstPageTable
    {
      otherTables[firstPageTableAddr := firstPageTable[..]]
    }

    function View(): Space
      reads directory, firstPageTable
    {
      Space(directory[..], Tables())
    }

    constructor (addr: Addr, tables: map<Addr, seq<Addr>>)
      requires addr % PAGE_SIZE == 0
      ensures Valid() && fresh(directory) && fresh(firstPageTable)
      ensures firstPageTableAddr == addr && otherTables == tables
      ensures forall i | 0 <= i < ENTRIES :: directory[i] == 0
    {
      directory := new Addr[ENTRIES](_ => 0);
      firstPageTable := new Addr[ENTRIES](_ => 0);
      firstPageTableAddr := addr;
      otherTables := tables;
    }

    method InitPaging()
      requires Valid()
      modifies directory, firstPageTable
      ensures Valid() && FirstFourMegabytes(View())
      ensures directory[1..] == old(directory[1..])
    {
      ghost var before := View();
      FillFirstTable();
      directory[0] := Entry(firstPageTableAddr);
      FirstEntrySet(before, View(), firstPageTableAddr, firstPageTable[..]);
    }

    method FillFirstTable()
      requires Valid()
      modifies firstPageTable
      ensures FirstTableIdentity(firstPageTable[..], ENTRIES)
    {
      for i := 0 to ENTRIES
        invariant FirstTableIdentity(firstPageTable[..], i)
      {
        firstPageTable[i] := Entry(i * PAGE_SIZE);
      }
    }

    // Scans directory entries and table entries in order; the first hit is the lowest.
    method PhysToVirt(physAddr: Addr) returns (v: Addr)
      requires Valid()
      ensures IsPhysToVirt(View(), physAddr, v)
    {
      var offset := physAddr % PAGE_SIZE;
      var physPage := Base(physAddr);
      ghost var s := View();
      for pdIndex := 0 to ENTRIES
        invariant forall q: nat | q < pdIndex * ENTRIES :: !Maps(s, q, physPage)
      {
        var pdEntry := directory[pdIndex];
        assert pdEntry == s.directory[pdIndex];
        if !Present(pdEntry) {
          SkipDirectoryEntry(s, pdIndex, physPage);
          continue;
        }
        var pt := Tables()[Base(pdEntry)];
        for ptIndex := 0 to ENTRIES
          invariant forall q: nat | q < pdIndex * ENTRIES + ptIndex :: !Maps(s, q, physPage)
        {
          var ptEntry := pt[ptIndex];
          IndexOfPage(pdIndex, ptIndex);
          if !Present(ptEntry) {
            continue;
          }
          if Base(ptEntry) == physPage {
            var page := pdIndex * ENTRIES + ptIndex;
            assert LowestMapping(s, page, physPage);
            v := page * PAGE_SIZE + offset;
            assert v / PAGE_SIZE == page;
            return;
          }
        }
      }
      return 0;
    }
  }

  lemma IndexOfPage(pdIndex: nat, ptIndex: nat)
    requires ptIndex < ENTRIES
    ensures (pdIndex * ENTRIES + ptIndex) / ENTRIES == pdIndex
    ensures (pdIndex * ENTRIES + ptIndex) % ENTRIES == ptIndex
  {}

  lemma SkipDirectoryEntry(s: Space, pdIndex: nat, frame: Addr)
    requires WellFormed(s) && pdIndex < ENTRIES && !Present(s.directory[pdIndex])
    ensures forall q: nat | pdIndex * ENTRIES <= q < (pdIndex + 1) * ENTRIES :: !Maps(s, q, frame)
  {
    forall q: nat | pdIndex * ENTRIES <= q < (pdIndex + 1) * ENTRIES ensures q / ENTRIES == pdIndex {
      IndexOfPage(pdIndex, q - pdIndex * ENTRIES);
    }
  }
}
