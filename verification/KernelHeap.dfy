// kmalloc and kfree: whole pages, with the page count in a header word in front of the block.

module KernelHeap {
  import opened Common
  import opened PhysicalPages
  import opened PageTables
  import opened PageAllocator

  const HEADER_SIZE: nat := 4

  // Rounds up in 32 bits: within PAGE_SIZE - 1 of 2^32 the sum wraps and the result is 0.
  function PagesNeeded(size: Addr): Addr { (size + PAGE_SIZE - 1) % 0x1_0000_0000 / PAGE_SIZE }

  lemma RoundingUp(size: Addr)
    ensures size + 4095 < 0x1_0000_0000 ==> (PagesNeeded(size) - 1) * 4096 < size <= PagesNeeded(size) * 4096
    ensures size + 4095 >= 0x1_0000_0000 ==> PagesNeeded(size) == 0
  {}

  // The header is not counted: the block holds `size` bytes behind it exactly when rounding left
  // at least four bytes over.
  lemma HeaderFitsIff(size: Addr)
    requires 0 < size && size + PAGE_SIZE - 1 < 0x1_0000_0000
    ensures HEADER_SIZE + size <= PagesNeeded(size) * 4096 <==> 1 <= size % 4096 <= 4092
  {
    RoundingUp(size);
  }

  // The pages taken by kmalloc(size), if any.
  ghost function Request(used: set<nat>, size: Addr): Option<nat> {
    if size == 0 then None else FirstFit(used, PagesNeeded(size))
  }

  class Kernel {
    const bitmap: PageBitmap
    const space: AddressSpace
    var memory: map<Addr, Addr>       // 32-bit words of virtual memory

    ghost predicate Valid()
      reads space.directory, space.firstPageTable
    {
      bitmap.Valid() && space.Valid()
    }

    constructor (bitmap: PageBitmap, space: AddressSpace, memory: map<Addr, Addr>)
      requires bitmap.Valid() && space.Valid()
      ensures Valid() && this.bitmap == bitmap && this.space == space && this.memory == memory
    {
      this.bitmap, this.space, this.memory := bitmap, space, memory;
    }

    // The frame found by first fit is not checked to be mapped: when it is not, the header goes
    // to virtual address 0.
    method Kmalloc(size: Addr) returns (ptr: Addr)
      requires Valid()
      modifies this`memory, bitmap.bits
      ensures Valid()
      ensures match Request(old(bitmap.Used()), size)
        case None => ptr == 0 && bitmap.Used() == old(bitmap.Used()) && memory == old(memory)
        case Some(p) =>
          && bitmap.Used() == old(bitmap.Used()) + Range(p, PagesNeeded(size))
          && (p == 0 ==> ptr == 0 && memory == old(memory))
          && (p != 0 ==>
                && ptr >= HEADER_SIZE && IsPhysToVirt(space.View(), p * PAGE_SIZE, ptr - HEADER_SIZE)
                && memory == old(memory)[ptr - HEADER_SIZE := PagesNeeded(size)])
    {
      if size == 0 {
        return 0;
      }
      var pagesNeeded := PagesNeeded(size);
      var physAddr := bitmap.AllocNPages(pagesNeeded);
      if physAddr == 0 {
        return 0;
      }
      BlockIsAligned(Request(old(bitmap.Used()), size).value, physAddr);
      ptr := WriteHeader(physAddr, pagesNeeded);
    }

    // The size goes in front of the block.
    method WriteHeader(physAddr: Addr, pagesNeeded: Addr) returns (ptr: Addr)
      requires Valid() && physAddr % PAGE_SIZE == 0
      modifies this`memory
      ensures ptr >= HEADER_SIZE && IsPhysToVirt(space.View(), physAddr, ptr - HEADER_SIZE)
      ensures memory == old(memory)[ptr - HEADER_SIZE := pagesNeeded]
    {
      var virtAddr := space.PhysToVirt(physAddr);
      memory := memory[virtAddr := pagesNeeded];
      PageAligned(space.View(), physAddr, virtAddr);
      return virtAddr + HEADER_SIZE;
    }

    // `ptr` came from kmalloc, so its header word exists and its pages are real.
    method Kfree(ptr: Addr)
      requires Valid()
      requires ptr != 0 ==>
        && ptr >= HEADER_SIZE && ptr - HEADER_SIZE in memory
        && VirtToPhys(space.View(), ptr - HEADER_SIZE) / PAGE_SIZE + memory[ptr - HEADER_SIZE] <= NUM_PAGES
      modifies bitmap.bits
      ensures Valid()
      ensures ptr == 0 ==> bitmap.Used() == old(bitmap.Used())
      ensures ptr != 0 ==>
        bitmap.Used() == old(bitmap.Used()) - Range(VirtToPhys(space.View(), ptr - HEADER_SIZE) / PAGE_SIZE,
                                                    memory[ptr - HEADER_SIZE])
    {
      if ptr == 0 {
        return;
      }
      var header := ptr - HEADER_SIZE;
      var physAddr := VirtToPhys(space.View(), header);
      bitmap.FreeNPages(physAddr, memory[header]);
    }

    // A block handed out and given back, with its frame mapped: the bitmap is what it was.
    method KmallocThenKfree(size: Addr)
      requires Valid() && 0 in bitmap.Used()
      requires forall p | Request(bitmap.Used(), size) == Some(p) :: Mapped(space.View(), p * PAGE_SIZE)
      modifies this`memory, bitmap.bits
      ensures bitmap.Used() == old(bitmap.Used())
    {
      ghost var used := bitmap.Used();
      var ptr := Kmalloc(size);
      if Request(used, size).Some? {
        FreedAgain(used, space.View(), size, Request(used, size).value, ptr - HEADER_SIZE);
      }
      Kfree(ptr);
    }
  }

  lemma BlockIsAligned(p: nat, physAddr: nat)
    requires physAddr == p * PAGE_SIZE
    ensures physAddr % PAGE_SIZE == 0
  {}

  lemma PageAligned(s: Space, p: Addr, v: Addr)
    requires WellFormed(s) && IsPhysToVirt(s, p, v) && p % PAGE_SIZE == 0
    ensures v % PAGE_SIZE == 0 && v + HEADER_SIZE < 0x1_0000_0000
  {}

  // kfree gives back exactly what kmalloc took if and only if the first frame of the block is
  // mapped. When it is not, the header at virtual address 0 stands for some other frame (or for
  // none, read as frame 0), and other pages are freed instead.
  lemma UndoneIffMapped(used: set<nat>, s: Space, size: Addr, p: nat, header: Addr)
    requires WellFormed(s) && 0 in used && Request(used, size) == Some(p)
    requires p * PAGE_SIZE < 0x1_0000_0000 && IsPhysToVirt(s, p * PAGE_SIZE, header)
    ensures p != 0 && p !in used
    ensures var n := PagesNeeded(size);
      var after := used + Range(p, n) - Range(VirtToPhys(s, header) / PAGE_SIZE, n);
      && (after == used <==> Mapped(s, p * PAGE_SIZE))
      && (Mapped(s, p * PAGE_SIZE) ==> VirtToPhys(s, header) / PAGE_SIZE == p)
  {
    var n := PagesNeeded(size);
    var g := VirtToPhys(s, header) / PAGE_SIZE;
    assert p in Range(p, n);
    assert p == 0 ==> 0 in Range(p, n);
    if Mapped(s, p * PAGE_SIZE) {
      ForwardUndoesReverse(s, p * PAGE_SIZE, header);
      assert g == p;
      assert used + Range(p, n) - Range(p, n) == used;
    } else {
      assert header == 0;
      FrameZeroIsNot(s, p);
      var q := if p in Range(g, n) then p + n - 1 else p;
      assert q in Range(p, n) && q !in Range(g, n);
    }
  }

  lemma FreedAgain(used: set<nat>, s: Space, size: Addr, p: nat, header: Addr)
    requires WellFormed(s) && 0 in used && Request(used, size) == Some(p) && Mapped(s, p * PAGE_SIZE)
    requires p != 0 ==> IsPhysToVirt(s, p * PAGE_SIZE, header)
    ensures p != 0 && VirtToPhys(s, header) / PAGE_SIZE == p && p + PagesNeeded(size) <= NUM_PAGES
    ensures used + Range(p, PagesNeeded(size)) - Range(p, PagesNeeded(size)) == used
  {
    assert p in Range(p, PagesNeeded(size));
    UndoneIffMapped(used, s, size, p, header);
  }

  lemma FrameZeroIsNot(s: Space, p: nat)
    requires WellFormed(s) && 0 < p && p * PAGE_SIZE < 0x1_0000_0000 && !Mapped(s, p * PAGE_SIZE)
    ensures VirtToPhys(s, 0) / PAGE_SIZE != p
  {
    if FrameOf(s, 0).Some? {
      var frame := FrameOf(s, 0).value;
      assert Maps(s, 0, frame);
      assert VirtToPhys(s, 0) == frame && frame % PAGE_SIZE == 0;
    }
  }

  // After init_page_bitmap and init_paging, with nothing else mapped, the frame of every block is
  // unmapped: kmalloc then returns virtual address 4, and the matching kfree clears the bits of
  // the first pages, which init_page_bitmap reserved.
  lemma WithOnlyTheFirstTableNothingIsUndone(used: set<nat>, s: Space, size: Addr, p: nat, header: Addr)
    requires WellFormed(s) && FirstFourMegabytes(s)
    requires forall i | 1 <= i < ENTRIES :: !Present(s.directory[i])
    requires Range(0, RESERVED_PAGES) <= used && Request(used, size) == Some(p)
    requires p * PAGE_SIZE < 0x1_0000_0000 && IsPhysToVirt(s, p * PAGE_SIZE, header)
    ensures !Mapped(s, p * PAGE_SIZE) && header == 0 && VirtToPhys(s, header) == 0
    ensures 0 !in used + Range(p, PagesNeeded(size)) - Range(VirtToPhys(s, header) / PAGE_SIZE, PagesNeeded(size))
  {
    var n := PagesNeeded(size);
    assert p in Range(p, n);
    assert forall q: nat | q < RESERVED_PAGES :: q in Range(0, RESERVED_PAGES);
    forall page: nat | page < VIRTUAL_PAGES ensures !Maps(s, page, p * PAGE_SIZE) {
      if page < ENTRIES {
        IdentityFrames(s, page);
      } else {
        assert !Present(s.directory[page / ENTRIES]);
      }
    }
    IdentityFrames(s, 0);
    assert 0 in Range(0, n);
  }
}
