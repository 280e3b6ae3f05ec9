// Runs of the real allocator methods: what a client that keeps its own list of blocks sees.

module KernelRuns {
  import opened Common
  import opened PhysicalPages
  import opened PageAllocator
  import opened PageTables
  import opened KernelHeap
  import P = PageRuns

  // ---------------------------------------------------------------- pages

  // One call of the page allocator does what PageRuns says it does.
  method PerformPageOp(bitmap: PageBitmap, op: P.Op, live: seq<P.Block>) returns (live': seq<P.Block>)
    requires bitmap.Valid() && P.Inv(P.Heap(bitmap.Used(), live))
    modifies bitmap.bits
    ensures P.Heap(bitmap.Used(), live') == P.Next(P.Heap(old(bitmap.Used()), live), op)
  {
    ZeroIsUsed(bitmap.Used(), live);
    live' := live;
    match op
    case AllocOne =>
      ReturnedIsStart(bitmap.Used(), 1);
      var r := bitmap.AllocPage();
      if r != 0 {
        live' := live + [P.Block(r / PAGE_SIZE, 1)];
      }
    case Alloc(n) =>
      if n < 0x1_0000_0000 {
        ReturnedIsStart(bitmap.Used(), n);
        var r := bitmap.AllocNPages(n);
        if r != 0 {
          live' := live + [P.Block(r / PAGE_SIZE, n)];
        }
      }
    case Free(i) =>
      if i < |live| {
        assert live[i] in live;
        bitmap.FreeNPages(live[i].start * PAGE_SIZE, live[i].n);
        live' := live[..i] + live[i + 1..];
      }
  }

  lemma ReturnedIsStart(used: set<nat>, n: nat)
    requires 0 in used
    ensures FirstFit(used, n).Some? ==>
      0 < ReturnedAddress(used, n) && ReturnedAddress(used, n) / PAGE_SIZE == FirstFit(used, n).value
  {
    ZeroMeansNone(used, n);
  }

  // Any number of calls, from the initialised bitmap.
  method PerformPageOps(bitmap: PageBitmap, ops: seq<P.Op>) returns (live: seq<P.Block>)
    requires bitmap.Valid()
    modifies bitmap.bits
    ensures P.Heap(bitmap.Used(), live) == P.Run(P.Initial, ops)
  {
    bitmap.InitPageBitmap();
    live := [];
    assert P.AllPages([]) == {};
    assert ops[0..] == ops;
    for i := 0 to |ops|
      invariant P.Inv(P.Heap(bitmap.Used(), live))
      invariant P.Run(P.Heap(bitmap.Used(), live), ops[i..]) == P.Run(P.Initial, ops)
    {
      P.NextKeepsInv(P.Heap(bitmap.Used(), live), ops[i]);
      assert ops[i..][1..] == ops[i + 1..];
      live := PerformPageOp(bitmap, ops[i], live);
    }
    assert ops[|ops|..] == [];
  }

  // ---------------------------------------------------------------- kmalloc and kfree

  datatype Live = Live(ptr: Addr, block: P.Block)

  datatype HeapOp =
    | Kmalloc(size: Addr)
    | Kfree(i: nat)                   // of the i-th live pointer
    | Store(at: Addr, word: Addr)     // the client writes a word of its own

  function Blocks(live: seq<Live>): (blocks: seq<P.Block>)
    ensures |blocks| == |live| && forall i | 0 <= i < |live| :: blocks[i] == live[i].block
  {
    seq(|live|, i requires 0 <= i < |live| => live[i].block)
  }

  // What the calls are for the page allocator.
  function PageOps(ops: seq<HeapOp>): seq<P.Op>
    decreases |ops|
  {
    if ops == [] then []
    else (match ops[0]
          case Kmalloc(size) => [P.Alloc(PagesNeeded(size))]
          case Kfree(i) => [P.Free(i)]
          case Store(_, _) => []) + PageOps(ops[1..])
  }

  ghost predicate EveryFrameMapped(s: Space)
    requires WellFormed(s)
  {
    forall p: nat | p < NUM_PAGES :: Mapped(s, p * PAGE_SIZE)
  }

  // The header word in front of a live pointer: it stands for the block's first frame, and holds
  // the number of its pages.
  ghost predicate HeaderOk(s: Space, memory: map<Addr, Addr>, l: Live)
    requires WellFormed(s)
  {
    && HEADER_SIZE <= l.ptr && l.block.start < NUM_PAGES
    && IsPhysToVirt(s, l.block.start * PAGE_SIZE, l.ptr - HEADER_SIZE)
    && l.ptr - HEADER_SIZE in memory && memory[l.ptr - HEADER_SIZE] == l.block.n
  }

  ghost predicate HeadersOk(s: Space, memory: map<Addr, Addr>, live: seq<Live>)
    requires WellFormed(s)
  {
    forall i | 0 <= i < |live| :: HeaderOk(s, memory, live[i])
  }

  ghost predicate IsHeader(live: seq<Live>, v: int) {
    exists i | 0 <= i < |live| :: live[i].ptr - HEADER_SIZE == v
  }

  // Live pointers of different blocks have different headers, none of which the client writes.
  lemma OtherHeadersKept(s: Space, memory: map<Addr, Addr>, live: seq<Live>, v: Addr, word: Addr)
    requires WellFormed(s) && HeadersOk(s, memory, live) && !IsHeader(live, v)
    ensures HeadersOk(s, memory[v := word], live)
  {
    forall i | 0 <= i < |live| ensures HeaderOk(s, memory[v := word], live[i]) {
      assert HeaderOk(s, memory, live[i]);
    }
  }

  // Headers of different frames are different words.
  lemma HeadersDiffer(s: Space, p: nat, q: nat, v: Addr, w: Addr)
    requires WellFormed(s) && EveryFrameMapped(s) && p < NUM_PAGES && q < NUM_PAGES && p != q
    requires IsPhysToVirt(s, p * PAGE_SIZE, v) && IsPhysToVirt(s, q * PAGE_SIZE, w)
    ensures v != w
  {
    ForwardUndoesReverse(s, p * PAGE_SIZE, v);
    ForwardUndoesReverse(s, q * PAGE_SIZE, w);
  }

  lemma StartIsUsed(used: set<nat>, live: seq<P.Block>, i: nat)
    requires P.Inv(P.Heap(used, live)) && i < |live|
    ensures live[i].start in used && live[i].n > 0 && live[i].start + live[i].n <= NUM_PAGES
  {
    assert live[i] in live;
    P.AllPagesIs(live, live[i].start);
    assert Between(live[i].start, live[i].start, live[i].n);
  }

  // The heap as its client knows it.
  ghost predicate HeapInv(s: Space, used: set<nat>, memory: map<Addr, Addr>, live: seq<Live>) {
    && WellFormed(s) && EveryFrameMapped(s)
    && P.Inv(P.Heap(used, Blocks(live)))
    && HeadersOk(s, memory, live)
  }

  lemma NewHeaderIsNew(s: Space, used: set<nat>, memory: map<Addr, Addr>, live: seq<Live>, p: nat, v: Addr)
    requires HeapInv(s, used, memory, live) && p !in used && p < NUM_PAGES
    requires IsPhysToVirt(s, p * PAGE_SIZE, v)
    ensures !IsHeader(live, v)
  {
    forall i | 0 <= i < |live| ensures live[i].ptr - HEADER_SIZE != v {
      StartIsUsed(used, Blocks(live), i);
      OtherHeader(s, memory, live[i], p, v);
    }
  }

  lemma OtherHeader(s: Space, memory: map<Addr, Addr>, l: Live, p: nat, v: Addr)
    requires WellFormed(s) && EveryFrameMapped(s) && HeaderOk(s, memory, l)
    requires p < NUM_PAGES && p != l.block.start && IsPhysToVirt(s, p * PAGE_SIZE, v)
    ensures l.ptr - HEADER_SIZE != v
  {
    HeadersDiffer(s, p, l.block.start, v, l.ptr - HEADER_SIZE);
  }

  lemma KmallocKeeps(s: Space, used: set<nat>, memory: map<Addr, Addr>, live: seq<Live>, p: nat, n: nat, v: Addr)
    requires HeapInv(s, used, memory, live) && FirstFit(used, n) == Some(p) && n < 0x1_0000_0000
    requires IsPhysToVirt(s, p * PAGE_SIZE, v) && v + HEADER_SIZE < 0x1_0000_0000
    ensures var live' := live + [Live(v + HEADER_SIZE, P.Block(p, n))];
      && P.Heap(used + Range(p, n), Blocks(live')) == P.Next(P.Heap(used, Blocks(live)), P.Alloc(n))
      && HeapInv(s, used + Range(p, n), memory[v := n], live')
  {
    var l := Live(v + HEADER_SIZE, P.Block(p, n));
    P.NextKeepsInv(P.Heap(used, Blocks(live)), P.Alloc(n));
    assert Between(p, p, n) && p in Range(p, n);
    NewHeaderIsNew(s, used, memory, live, p, v);
    OtherHeadersKept(s, memory, live, v, n);
    assert HeaderOk(s, memory[v := n], l);
    assert Blocks(live + [l]) == Blocks(live) + [l.block];
  }

  lemma KfreeKeeps(s: Space, used: set<nat>, memory: map<Addr, Addr>, live: seq<Live>, i: nat)
    requires HeapInv(s, used, memory, live) && i < |live|
    ensures var b := live[i].block;
      && HEADER_SIZE <= live[i].ptr && live[i].ptr - HEADER_SIZE in memory
      && memory[live[i].ptr - HEADER_SIZE] == b.n && b.start + b.n <= NUM_PAGES
      && VirtToPhys(s, live[i].ptr - HEADER_SIZE) / PAGE_SIZE == b.start
      && P.Heap(used - Range(b.start, b.n), Blocks(live[..i] + live[i + 1..]))
         == P.Next(P.Heap(used, Blocks(live)), P.Free(i))
      && HeapInv(s, used - Range(b.start, b.n), memory, live[..i] + live[i + 1..])
  {
    var live' := live[..i] + live[i + 1..];
    P.NextKeepsInv(P.Heap(used, Blocks(live)), P.Free(i));
    StartIsUsed(used, Blocks(live), i);
    HeaderLeadsBack(s, memory, live, i);
    assert Blocks(live') == Blocks(live)[..i] + Blocks(live)[i + 1..];
    RemainingHeadersOk(s, memory, live, i);
  }

  lemma HeaderLeadsBack(s: Space, memory: map<Addr, Addr>, live: seq<Live>, i: nat)
    requires WellFormed(s) && EveryFrameMapped(s) && HeadersOk(s, memory, live) && i < |live|
    ensures HEADER_SIZE <= live[i].ptr && live[i].ptr - HEADER_SIZE in memory
    ensures memory[live[i].ptr - HEADER_SIZE] == live[i].block.n
    ensures VirtToPhys(s, live[i].ptr - HEADER_SIZE) / PAGE_SIZE == live[i].block.start
  {
    assert HeaderOk(s, memory, live[i]);
    ForwardUndoesReverse(s, live[i].block.start * PAGE_SIZE, live[i].ptr - HEADER_SIZE);
  }

  lemma RemainingHeadersOk(s: Space, memory: map<Addr, Addr>, live: seq<Live>, i: nat)
    requires WellFormed(s) && HeadersOk(s, memory, live) && i < |live|
    ensures HeadersOk(s, memory, live[..i] + live[i + 1..])
  {
    var live' := live[..i] + live[i + 1..];
    forall j | 0 <= j < |live'| ensures HeaderOk(s, memory, live'[j]) {
      assert live'[j] == live[if j < i then j else j + 1];
    }
  }

  // kmalloc is alloc_n_pages of the rounded size, and leaves every live header as it is.
  method PerformKmalloc(k: Kernel, size: Addr, ghost live: seq<Live>) returns (ptr: Addr, ghost live': seq<Live>)
    requires k.Valid() && HeapInv(k.space.View(), k.bitmap.Used(), k.memory, live)
    modifies k`memory, k.bitmap.bits
    ensures k.Valid() && HeapInv(k.space.View(), k.bitmap.Used(), k.memory, live')
    ensures k.space.View() == old(k.space.View())
    ensures P.Heap(k.bitmap.Used(), Blocks(live'))
            == P.Next(P.Heap(old(k.bitmap.Used()), Blocks(live)), P.Alloc(PagesNeeded(size)))
    ensures if ptr == 0 then live' == live
            else |live'| == |live| + 1 && live'[..|live|] == live && live'[|live|].ptr == ptr
  {
    ghost var used, memory := k.bitmap.Used(), k.memory;
    ptr := k.Kmalloc(size);
    live' := AfterKmalloc(k.space.View(), used, k.bitmap.Used(), memory, k.memory, live, size, ptr);
  }

  lemma AfterKmalloc(s: Space, used: set<nat>, used': set<nat>, memory: map<Addr, Addr>, memory': map<Addr, Addr>,
                     live: seq<Live>, size: Addr, ptr: Addr) returns (live': seq<Live>)
    requires HeapInv(s, used, memory, live)
    requires match Request(used, size)
      case None => ptr == 0 && used' == used && memory' == memory
      case Some(p) =>
        && used' == used + Range(p, PagesNeeded(size))
        && (p != 0 ==>
              && ptr >= HEADER_SIZE && IsPhysToVirt(s, p * PAGE_SIZE, ptr - HEADER_SIZE)
              && memory' == memory[ptr - HEADER_SIZE := PagesNeeded(size)])
    ensures HeapInv(s, used', memory', live')
    ensures P.Heap(used', Blocks(live')) == P.Next(P.Heap(used, Blocks(live)), P.Alloc(PagesNeeded(size)))
    ensures if ptr == 0 then live' == live
            else |live'| == |live| + 1 && live'[..|live|] == live && live'[|live|].ptr == ptr
  {
    live' := live;
    ZeroIsUsed(used, Blocks(live));
    ReturnedIsStart(used, PagesNeeded(size));
    if ptr != 0 {
      var p := Request(used, size).value;
      KmallocKeeps(s, used, memory, live, p, PagesNeeded(size), ptr - HEADER_SIZE);
      live' := live + [Live(ptr, P.Block(p, PagesNeeded(size)))];
    }
  }

  lemma ZeroIsUsed(used: set<nat>, live: seq<P.Block>)
    requires P.Inv(P.Heap(used, live))
    ensures 0 in used
  {
    assert Between(0, 0, RESERVED_PAGES);
  }

  // kfree of a live pointer frees exactly its pages.
  method PerformKfree(k: Kernel, i: nat, ghost live: seq<Live>, ptr: Addr) returns (ghost live': seq<Live>)
    requires k.Valid() && HeapInv(k.space.View(), k.bitmap.Used(), k.memory, live) && i < |live| && ptr == live[i].ptr
    modifies k.bitmap.bits
    ensures k.Valid() && HeapInv(k.space.View(), k.bitmap.Used(), k.memory, live') && live' == live[..i] + live[i + 1..]
    ensures k.space.View() == old(k.space.View())
    ensures P.Heap(k.bitmap.Used(), Blocks(live')) == P.Next(P.Heap(old(k.bitmap.Used()), Blocks(live)), P.Free(i))
  {
    KfreeKeeps(k.space.View(), k.bitmap.Used(), k.memory, live, i);
    live' := live[..i] + live[i + 1..];
    k.Kfree(ptr);
  }

  // Any number of calls and of the client's own writes, with every frame mapped: for the page
  // allocator they are the corresponding page operations, and every live pointer keeps its header.
  method PerformHeapOps(k: Kernel, ops: seq<HeapOp>) returns (ptrs: seq<Addr>, ghost live: seq<Live>)
    requires k.Valid() && EveryFrameMapped(k.space.View())
    modifies k`memory, k.bitmap.bits
    ensures k.Valid() && HeapInv(k.space.View(), k.bitmap.Used(), k.memory, live) && Pointers(live, ptrs)
    ensures P.Heap(k.bitmap.Used(), Blocks(live)) == P.Run(P.Initial, PageOps(ops))
    ensures ptrs == [] ==> k.bitmap.Used() == Range(0, RESERVED_PAGES)
  {
    k.bitmap.InitPageBitmap();
    ptrs, live := [], [];
    assert P.AllPages([]) == {} && Blocks(live) == [];
    assert ops[0..] == ops;
    for n := 0 to |ops|
      invariant k.Valid() && HeapInv(k.space.View(), k.bitmap.Used(), k.memory, live) && Pointers(live, ptrs)
      invariant P.Run(P.Heap(k.bitmap.Used(), Blocks(live)), PageOps(ops[n..])) == P.Run(P.Initial, PageOps(ops))
    {
      RunCons(P.Heap(k.bitmap.Used(), Blocks(live)), ops, n);
      ptrs, live := PerformHeapOp(k, ops[n], ptrs, live);
    }
    assert ops[|ops|..] == [];
    if ptrs == [] {
      assert Blocks(live) == [] && P.AllPages([]) == {};
    }
  }

  predicate Pointers(live: seq<Live>, ptrs: seq<Addr>) {
    |ptrs| == |live| && forall i | 0 <= i < |live| :: live[i].ptr == ptrs[i]
  }

  ghost function Effect(h: P.Heap, op: HeapOp): P.Heap {
    match op
    case Kmalloc(size) => P.Next(h, P.Alloc(PagesNeeded(size)))
    case Kfree(i) => P.Next(h, P.Free(i))
    case Store(_, _) => h
  }

  method PerformHeapOp(k: Kernel, op: HeapOp, ptrs: seq<Addr>, ghost live: seq<Live>)
    returns (ptrs': seq<Addr>, ghost live': seq<Live>)
    requires k.Valid() && HeapInv(k.space.View(), k.bitmap.Used(), k.memory, live) && Pointers(live, ptrs)
    modifies k`memory, k.bitmap.bits
    ensures k.Valid() && HeapInv(k.space.View(), k.bitmap.Used(), k.memory, live') && Pointers(live', ptrs')
    ensures k.space.View() == old(k.space.View())
    ensures P.Heap(k.bitmap.Used(), Blocks(live')) == Effect(P.Heap(old(k.bitmap.Used()), Blocks(live)), op)
  {
    ptrs', live' := ptrs, live;
    match op
    case Kmalloc(size) =>
      var ptr;
      ptr, live' := PerformKmalloc(k, size, live);
      ptrs' := if ptr != 0 then ptrs + [ptr] else ptrs;
      PointersAppend(live, live', ptrs, ptr);
    case Kfree(i) =>
      if i < |ptrs| {
        live' := PerformKfree(k, i, live, ptrs[i]);
        ptrs' := ptrs[..i] + ptrs[i + 1..];
      }
    case Store(at, word) => PerformStore(k, at, word, ptrs, live);
  }

  lemma PointersAppend(live: seq<Live>, live': seq<Live>, ptrs: seq<Addr>, ptr: Addr)
    requires Pointers(live, ptrs)
    requires if ptr == 0 then live' == live
             else |live'| == |live| + 1 && live'[..|live|] == live && live'[|live|].ptr == ptr
    ensures Pointers(live', if ptr != 0 then ptrs + [ptr] else ptrs)
  {
    if ptr != 0 {
      assert forall i | 0 <= i < |live| :: live'[i] == live'[..|live|][i];
    }
  }

  // The client keeps away from the headers.
  method PerformStore(k: Kernel, at: Addr, word: Addr, ptrs: seq<Addr>, ghost live: seq<Live>)
    requires k.Valid() && HeapInv(k.space.View(), k.bitmap.Used(), k.memory, live) && Pointers(live, ptrs)
    modifies k`memory
    ensures HeapInv(k.space.View(), k.bitmap.Used(), k.memory, live)
    ensures k.memory == if IsHeader(live, at) then old(k.memory) else old(k.memory)[at := word]
  {
    if forall i | 0 <= i < |ptrs| :: ptrs[i] - HEADER_SIZE != at {
      OtherHeadersKept(k.space.View(), k.memory, live, at, word);
      k.memory := k.memory[at := word];
    }
  }

  lemma {:induction false} RunCons(h: P.Heap, ops: seq<HeapOp>, n: nat)
    requires n < |ops|
    ensures P.Run(h, PageOps(ops[n..])) == P.Run(Effect(h, ops[n]), PageOps(ops[n + 1..]))
  {
    assert ops[n..][1..] == ops[n + 1..];
    var rest := PageOps(ops[n + 1..]);
    match ops[n]
    case Kmalloc(size) => assert ([P.Alloc(PagesNeeded(size))] + rest)[1..] == rest;
    case Kfree(i) => assert ([P.Free(i)] + rest)[1..] == rest;
    case Store(_, _) => assert [] + rest == rest;
  }
}
