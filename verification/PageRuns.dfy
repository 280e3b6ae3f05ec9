// Whole runs of the page allocator: any number of allocations, and of frees of live blocks, from
// the freshly initialised bitmap.

module PageRuns {
  import opened Common
  import opened PhysicalPages

  datatype Block = Block(start: nat, n: nat)

  datatype Op =
    | AllocOne                // alloc_page
    | Alloc(n: nat)           // alloc_n_pages
    | Free(i: nat)            // free_n_pages (free_page) of the i-th live block

  datatype Heap = Heap(used: set<nat>, live: seq<Block>)

  ghost function Pages(b: Block): set<nat> { Range(b.start, b.n) }

  ghost function Take(h: Heap, n: nat): Heap {
    match FirstFit(h.used, n)
    case None => h
    case Some(p) => Heap(h.used + Range(p, n), h.live + [Block(p, n)])
  }

  // What the allocator methods do to the bitmap, with the caller's list of live blocks.
  ghost function Next(h: Heap, op: Op): Heap {
    match op
    case AllocOne => Take(h, 1)
    case Alloc(n) => Take(h, n)
    case Free(i) =>
      if i >= |h.live| then h
      else Heap(h.used - Pages(h.live[i]), h.live[..i] + h.live[i + 1..])
  }

  ghost function Run(h: Heap, ops: seq<Op>): Heap
    decreases |ops|
  {
    if ops == [] then h else Run(Next(h, ops[0]), ops[1..])
  }

  ghost const Initial: Heap := Heap(Reserved(), [])

  ghost function Reserved(): set<nat> { Range(0, RESERVED_PAGES) }

  ghost function AllPages(live: seq<Block>): set<nat>
    decreases |live|
  {
    if live == [] then {} else Pages(live[0]) + AllPages(live[1..])
  }

  function PageCount(live: seq<Block>): nat
    decreases |live|
  {
    if live == [] then 0 else live[0].n + PageCount(live[1..])
  }

  ghost predicate Disjoint(live: seq<Block>) {
    forall i, j | 0 <= i < j < |live| :: Pages(live[i]) !! Pages(live[j])
  }

  ghost predicate Inv(h: Heap) {
    && h.used == Reserved() + AllPages(h.live)
    && Disjoint(h.live)
    && (forall b <- h.live :: b.n > 0 && b.start >= RESERVED_PAGES && b.start + b.n <= NUM_PAGES)
  }

  // ---------------------------------------------------------------- unions of blocks

  lemma {:induction false} AllPagesIs(live: seq<Block>, p: nat)
    ensures p in AllPages(live) <==> exists i | 0 <= i < |live| :: p in Pages(live[i])
    decreases |live|
  {
    if live != [] {
      AllPagesIs(live[1..], p);
      if exists i | 0 <= i < |live| :: p in Pages(live[i]) {
        var i :| 0 <= i < |live| && p in Pages(live[i]);
        assert i > 0 ==> live[1..][i - 1] == live[i];
      }
      if p in AllPages(live[1..]) {
        var i :| 0 <= i < |live[1..]| && p in Pages(live[1..][i]);
        assert live[i + 1] == live[1..][i];
      }
    }
  }

  lemma AppendBlock(live: seq<Block>, b: Block)
    ensures AllPages(live + [b]) == AllPages(live) + Pages(b)
  {
    forall p ensures p in AllPages(live + [b]) <==> p in AllPages(live) + Pages(b) {
      AllPagesIs(live, p);
      AllPagesIs(live + [b], p);
      assert p in Pages(b) ==> (live + [b])[|live|] == b;
      assert forall i | 0 <= i < |live| :: (live + [b])[i] == live[i];
    }
  }

  lemma RemoveBlock(live: seq<Block>, i: nat)
    requires i < |live| && Disjoint(live)
    ensures AllPages(live[..i] + live[i + 1..]) == AllPages(live) - Pages(live[i])
    ensures Disjoint(live[..i] + live[i + 1..])
  {
    var rest := live[..i] + live[i + 1..];
    assert forall j | 0 <= j < |rest| :: rest[j] == live[if j < i then j else j + 1];
    forall p ensures p in AllPages(rest) <==> p in AllPages(live) - Pages(live[i]) {
      AllPagesIs(live, p);
      AllPagesIs(rest, p);
      assert forall j | 0 <= j < |live| && j != i :: rest[if j < i then j else j - 1] == live[j];
    }
  }

  // ---------------------------------------------------------------- every run

  lemma TakeKeepsInv(h: Heap, n: nat)
    requires Inv(h)
    ensures Inv(Take(h, n))
  {
    if FirstFit(h.used, n).Some? {
      var p := FirstFit(h.used, n).value;
      var b := Block(p, n);
      AppendBlock(h.live, b);
      assert p in Range(p, n);
      forall i | 0 <= i < |h.live| ensures Pages(h.live[i]) !! Pages(b) {
        forall q | q in Pages(h.live[i]) ensures q in h.used {
          AllPagesIs(h.live, q);
        }
      }
    }
  }

  lemma FreeKeepsInv(h: Heap, i: nat)
    requires Inv(h) && i < |h.live|
    ensures Inv(Next(h, Free(i)))
  {
    RemoveBlock(h.live, i);
    assert h.live[i] in h.live;
    assert Reserved() !! Pages(h.live[i]);
  }

  lemma NextKeepsInv(h: Heap, op: Op)
    requires Inv(h)
    ensures Inv(Next(h, op))
  {
    match op
    case AllocOne => TakeKeepsInv(h, 1);
    case Alloc(n) => TakeKeepsInv(h, n);
    case Free(i) => if i < |h.live| { FreeKeepsInv(h, i); }
  }

  lemma {:induction false} RunKeepsInv(h: Heap, ops: seq<Op>)
    requires Inv(h)
    ensures Inv(Run(h, ops))
    decreases |ops|
  {
    if ops != [] {
      NextKeepsInv(h, ops[0]);
      RunKeepsInv(Next(h, ops[0]), ops[1..]);
    }
  }

  lemma {:induction false} CountPages(live: seq<Block>)
    requires Disjoint(live)
    ensures |AllPages(live)| == PageCount(live)
    decreases |live|
  {
    if live != [] {
      var rest := live[1..];
      forall i, j | 0 <= i < j < |rest| ensures Pages(rest[i]) !! Pages(rest[j]) {
        assert rest[i] == live[i + 1] && rest[j] == live[j + 1];
      }
      CountPages(rest);
      RangeSize(live[0].start, live[0].n);
      forall p | p in AllPages(rest) ensures p !in Pages(live[0]) {
        AllPagesIs(rest, p);
        var i :| 0 <= i < |rest| && p in Pages(rest[i]);
        assert rest[i] == live[i + 1];
      }
    }
  }

  // Live blocks never overlap, lie outside the first 1024 pages, and together with them are
  // exactly the set bits; the number of set bits is conserved.
  lemma EveryRun(ops: seq<Op>)
    ensures var h := Run(Initial, ops);
      && Disjoint(h.live)
      && (forall b <- h.live :: b.start >= RESERVED_PAGES && b.start + b.n <= NUM_PAGES)
      && h.used == Reserved() + AllPages(h.live)
      && |h.used| == RESERVED_PAGES + PageCount(h.live)
  {
    assert AllPages([]) == {};
    RunKeepsInv(Initial, ops);
    var h := Run(Initial, ops);
    CountPages(h.live);
    RangeSize(0, RESERVED_PAGES);
    forall p | p in AllPages(h.live) ensures p !in Reserved() {
      AllPagesIs(h.live, p);
      var i :| 0 <= i < |h.live| && p in Pages(h.live[i]);
      assert h.live[i] in h.live;
    }
    assert Reserved() !! AllPages(h.live);
  }

  // An allocation fails only when no run of that many pages is free, and freeing what was just
  // allocated gives the bitmap back.
  lemma AllocThenFree(ops: seq<Op>, n: nat)
    ensures var h := Run(Initial, ops);
      if exists p :: n > 0 && FreeRun(h.used, p, n)
      then |Next(h, Alloc(n)).live| == |h.live| + 1
           && Next(Next(h, Alloc(n)), Free(|h.live|)) == h
      else Next(h, Alloc(n)) == h
  {
    var h := Run(Initial, ops);
    if p :| n > 0 && FreeRun(h.used, p, n) {
      FirstFitCharacterized(h.used, n, p);
      var h' := Next(h, Alloc(n));
      assert h'.live[..|h.live|] + h'.live[|h.live| + 1..] == h.live;
      assert h'.used - Pages(h'.live[|h.live|]) == h.used;
    }
  }
}
