/** Whole runs of the pool allocator, compared with the books a client keeps: the byte ranges it
    was given and has not released. */
module PoolRuns {
  import opened Basics
  import opened PoolSizing
  import opened PoolLayout
  import opened PoolBlocks
  import opened PoolTable
  import opened PoolAllocator

  /** The public operations that change the state, with the answer of the heap. */
  datatype Op =
    | Alloc(blockSize: Uint32, n: Uint32, heap: Option<nat>)
    | Reserve(blockSize: Uint32, n: Uint32, heap: Option<nat>)
    | Free(addr: nat)

  datatype Machine = Machine(view: View, firstFree: nat) {
    function Slots(): Table {
      Table(UsedSlots(view), firstFree)
    }

    ghost predicate Sound() {
      LegalView(view) && (firstFree == NO_INDEX || firstFree < |view|)
    }
  }

  /** First address and size in bytes. */
  type ByteRange = (nat, nat)

  predicate Within(r: ByteRange, addr: nat) {
    r.0 <= addr < r.0 + r.1
  }

  // ----- what a run does

  predicate NeedsNewPool(view: View, op: Op) {
    match op
    case Alloc(blockSize, n, _) => FirstFit(view, blockSize, n, 0) == |view|
    case Reserve(_, _, _) => true
    case Free(_) => false
  }

  /** What the code leaves to its caller and to the heap. */
  ghost predicate Permitted(view: View, op: Op) {
    match op
    case Alloc(blockSize, n, heap) =>
      AllocReady(view, blockSize, n)
      && (NeedsNewPool(view, op) ==> HeapAnswers(view, DEFAULT_BLOCK_COUNT, blockSize, heap))
    case Reserve(blockSize, n, heap) =>
      blockSize > 0 && n > 0 && NewCount(n, blockSize) > 0 && Fits(n, blockSize)
      && HeapAnswers(view, n, blockSize, heap)
    case Free(addr) =>
      SlotOf(view, addr, 0) < |view| ==> view[SlotOf(view, addr, 0)].value.InBlocks(addr)
  }

  /** In addition, the cached slot must be usable when a new pool is needed. */
  ghost predicate Accepts(m: Machine, op: Op) {
    Permitted(m.view, op) && (NeedsNewPool(m.view, op) ==> Ready(m.Slots()))
  }

  /** One operation. The release of a table slot is either the one of the code, or the one that
      keeps the least free slot. */
  ghost function StepOp(m: Machine, op: Op, asWritten: bool): Machine
    requires m.Sound() && Accepts(m, op)
  {
    match op
    case Alloc(blockSize, n, heap) =>
      var (view, addr) := Allocated(m.view, m.firstFree, blockSize, n, heap);
      Machine(view, if !NeedsNewPool(m.view, op) || addr.None? then m.firstFree else RequestSlot(m.Slots()).next.firstFree)
    case Reserve(blockSize, n, heap) =>
      if m.firstFree == NO_INDEX || heap.None? then m
      else Machine(m.view[m.firstFree := Some(NewPool(n, blockSize, heap.value))], RequestSlot(m.Slots()).next.firstFree)
    case Free(addr) =>
      var i := SlotOf(m.view, addr, 0);
      if i == |m.view| then m
      else
        AddressIsInItsBlock(m.view[i].value, addr);
        var view := ReleaseIn(m.view, i, m.view[i].value.BlockAt(addr));
        Machine(view,
          if view[i].Some? then m.firstFree
          else if asWritten then ReleaseSlot(m.Slots(), i).firstFree
          else ReleaseSlotLeast(m.Slots(), i).firstFree)
  }

  /** What the client enters: a successful request adds the range it was given, a release
      strikes out the range the address lies in. */
  ghost function Booked(m: Machine, op: Op, books: set<ByteRange>): set<ByteRange>
    requires m.Sound() && Accepts(m, op)
  {
    match op
    case Alloc(blockSize, n, heap) =>
      var addr := Allocated(m.view, m.firstFree, blockSize, n, heap).1;
      if addr.Some? then books + {(addr.value, blockSize * n)} else books
    case Reserve(_, _, _) => books
    case Free(addr) => set r | r in books && !Within(r, addr)
  }

  /** State and books after a run; `None` if some operation was not accepted. */
  ghost function Run(m: Machine, books: set<ByteRange>, ops: seq<Op>, asWritten: bool): Option<(Machine, set<ByteRange>)>
    requires m.Sound()
    decreases |ops|
  {
    if ops == [] then Some((m, books))
    else if !Accepts(m, ops[0]) then None
    else
      StepIsSound(m, ops[0], asWritten);
      Run(StepOp(m, ops[0], asWritten), Booked(m, ops[0], books), ops[1..], asWritten)
  }

  // ----- the ranges that are live

  ghost function RangeOf(view: View, a: (nat, nat, nat)): ByteRange
    requires a.0 < |view| && view[a.0].Some?
  {
    (view[a.0].value.Address(a.1), view[a.0].value.blockSize * a.2)
  }

  /** The byte ranges of the live allocations. */
  ghost function ByteRanges(view: View): set<ByteRange> {
    set a | a in LiveAllocations(view) :: RangeOf(view, a)
  }

  lemma WithinIsCovers(view: View, a: (nat, nat, nat), addr: nat)
    requires a.0 < |view| && view[a.0].Some?
    ensures Within(RangeOf(view, a), addr) <==> Covers(view, a, addr)
  {
    hide Encode, ExactHeadSize;
    var p := view[a.0].value;
    assert p.blockSize * (a.1 + a.2) == p.blockSize * a.1 + p.blockSize * a.2;
  }

  /** Pools in use keep their place, block size and count. */
  predicate SamePlaces(view: View, view': View) {
    && |view'| == |view|
    && forall i | 0 <= i < |view| && view[i].Some? && view'[i].Some? ::
         view'[i].value.base == view[i].value.base && view'[i].value.blockSize == view[i].value.blockSize
         && view'[i].value.Count() == view[i].value.Count()
  }

  lemma SameRange(view: View, view': View, a: (nat, nat, nat))
    requires SamePlaces(view, view') && a.0 < |view| && view[a.0].Some? && view'[a.0].Some?
    ensures RangeOf(view', a) == RangeOf(view, a)
  {
    hide Encode, ExactHeadSize;
  }

  lemma RangesAfterAdding(view: View, view': View, a: (nat, nat, nat))
    requires SamePlaces(view, view') && LiveAllocations(view') == LiveAllocations(view) + {a}
    ensures a.0 < |view'| && view'[a.0].Some?
    ensures ByteRanges(view') == ByteRanges(view) + {RangeOf(view', a)}
  {
    assert a in LiveAllocations(view');
    hide LiveAllocations, RangeOf, SamePlaces;
    forall c | c in LiveAllocations(view)
      ensures RangeOf(view', c) == RangeOf(view, c)
    {
      assert c in LiveAllocations(view');
      SameRange(view, view', c);
    }
    forall r | r in ByteRanges(view) + {RangeOf(view', a)}
      ensures r in ByteRanges(view')
    {
      if r in ByteRanges(view) {
        var c :| c in LiveAllocations(view) && r == RangeOf(view, c);
        assert c in LiveAllocations(view');
      }
    }
  }

  lemma RangesWhenSame(view: View, view': View)
    requires SamePlaces(view, view') && LiveAllocations(view') == LiveAllocations(view)
    ensures ByteRanges(view') == ByteRanges(view)
  {
    hide LiveAllocations, RangeOf, SamePlaces;
    forall c | c in LiveAllocations(view)
      ensures RangeOf(view', c) == RangeOf(view, c)
    {
      assert c in LiveAllocations(view');
      SameRange(view, view', c);
    }
  }

  /** Removing the one allocation that covers an address removes the ranges it lies in. */
  lemma RangesAfterRemoving(view: View, view': View, own: (nat, nat, nat), addr: nat)
    requires SamePlaces(view, view') && LiveAllocations(view') == LiveAllocations(view) - {own}
    requires forall c | c in LiveAllocations(view) :: Covers(view, c, addr) <==> c == own
    ensures ByteRanges(view') == set r | r in ByteRanges(view) && !Within(r, addr)
  {
    hide LiveAllocations, RangeOf, SamePlaces, Within, Covers;
    forall c | c in LiveAllocations(view)
      ensures c.0 < |view| && view[c.0].Some? && (Within(RangeOf(view, c), addr) <==> c == own)
      ensures c != own ==> c.0 < |view'| && view'[c.0].Some? && RangeOf(view', c) == RangeOf(view, c)
    {
      WithinIsCovers(view, c, addr);
      if c != own {
        assert c in LiveAllocations(view');
        SameRange(view, view', c);
      }
    }
    forall r | r in ByteRanges(view) && !Within(r, addr)
      ensures r in ByteRanges(view')
    {
      var c :| c in LiveAllocations(view) && r == RangeOf(view, c);
      assert c in LiveAllocations(view');
    }
  }

  // ----- places

  lemma PlacesAfterSegments(view: View, i: nat, segs: seq<Segment>)
    requires i < |view| && view[i].Some? && |Encode(segs)| == view[i].value.Count()
    ensures SamePlaces(view, view[i := Some(view[i].value.(segs := segs))])
  {
  }

  lemma PlacesAfterNewPool(view: View, i: nat, p: PoolView)
    requires i < |view| && view[i].None?
    ensures SamePlaces(view, view[i := Some(p)])
  {
  }

  lemma UsedAfterNewPool(view: View, i: nat, p: PoolView)
    requires i < |view|
    ensures UsedSlots(view[i := Some(p)]) == UsedSlots(view)[i := true]
    ensures UsedSlots(view[i := None]) == UsedSlots(view)[i := false]
    ensures view[i].Some? ==> UsedSlots(view[i := Some(p)]) == UsedSlots(view)
  {
  }

  // ----- one request

  /** Slot that serves a request, and the pool there before. */
  ghost function Serving(m: Machine, op: Op): (nat, PoolView)
    requires m.Sound() && op.Alloc? && Accepts(m, op)
    requires Allocated(m.view, m.firstFree, op.blockSize, op.n, op.heap).1.Some?
  {
    var i := FirstFit(m.view, op.blockSize, op.n, 0);
    if i < |m.view| then (i, m.view[i].value)
    else (m.firstFree, NewPool(DEFAULT_BLOCK_COUNT, op.blockSize, op.heap.value))
  }

  /** What a successful request does, wherever it is served. */
  lemma ServedBy(m: Machine, op: Op)
    requires m.Sound() && op.Alloc? && Accepts(m, op)
    requires Allocated(m.view, m.firstFree, op.blockSize, op.n, op.heap).1.Some?
    ensures var (view', addr) := Allocated(m.view, m.firstFree, op.blockSize, op.n, op.heap);
            var (i, p) := Serving(m, op);
            var k := LeastFree(Encode(p.segs));
            && i < |m.view| && p.blockSize == op.blockSize && p.Legal()
            && (if m.view[i].Some? then m.view[i].value == p else LiveRanges(p.segs) == {})
            && FoundAsWritten(Encode(p.segs), op.n) != NO_INDEX
            && view' == m.view[i := Some(AllocateIn(p, op.n))]
            && addr.value == p.Address(k)
            && LegalView(m.view[i := Some(p)])
            && (NeedsNewPool(m.view, op) <==> m.view[i].None?) && (m.view[i].None? ==> i == m.firstFree)
  {
    hide Encode, ExactSize, ExactHeadSize, NewCount, BufferSize, NewPool, LeastFree, Occupy, FreeRange;
    var i := FirstFit(m.view, op.blockSize, op.n, 0);
    if i < |m.view| {
      assert m.view[i := Some(m.view[i].value)] == m.view;
    } else {
      assert UsedSlots(m.view)[m.firstFree] == m.view[m.firstFree].Some?;
      AdjustedPoolFits(DEFAULT_BLOCK_COUNT, op.blockSize);
      NewPoolIsLegal(DEFAULT_BLOCK_COUNT, op.blockSize, op.heap.value);
      NewPoolIsSearched(DEFAULT_BLOCK_COUNT, op.blockSize, op.heap.value, op.n);
      NewPoolHasNoRanges(DEFAULT_BLOCK_COUNT, op.blockSize, op.heap.value);
      LegalViewWithNewPool(m.view, m.firstFree, DEFAULT_BLOCK_COUNT, op.blockSize, op.heap);
      NewPoolShape(DEFAULT_BLOCK_COUNT, op.blockSize, op.heap.value);
    }
  }

  lemma NewPoolShape(count: Uint32, blockSize: Uint32, base: nat)
    ensures NewPool(count, blockSize, base).blockSize == blockSize
  {
  }

  /** Allocating in pool `p` of slot `i`: legality, places, ranges. */
  lemma AllocatedAt(view: View, i: nat, p: PoolView, n: Uint32)
    requires i < |view| && n > 0 && LegalView(view[i := Some(p)]) && p.Legal()
    requires FoundAsWritten(Encode(p.segs), n) != NO_INDEX
    requires if view[i].Some? then view[i].value == p else LiveRanges(p.segs) == {}
    ensures var view', k := view[i := Some(AllocateIn(p, n))], LeastFree(Encode(p.segs));
            && LegalView(view') && SamePlaces(view, view')
            && ByteRanges(view') == ByteRanges(view) + {(p.Address(k), p.blockSize * n)}
  {
    hide Encode, ExactHeadSize, LeastFree, Occupy, LegalView, LiveAllocations, ByteRanges;
    var k, q := LeastFree(Encode(p.segs)), AllocateIn(p, n);
    var view' := view[i := Some(q)];
    FoundIsFree(Encode(p.segs), n);
    OccupyKeepsCount(p.segs, k, n);
    LegalViewWithSegments(view[i := Some(p)], i, q.segs);
    assert view[i := Some(p)][i := Some(q)] == view';
    if view[i].Some? {
      PlacesAfterSegments(view, i, q.segs);
    } else {
      PlacesAfterNewPool(view, i, q);
    }
    AddedRange(view, i, p, n);
    RangesAfterAdding(view, view', (i, k, n as nat));
    SameAddress(p, q, k);
  }

  lemma SameAddress(p: PoolView, q: PoolView, k: nat)
    requires p.blockSize == q.blockSize && p.base == q.base && p.Count() == q.Count()
    ensures p.Address(k) == q.Address(k)
  {
  }

  lemma PoolIsLegal(view: View, i: nat)
    requires LegalView(view) && i < |view| && view[i].Some?
    ensures view[i].value.Legal()
  {
  }

  lemma SlotCount(view: View)
    requires LegalView(view)
    ensures |view| == MAX_POOLS < NO_INDEX
  {
  }

  lemma AllocKeepsBooks(m: Machine, op: Op, asWritten: bool)
    requires m.Sound() && op.Alloc? && Accepts(m, op)
    ensures LegalView(StepOp(m, op, asWritten).view)
    ensures ByteRanges(StepOp(m, op, asWritten).view) == Booked(m, op, ByteRanges(m.view))
  {
    SlotCount(m.view);
    hide Encode, ExactHeadSize, ExactSize, LeastFree, Occupy, LegalView, ByteRanges, FoundAsWritten, FirstFit, LiveRanges,
         AllocateIn, RequestSlot, Serving, NewPool, PoolView.Legal, PoolView.Address;
    if Allocated(m.view, m.firstFree, op.blockSize, op.n, op.heap).1.Some? {
      ServedBy(m, op);
      hide Allocated;
      var (i, p) := Serving(m, op);
      AllocatedAt(m.view, i, p, op.n);
    }
  }

  lemma ReserveKeepsBooks(m: Machine, op: Op, asWritten: bool)
    requires m.Sound() && op.Reserve? && Accepts(m, op)
    ensures LegalView(StepOp(m, op, asWritten).view)
    ensures ByteRanges(StepOp(m, op, asWritten).view) == Booked(m, op, ByteRanges(m.view))
  {
    hide Encode, ExactHeadSize, ExactSize, RoundToPages, NewCount, BufferSize, LegalView, ByteRanges, LiveRanges, NewPool;
    if m.firstFree != NO_INDEX && op.heap.Some? {
      var f, p := m.firstFree, NewPool(op.n, op.blockSize, op.heap.value);
      assert UsedSlots(m.view)[f] == m.view[f].Some?;
      LegalViewWithNewPool(m.view, f, op.n, op.blockSize, op.heap);
      NewPoolHasNoRanges(op.n, op.blockSize, op.heap.value);
      PlacesAfterNewPool(m.view, f, p);
      SameLiveWithEmptyPool(m.view, f, p);
      RangesWhenSame(m.view, m.view[f := Some(p)]);
    }
  }

  lemma SameLiveWithEmptyPool(view: View, i: nat, p: PoolView)
    requires i < |view| && view[i].None? && LiveRanges(p.segs) == {}
    ensures LiveAllocations(view[i := Some(p)]) == LiveAllocations(view)
  {
    hide LiveRanges;
  }

  // ----- one release

  /** The allocation that covers an address of a pool's block section is the segment its block
      belongs to, if that is live. */
  lemma CoveredBySegment(view: View, i: nat, addr: nat)
    requires LegalView(view) && i < |view| && view[i].Some? && view[i].value.InBlocks(addr)
    ensures view[i].value.Legal() && view[i].value.BlockAt(addr) < view[i].value.Count()
    ensures var p := view[i].value;
            var t := SegmentOf(p.segs, p.BlockAt(addr));
            var own := (i, Start(p.segs, t), p.segs[t].Len() as nat);
            forall c | c in LiveAllocations(view) :: Covers(view, c, addr) <==> c == own
  {
    hide Encode, ExactHeadSize, SegmentOf, Start, LiveAllocations, Covers;
    var p := view[i].value;
    AddressIsInItsBlock(p, addr);
    var b := p.BlockAt(addr);
    var t := SegmentOf(p.segs, b);
    var own := (i, Start(p.segs, t), p.segs[t].Len() as nat);
    SegmentCovers(p.segs, b);
    CoversOwn(view, own, b, addr);
    forall c | c in LiveAllocations(view)
      ensures Covers(view, c, addr) <==> c == own
    {
      if Covers(view, c, addr) {
        AddressLeadsToAllocation(view, c, addr);
        BlockSectionIsInside(p, addr);
        SlotIsUnique(view, addr, i);
        LiveSegment(view, c, b);
      }
    }
  }

  lemma LiveSegment(view: View, c: (nat, nat, nat), b: nat)
    requires c.0 < |view| && view[c.0].Some? && b < view[c.0].value.Count()
    requires Start(view[c.0].value.segs, SegmentOf(view[c.0].value.segs, b)) == c.1
    requires SegmentBlocks(view[c.0].value.segs, b) == c.2 && c in LiveAllocations(view)
    ensures c.2 == view[c.0].value.segs[SegmentOf(view[c.0].value.segs, b)].Len()
  {
    hide Encode, SegmentOf, RangesFrom;
    RangeBounds(view[c.0].value.segs, 0, (c.1, c.2));
  }

  lemma BlockSectionIsInside(p: PoolView, addr: nat)
    requires p.InBlocks(addr)
    ensures p.Contains(addr)
  {
    hide Encode;
  }

  lemma CoversOwn(view: View, a: (nat, nat, nat), b: nat, addr: nat)
    requires a.0 < |view| && view[a.0].Some? && a.1 <= b < a.1 + a.2
    requires view[a.0].value.Address(b) <= addr < view[a.0].value.Address(b) + view[a.0].value.blockSize
    ensures Covers(view, a, addr)
  {
    hide Encode, ExactHeadSize;
    var p := view[a.0].value;
    if a.1 < b {
      AddressIsMonotone(p, a.1, b);
    }
    BlockEnds(p.blockSize, b, a.1 + a.2);
  }

  lemma FreeKeepsBooks(m: Machine, op: Op, asWritten: bool)
    requires m.Sound() && op.Free? && Accepts(m, op)
    ensures LegalView(StepOp(m, op, asWritten).view)
    ensures ByteRanges(StepOp(m, op, asWritten).view) == Booked(m, op, ByteRanges(m.view))
  {
    hide Encode, ExactHeadSize, SlotOf, LegalView, LiveAllocations, ByteRanges, ReleaseIn, ReleaseSlot, ReleaseSlotLeast,
         PoolView.BlockAt, SegmentOf, Start;
    var view, addr, i := m.view, op.addr, SlotOf(m.view, op.addr, 0);
    if i < |view| {
      CoveredBySegment(view, i, addr);
      var b := view[i].value.BlockAt(addr);
      ReleaseRemovesSegment(view, i, b);
      ReleaseKeepsPlaces(view, i, b);
      var segs := view[i].value.segs;
      RangesAfterRemoving(view, ReleaseIn(view, i, b), (i, Start(segs, SegmentOf(segs, b)), segs[SegmentOf(segs, b)].Len() as nat), addr);
    } else {
      NothingCovers(view, addr);
    }
  }

  lemma ReleaseKeepsPlaces(view: View, i: nat, b: nat)
    requires LegalView(view) && i < |view| && view[i].Some? && b < view[i].value.Count()
    ensures LegalView(ReleaseIn(view, i, b)) && SamePlaces(view, ReleaseIn(view, i, b))
  {
    hide Encode, ExactHeadSize, LegalView, Vacate, LiveBlocks;
    VacateKeepsCount(view[i].value.segs, b);
    LegalViewWithSegments(view, i, Vacate(view[i].value.segs, b));
    LegalViewWithout(view, i);
    PlacesAfterSegments(view, i, Vacate(view[i].value.segs, b));
  }

  /** An address outside all pools lies in no live range. */
  lemma NothingCovers(view: View, addr: nat)
    requires LegalView(view) && SlotOf(view, addr, 0) == |view|
    ensures forall r | r in ByteRanges(view) :: !Within(r, addr)
  {
    hide Encode, ExactHeadSize, SlotOf, LiveAllocations, LegalView, RangeOf, Within;
    forall r | r in ByteRanges(view)
      ensures !Within(r, addr)
    {
      var c :| c in LiveAllocations(view) && r == RangeOf(view, c);
      WithinIsCovers(view, c, addr);
      if Covers(view, c, addr) {
        AllocationIsFound(view, c, addr);
      }
    }
  }

  // ----- every step

  lemma StepIsSound(m: Machine, op: Op, asWritten: bool)
    requires m.Sound() && Accepts(m, op)
    ensures StepOp(m, op, asWritten).Sound()
    ensures ByteRanges(StepOp(m, op, asWritten).view) == Booked(m, op, ByteRanges(m.view))
  {
    hide LegalView, ByteRanges, StepOp, Booked, Accepts;
    IndexStaysInRange(m, op, asWritten);
    if op.Alloc? {
      AllocKeepsBooks(m, op, asWritten);
    } else if op.Reserve? {
      ReserveKeepsBooks(m, op, asWritten);
    } else {
      FreeKeepsBooks(m, op, asWritten);
    }
  }

  lemma IndexStaysInRange(m: Machine, op: Op, asWritten: bool)
    requires m.Sound() && Accepts(m, op)
    ensures var m' := StepOp(m, op, asWritten);
            |m'.view| == |m.view| && (m'.firstFree == NO_INDEX || m'.firstFree < |m.view|)
  {
    hide LegalView, NewPool, AllocateIn, SlotOf, FirstFit, Encode, LeastFree;
  }

  /** Main result: over every run, with the release as written as well as with the least free
      slot kept, the client's books show exactly the live allocations, range by range, as long
      as each operation is accepted. */
  lemma {:induction false} BooksAreKept(m: Machine, ops: seq<Op>, asWritten: bool)
    requires m.Sound() && Run(m, ByteRanges(m.view), ops, asWritten).Some?
    ensures var (m', books) := Run(m, ByteRanges(m.view), ops, asWritten).value;
            m'.Sound() && books == ByteRanges(m'.view)
    decreases |ops|
  {
    hide ByteRanges, StepOp, Booked, Accepts;
    if ops != [] {
      StepIsSound(m, ops[0], asWritten);
      BooksAreKept(StepOp(m, ops[0], asWritten), ops[1..], asWritten);
    }
  }

  /** Ranges in the books never share a byte. */
  lemma BookedRangesAreApart(view: View, r: ByteRange, q: ByteRange, addr: nat)
    requires LegalView(view)
    ensures r in ByteRanges(view) && q in ByteRanges(view) && Within(r, addr) && Within(q, addr) ==> r == q
  {
    hide LegalView, LiveAllocations, RangeOf, Within;
    if r in ByteRanges(view) && q in ByteRanges(view) {
      var a :| a in LiveAllocations(view) && r == RangeOf(view, a);
      var b :| b in LiveAllocations(view) && q == RangeOf(view, b);
      WithinIsCovers(view, a, addr);
      WithinIsCovers(view, b, addr);
      AllocationsAreDisjoint(view, a, b, addr);
    }
  }

  // ----- the least free slot over runs

  lemma LeastIsReady(t: Table)
    requires Least(t)
    ensures Ready(t)
  {
  }

  /** With the least free slot kept, each step keeps it. */
  lemma StepKeepsLeast(m: Machine, op: Op)
    requires m.Sound() && Accepts(m, op) && Least(m.Slots())
    ensures Least(StepOp(m, op, false).Slots())
  {
    hide LegalView, NewPool, AllocateIn, Encode, LeastFree, Least, RequestSlot, ReleaseSlotLeast, UsedSlots, Occupied, NextFreeSlot;
    var m', t := StepOp(m, op, false), m.Slots();
    RequestKeepsLeast(t);
    LeastIsReady(t);
    match op
    case Alloc(blockSize, n, heap) =>
      if Allocated(m.view, m.firstFree, blockSize, n, heap).1.Some? {
        ServedBy(m, op);
        var (i, p) := Serving(m, op);
        UsedAfterNewPool(m.view, i, AllocateIn(p, n));
        if m.view[i].None? {
          RequestedSlots(m);
        }
      }
    case Reserve(blockSize, n, heap) =>
      if m.firstFree != NO_INDEX && heap.Some? {
        UsedAfterNewPool(m.view, m.firstFree, NewPool(n, blockSize, heap.value));
        RequestedSlots(m);
      }
    case Free(addr) =>
      var i := SlotOf(m.view, addr, 0);
      if i < |m.view| {
        ReleasedSlots(m, i);
        PoolIsLegal(m.view, i);
        AddressIsInItsBlock(m.view[i].value, addr);
        var p := m.view[i].value;
        UsedAfterNewPool(m.view, i, p.(segs := Vacate(p.segs, p.BlockAt(addr))));
      }
  }

  lemma RequestedSlots(m: Machine)
    requires Ready(m.Slots()) && m.firstFree != NO_INDEX
    ensures RequestSlot(m.Slots()).Taken?
    ensures RequestSlot(m.Slots()).next.used == UsedSlots(m.view)[m.firstFree := true]
  {
  }

  lemma ReleasedSlots(m: Machine, i: nat)
    requires Least(m.Slots()) && i < |m.view| && m.view[i].Some?
    ensures Least(ReleaseSlotLeast(m.Slots(), i))
    ensures ReleaseSlotLeast(m.Slots(), i).used == UsedSlots(m.view)[i := false]
  {
    hide Least;
    ReleaseLeastKeepsLeast(m.Slots(), i);
  }

  /** Main result: with the least free slot kept, the cached slot is never in the way: an
      operation is accepted exactly if it is permitted, at every point of every run. */
  lemma {:induction false} LeastNeverBlocks(m: Machine, books: set<ByteRange>, ops: seq<Op>, op: Op)
    requires m.Sound() && Least(m.Slots()) && Run(m, books, ops, false).Some?
    ensures var m' := Run(m, books, ops, false).value.0;
            Least(m'.Slots()) && (Accepts(m', op) <==> Permitted(m'.view, op))
    decreases |ops|
  {
    hide StepOp, Booked, Permitted, Least, NeedsNewPool, Ready;
    LeastIsReady(m.Slots());
    if ops != [] {
      StepIsSound(m, ops[0], false);
      StepKeepsLeast(m, ops[0]);
      LeastNeverBlocks(StepOp(m, ops[0], false), Booked(m, ops[0], books), ops[1..], op);
    }
  }

  // ----- the table over runs as written

  /** What an operation does to the table: requests a slot, gives one up, or nothing. */
  ghost function TableOp(m: Machine, op: Op): Option<PoolTable.Op>
    requires m.Sound() && Accepts(m, op)
  {
    match op
    case Alloc(blockSize, n, heap) =>
      if NeedsNewPool(m.view, op) && Allocated(m.view, m.firstFree, blockSize, n, heap).1.Some? then Some(Take) else None
    case Reserve(_, _, heap) =>
      if m.firstFree != NO_INDEX && heap.Some? then Some(Take) else None
    case Free(addr) =>
      var i := SlotOf(m.view, addr, 0);
      if i < |m.view| && StepOp(m, op, true).view[i].None? then Some(Give(i)) else None
  }

  /** The table operations of a run. */
  ghost function TableOps(m: Machine, ops: seq<Op>): seq<PoolTable.Op>
    requires m.Sound()
    decreases |ops|
  {
    if ops == [] || !Accepts(m, ops[0]) then []
    else
      StepIsSound(m, ops[0], true);
      var rest := TableOps(StepOp(m, ops[0], true), ops[1..]);
      if TableOp(m, ops[0]).Some? then [TableOp(m, ops[0]).value] + rest else rest
  }

  lemma StepOnTable(m: Machine, op: Op)
    requires m.Sound() && Accepts(m, op)
    ensures StepOp(m, op, true).Slots()
         == if TableOp(m, op).Some? then StepAsWritten(m.Slots(), TableOp(m, op).value) else m.Slots()
  {
    SlotCount(m.view);
    hide LegalView, NewPool, AllocateIn, Encode, LeastFree, Ready, RequestSlot, ReleaseSlot, UsedSlots, Occupied, NextFreeSlot;
    match op
    case Alloc(blockSize, n, heap) =>
      if Allocated(m.view, m.firstFree, blockSize, n, heap).1.Some? {
        ServedBy(m, op);
        var (i, p) := Serving(m, op);
        UsedAfterNewPool(m.view, i, AllocateIn(p, n));
        if m.view[i].None? {
          RequestedSlots(m);
        }
      }
    case Reserve(blockSize, n, heap) =>
      if m.firstFree != NO_INDEX && heap.Some? {
        UsedAfterNewPool(m.view, m.firstFree, NewPool(n, blockSize, heap.value));
        RequestedSlots(m);
      }
    case Free(addr) =>
      var i := SlotOf(m.view, addr, 0);
      if i < |m.view| {
        PoolIsLegal(m.view, i);
        AddressIsInItsBlock(m.view[i].value, addr);
        var p := m.view[i].value;
        UsedAfterNewPool(m.view, i, p.(segs := Vacate(p.segs, p.BlockAt(addr))));
        ReleasedAsWritten(m, i);
      }
  }

  lemma ReleasedAsWritten(m: Machine, i: nat)
    requires i < |m.view| && m.view[i].Some?
    ensures UsedSlots(m.view)[i] && ReleaseSlot(m.Slots(), i).used == UsedSlots(m.view)[i := false]
  {
  }

  /** The table of the allocator goes through the run of its table operations. */
  lemma {:induction false} TableFollows(m: Machine, books: set<ByteRange>, ops: seq<Op>)
    requires m.Sound() && Run(m, books, ops, true).Some?
    ensures m.Slots().firstFree == NO_INDEX || m.Slots().firstFree < |m.Slots().used|
    ensures var tableOps := TableOps(m, ops);
            Run(m, books, ops, true).value.0.Slots() == TableAt(m.Slots(), tableOps, |tableOps|)
    decreases |ops|
  {
    hide StepOp, Booked, Accepts, TableOp, StepAsWritten, LegalView;
    if ops != [] {
      StepIsSound(m, ops[0], true);
      StepOnTable(m, ops[0]);
      var next := StepOp(m, ops[0], true);
      TableFollows(next, Booked(m, ops[0], books), ops[1..]);
      var rest := TableOps(next, ops[1..]);
      if TableOp(m, ops[0]).Some? {
        var all := [TableOp(m, ops[0]).value] + rest;
        assert all[1..] == rest;
        TableAtShift(m.Slots(), all, |rest|);
      }
    }
  }

  /** Main result on the code as written: after any run from a usable index, a permitted operation
      is accepted if and only if it needs no new pool, or no request for a slot has stranded the
      index without a later release that rescued it. */
  lemma AcceptedIffNotStranded(m: Machine, books: set<ByteRange>, ops: seq<Op>, op: Op)
    requires m.Sound() && Ready(m.Slots()) && Run(m, books, ops, true).Some?
    ensures var (m', tableOps) := (Run(m, books, ops, true).value.0, TableOps(m, ops));
            Permitted(m'.view, op) ==>
              (Accepts(m', op) <==>
                !NeedsNewPool(m'.view, op)
                || !exists i | 0 <= i < |tableOps| :: StrandedFrom(m.Slots(), tableOps, i, |tableOps|))
  {
    hide Run, Permitted, NeedsNewPool, StrandedFrom, Ready, LegalView;
    TableFollows(m, books, ops);
    UnusableIff(m.Slots(), TableOps(m, ops), |TableOps(m, ops)|);
  }

  /** The operation sets up a pool: a slot that held none holds one afterwards. */
  ghost predicate ObtainsPool(m: Machine, op: Op)
    requires m.Sound()
  {
    Accepts(m, op)
    && exists i | 0 <= i < |m.view| && i < |StepOp(m, op, true).view| ::
         m.view[i].None? && StepOp(m, op, true).view[i].Some?
  }

  /** The answer of the heap to a request. */
  function HeapAnswer(op: Op): Option<nat> {
    if op.Free? then None else op.heap
  }

  lemma ObtainsPoolInState(m: Machine, op: Op)
    requires m.Sound() && Permitted(m.view, op) && NeedsNewPool(m.view, op)
    ensures ObtainsPool(m, op) <==> HeapAnswer(op).Some? && m.firstFree != NO_INDEX && Ready(m.Slots())
  {
    hide LegalView, NewPool, AllocateIn, Encode, LeastFree, Permitted, Ready, RequestSlot, FirstFit;
    if Ready(m.Slots()) {
      SlotCount(m.view);
      if HeapAnswer(op).Some? && m.firstFree != NO_INDEX {
        ReadySlotIsFree(m);
        var f := m.firstFree;
        assert m.view[f].None? && StepOp(m, op, true).view[f].Some?;
      }
    }
  }

  lemma ReadySlotIsFree(m: Machine)
    requires Ready(m.Slots()) && m.firstFree != NO_INDEX
    ensures m.firstFree < |m.view| && m.view[m.firstFree].None?
  {
    assert UsedSlots(m.view)[m.firstFree] == m.view[m.firstFree].Some?;
  }

  /** Main result on requests as written: after any run from a usable index that is missing only
      if the table is full, a permitted request that needs a new pool obtains one if and only if
      the heap answers, the table is not full, and the index is neither stranded nor forgotten. */
  lemma ObtainsPoolIff(m: Machine, books: set<ByteRange>, ops: seq<Op>, op: Op)
    requires m.Sound() && Ready(m.Slots()) && Remembered(m.Slots()) && Run(m, books, ops, true).Some?
    ensures var (m', tableOps) := (Run(m, books, ops, true).value.0, TableOps(m, ops));
            Permitted(m'.view, op) && NeedsNewPool(m'.view, op) ==>
              m'.Sound() &&
              (ObtainsPool(m', op) <==>
                && HeapAnswer(op).Some? && !Full(UsedSlots(m'.view))
                && (!exists i | 0 <= i < |tableOps| :: StrandedFrom(m.Slots(), tableOps, i, |tableOps|))
                && (!exists i | 0 <= i < |tableOps| :: ForgottenFrom(m.Slots(), tableOps, i, |tableOps|)))
  {
    RunIsSound(m, books, ops);
    SlotCount(m.view);
    hide Run, Permitted, NeedsNewPool, StrandedFrom, ForgottenFrom, Ready, LegalView, Full, UsedSlots, ObtainsPool, Remembered;
    var (m', tableOps) := (Run(m, books, ops, true).value.0, TableOps(m, ops));
    TableFollows(m, books, ops);
    UnusableIff(m.Slots(), tableOps, |tableOps|);
    ForgottenIff(m.Slots(), tableOps, |tableOps|);
    ForgottenOrFull(m'.Slots());
    if Permitted(m'.view, op) && NeedsNewPool(m'.view, op) {
      ObtainsPoolInState(m', op);
    }
  }

  lemma ForgottenOrFull(t: Table)
    requires Forgotten(t) || Remembered(t)
    ensures t.firstFree == NO_INDEX <==> Forgotten(t) || Full(t.used)
  {
  }

  lemma {:induction false} RunIsSound(m: Machine, books: set<ByteRange>, ops: seq<Op>)
    requires m.Sound() && Run(m, books, ops, true).Some?
    ensures Run(m, books, ops, true).value.0.Sound()
    decreases |ops|
  {
    hide StepOp, Booked, Accepts;
    if ops != [] {
      StepIsSound(m, ops[0], true);
      RunIsSound(StepOp(m, ops[0], true), Booked(m, ops[0], books), ops[1..]);
    }
  }

  // ----- the allocator object

  ghost function Snapshot(allocator: Allocator): Machine
    reads allocator
  {
    Machine(allocator.view, allocator.firstFreePool)
  }

  method Perform(allocator: Allocator, op: Op)
    requires allocator.Valid() && Snapshot(allocator).Sound() && Accepts(Snapshot(allocator), op)
    modifies allocator.Repr
    ensures allocator.Valid() && fresh(allocator.Repr - old(allocator.Repr))
    ensures Snapshot(allocator) == StepOp(old(Snapshot(allocator)), op, true)
  {
    hide LegalView, NewPool, AllocateIn, Encode, LeastFree, RequestSlot, ReleaseSlot, ReleaseIn, SlotOf, FirstFit, UsedSlots,
         Occupied, ExactSize, ExactHeadSize, NewCount, RoundToPages, HeapAnswers;
    match op {
      case Alloc(blockSize, n, heap) =>
        var addr := allocator.Alloc(blockSize, n, heap);
      case Reserve(blockSize, n, heap) =>
        var ok := allocator.Reserve(blockSize, n, heap);
      case Free(addr) =>
        allocator.Free(Some(addr));
    }
  }

  /** The allocator object goes through the very states of the run. */
  method Execute(allocator: Allocator, ops: seq<Op>, ghost end: Machine, ghost books: set<ByteRange>)
    requires allocator.Valid() && Snapshot(allocator).Sound()
    requires Run(Snapshot(allocator), ByteRanges(allocator.view), ops, true) == Some((end, books))
    modifies allocator.Repr
    ensures allocator.Valid() && Snapshot(allocator) == end && ByteRanges(allocator.view) == books
  {
    BooksAreKept(Snapshot(allocator), ops, true);
    ghost var done := ByteRanges(allocator.view);
    hide StepOp, Booked, Accepts, ByteRanges, Machine.Sound;
    assert ops[0..] == ops;
    for i := 0 to |ops|
      invariant allocator.Valid() && fresh(allocator.Repr - old(allocator.Repr)) && Snapshot(allocator).Sound()
      invariant Run(Snapshot(allocator), done, ops[i..], true) == Some((end, books))
    {
      assert ops[i..][0] == ops[i] && ops[i..][1..] == ops[i + 1..];
      StepIsSound(Snapshot(allocator), ops[i], true);
      done := Booked(Snapshot(allocator), ops[i], done);
      Perform(allocator, ops[i]);
    }
  }
}
