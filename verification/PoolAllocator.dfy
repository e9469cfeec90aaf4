/** The pool allocator: a table of pools, and the public operations on it. */
module PoolAllocator {
  import opened Arithmetic
  import opened Basics
  import opened PoolSizing
  import opened PoolLayout
  import opened PoolBlocks
  import opened PoolTable

  // ----- the abstract state

  /** A pool as a value: its block size, the address of its buffer and its segments. */
  datatype PoolView = PoolView(blockSize: Uint32, base: nat, segs: seq<Segment>) {
    function Count(): nat {
      |Encode(segs)|
    }

    /** Address of block `k`. */
    function Address(k: nat): nat {
      base + ExactHeadSize(Count()) + blockSize * k
    }

    /** Address of header `k`. */
    function HeaderAddress(k: nat): nat {
      base + HEADER_SIZE * k
    }

    /** First address past the last block. */
    function End(): nat {
      base + ExactSize(Count(), blockSize)
    }

    predicate Contains(addr: nat) {
      base <= addr < End()
    }

    /** In the block section, as opposed to the header section. */
    predicate InBlocks(addr: nat) {
      Address(0) <= addr < End()
    }

    /** Block an address of the block section lies in. */
    function BlockAt(addr: nat): nat
      requires blockSize > 0 && Address(0) <= addr
    {
      (addr - Address(0)) / blockSize
    }

    predicate Legal() {
      blockSize > 0 && Count() > 0 && ExactSize(Count(), blockSize) < UINT32_RANGE
    }
  }

  type View = seq<Option<PoolView>>

  predicate RegionsApart(p: PoolView, q: PoolView) {
    p.End() <= q.base || q.End() <= p.base
  }

  ghost predicate LegalView(view: View) {
    && |view| == MAX_POOLS
    && (forall i | 0 <= i < |view| && view[i].Some? :: view[i].value.Legal())
    && (forall i, j | 0 <= i < j < |view| && view[i].Some? && view[j].Some? ::
          RegionsApart(view[i].value, view[j].value))
  }

  function UsedSlots(view: View): (u: seq<bool>)
    ensures |u| == |view| && forall i :: 0 <= i < |view| ==> u[i] == view[i].Some?
  {
    seq(|view|, i requires 0 <= i < |view| => view[i].Some?)
  }

  // ----- addresses

  /** Every byte of a block leads back to the block. */
  lemma AddressRoundTrip(p: PoolView, k: nat, off: nat)
    requires p.Legal() && k < p.Count() && off < p.blockSize
    ensures p.InBlocks(p.Address(k) + off) && p.BlockAt(p.Address(k) + off) == k
  {
    BlockOfAddress(p.blockSize, k, off);
    BlockEnds(p.blockSize, k, p.Count());
  }

  lemma BlockEnds(blockSize: nat, k: nat, m: nat)
    requires k < m
    ensures blockSize * k + blockSize <= blockSize * m
  {
    var d := m - k - 1;
    assert blockSize * d >= 0;
    assert blockSize * m == blockSize * (k + 1) + blockSize * d;
  }

  lemma BlockIsInside(p: PoolView, k: nat)
    requires k < p.Count()
    ensures p.base + HEADER_SIZE * p.Count() <= p.Address(k) < p.Address(k + 1) <= p.End() || p.blockSize == 0
    ensures p.Address(k + 1) == p.Address(k) + p.blockSize
  {
    BlockEnds(p.blockSize, k, p.Count());
    assert p.blockSize * (k + 1) == p.blockSize * k + p.blockSize;
  }

  lemma AddressIsMonotone(p: PoolView, k: nat, m: nat)
    requires k < m
    ensures p.Address(k + 1) <= p.Address(m)
  {
    BlockEnds(p.blockSize, k, m);
    assert p.blockSize * (k + 1) == p.blockSize * k + p.blockSize;
  }

  /** Every address of the block section is a byte of exactly one block. */
  lemma AddressIsInItsBlock(p: PoolView, addr: nat)
    requires p.Legal() && p.InBlocks(addr)
    ensures p.BlockAt(addr) < p.Count()
    ensures p.Address(p.BlockAt(addr)) <= addr < p.Address(p.BlockAt(addr)) + p.blockSize
  {
    var rest := addr - p.Address(0);
    var k := rest / p.blockSize;
    assert rest == p.blockSize * k + rest % p.blockSize;
    QuotientBelow(rest, p.blockSize, p.Count());
  }

  /** Main result on addresses: ranges of bytes of distinct blocks, in the same pool or in
      different pools, never overlap, and all lie in their buffers past the headers. */
  lemma BlocksAreDisjointInMemory(view: View, i: nat, k: nat, j: nat, m: nat)
    requires LegalView(view)
    requires i < |view| && view[i].Some? && k < view[i].value.Count()
    requires j < |view| && view[j].Some? && m < view[j].value.Count()
    requires (i, k) != (j, m)
    ensures var p, q := view[i].value, view[j].value;
            && p.base + HEADER_SIZE * p.Count() <= p.Address(k) < p.Address(k) + p.blockSize <= p.End()
            && (p.Address(k) + p.blockSize <= q.Address(m) || q.Address(m) + q.blockSize <= p.Address(k))
  {
    hide Encode, ExactSize, ExactHeadSize, PoolView.Address;
    var p, q := view[i].value, view[j].value;
    BlockIsInside(p, k);
    BlockIsInside(q, m);
    if i == j {
      if k < m {
        AddressIsMonotone(p, k, m);
      } else {
        AddressIsMonotone(p, m, k);
      }
    } else {
      assert i < j ==> RegionsApart(p, q);
      assert j < i ==> RegionsApart(q, p);
    }
  }

  // ----- specification of the operations

  /** Whether the search succeeds in slot `i`. */
  predicate FitsIn(view: View, i: nat, blockSize: Uint32, n: nat)
    requires i < |view|
  {
    view[i].Some? && view[i].value.blockSize == blockSize
    && FoundAsWritten(Encode(view[i].value.segs), n) != NO_INDEX
  }

  /** First slot from `from` on whose pool takes the request, or the table size. */
  function FirstFit(view: View, blockSize: Uint32, n: nat, from: nat): (r: nat)
    requires from <= |view|
    ensures from <= r <= |view|
    ensures r < |view| ==> FitsIn(view, r, blockSize, n)
    ensures forall i :: from <= i < r ==> !FitsIn(view, i, blockSize, n)
    decreases |view| - from
  {
    if from == |view| || FitsIn(view, from, blockSize, n) then from else FirstFit(view, blockSize, n, from + 1)
  }

  /** First slot whose pool contains the address, or the table size. */
  function SlotOf(view: View, addr: nat, from: nat): (r: nat)
    requires from <= |view|
    ensures from <= r <= |view|
    ensures r < |view| ==> view[r].Some? && view[r].value.Contains(addr)
    ensures forall i :: from <= i < r ==> view[i].None? || !view[i].value.Contains(addr)
    decreases |view| - from
  {
    if from == |view| || (view[from].Some? && view[from].value.Contains(addr)) then from
    else SlotOf(view, addr, from + 1)
  }

  /** No address is contained in two pools. */
  lemma SlotIsUnique(view: View, addr: nat, i: nat)
    requires LegalView(view) && i < |view| && view[i].Some? && view[i].value.Contains(addr)
    ensures SlotOf(view, addr, 0) == i
  {
    var r := SlotOf(view, addr, 0);
  }

  /** A pool with `n` blocks allocated at its first free block. */
  function AllocateIn(p: PoolView, n: Positive): PoolView
    requires FoundAsWritten(Encode(p.segs), n) != NO_INDEX
  {
    p.(segs := Occupy(p.segs, LeastFree(Encode(p.segs)), n))
  }

  /** The state after releasing the allocation block `k` of slot `i` belongs to: a pool left
      without allocations is given up. */
  function ReleaseIn(view: View, i: nat, k: nat): View
    requires i < |view| && view[i].Some? && k < view[i].value.Count()
  {
    var segs := Vacate(view[i].value.segs, k);
    view[i := if LiveBlocks(segs) == 0 then None else Some(view[i].value.(segs := segs))]
  }

  /** A freshly set up pool. */
  function NewPool(count: Uint32, blockSize: Uint32, base: nat): PoolView {
    PoolView(blockSize, base, Repeat(Free, NewCount(count, blockSize)))
  }

  /** What the heap promises for a buffer: it overlaps no pool in use. */
  ghost predicate HeapAnswers(view: View, count: Uint32, blockSize: Uint32, heap: Option<nat>) {
    heap.Some? ==>
      forall i | 0 <= i < |view| && view[i].Some? ::
        heap.value + BufferSize(count, blockSize) <= view[i].value.base || view[i].value.End() <= heap.value
  }

  lemma NewPoolIsLegal(count: Uint32, blockSize: Uint32, base: nat)
    requires blockSize > 0 && NewCount(count, blockSize) > 0 && Fits(count, blockSize)
    ensures var p := NewPool(count, blockSize, base);
            p.Legal() && p.Count() == NewCount(count, blockSize) && p.End() <= base + BufferSize(count, blockSize)
  {
    hide Encode, ExactSize, NewCount, BufferSize;
    EncodeOfFreeRun(NewCount(count, blockSize));
    FitsIff(count, blockSize);
  }

  lemma LegalViewWithNewPool(view: View, i: nat, count: Uint32, blockSize: Uint32, heap: Option<nat>)
    requires LegalView(view) && i < |view| && view[i].None? && heap.Some?
    requires blockSize > 0 && NewCount(count, blockSize) > 0 && Fits(count, blockSize)
    requires HeapAnswers(view, count, blockSize, heap)
    ensures LegalView(view[i := Some(NewPool(count, blockSize, heap.value))])
  {
    NewPoolIsLegal(count, blockSize, heap.value);
    hide Encode, ExactSize, NewCount, BufferSize, NewPool;
  }

  /** Replacing a pool's segments by equally many blocks keeps the view legal. */
  lemma LegalViewWithSegments(view: View, i: nat, segs: seq<Segment>)
    requires LegalView(view) && i < |view| && view[i].Some?
    requires |Encode(segs)| == view[i].value.Count()
    ensures LegalView(view[i := Some(view[i].value.(segs := segs))])
  {
    hide Encode, ExactSize;
    var p, q := view[i].value, view[i].value.(segs := segs);
    assert q.End() == p.End() && q.base == p.base && q.Legal();
    var view' := view[i := Some(q)];
    forall a, b | 0 <= a < b < |view'| && view'[a].Some? && view'[b].Some?
      ensures RegionsApart(view'[a].value, view'[b].value)
    {
      assert RegionsApart(view[a].value, view[b].value);
    }
  }

  lemma LegalViewWithout(view: View, i: nat)
    requires LegalView(view) && i < |view|
    ensures LegalView(view[i := None])
  {
    hide Encode, ExactSize;
  }

  lemma OccupyKeepsCount(segs: seq<Segment>, k: nat, n: Positive)
    requires FreeRange(Encode(segs), k, n)
    ensures |Encode(Occupy(segs, k, n))| == |Encode(segs)|
  {
    OccupyCached(segs, k, n);
  }

  lemma VacateKeepsCount(segs: seq<Segment>, k: nat)
    requires k < |Encode(segs)|
    ensures |Encode(Vacate(segs, k))| == |Encode(segs)|
  {
    VacateCached(segs, k);
  }

  class Allocator {
    const slots: array<Pool?>
    var nAllocPools: nat
    var firstFreePool: nat
    ghost var view: View
    ghost var Repr: set<object>

    /** What slot `i` holds. */
    ghost predicate SlotValid(i: nat)
      requires i < slots.Length && i < |view|
      reads this`view, slots, slots[i], if slots[i] != null then {slots[i].heads} else {}
    {
      if slots[i] == null then view[i].None?
      else
        && slots[i].Valid()
        && view[i] == Some(PoolView(slots[i].blockSize, slots[i].base, slots[i].segs))
    }

    ghost predicate Valid()
      reads this, Repr
    {
      && this in Repr && slots in Repr
      && slots.Length == MAX_POOLS == |view|
      && LegalView(view)
      && (forall i | 0 <= i < MAX_POOLS && slots[i] != null :: slots[i] in Repr && slots[i].heads in Repr)
      && (forall i, j | 0 <= i < j < MAX_POOLS && slots[i] != null && slots[j] != null ::
            slots[i] != slots[j] && slots[i].heads != slots[j].heads)
      && (forall i | 0 <= i < MAX_POOLS :: SlotValid(i))
      && nAllocPools == Occupied(UsedSlots(view))
      && (firstFreePool == NO_INDEX || firstFreePool < MAX_POOLS)
    }

    /** The table with its cached index. */
    ghost function State(): Table
      reads this
    {
      Table(UsedSlots(view), firstFreePool)
    }

    constructor ()
      ensures Valid() && fresh(Repr)
      ensures view == Repeat(None, MAX_POOLS)
      ensures Least(State())
    {
      slots := new Pool?[MAX_POOLS](_ => null);
      nAllocPools, firstFreePool := 0, 0;
      view := Repeat(None, MAX_POOLS);
      Repr := {this, slots};
      new;
      assert !UsedSlots(view)[0];
      if Occupied(UsedSlots(view)) > 0 {
        OccupiedHasSlot(UsedSlots(view));
      }
    }

    /** Stores a pool that is not part of the allocator yet in free slot `f`. */
    method Install(f: nat, p: Pool)
      requires Valid() && f < MAX_POOLS && view[f].None?
      requires p !in Repr && p.heads !in Repr && p.Valid()
      requires LegalView(view[f := Some(PoolView(p.blockSize, p.base, p.segs))])
      modifies this, slots
      ensures Valid() && firstFreePool == old(firstFreePool)
      ensures view == old(view)[f := Some(PoolView(p.blockSize, p.base, p.segs))]
      ensures Repr == old(Repr) + {p, p.heads}
      ensures Occupied(UsedSlots(view)) == Occupied(UsedSlots(old(view))) + 1
    {
      hide Encode, ExactSize, UsedBlocks, LeastFree, Occupied, PoolView.End;
      OccupiedAfterSet(UsedSlots(view), f, true);
      assert SlotValid(f);
      slots[f] := p;
      view := view[f := Some(PoolView(p.blockSize, p.base, p.segs))];
      Repr := Repr + {p, p.heads};
      nAllocPools := nAllocPools + 1;
      assert UsedSlots(view) == old(UsedSlots(view))[f := true];
      assert SlotValid(f);
      forall j | 0 <= j < MAX_POOLS && j != f
        ensures SlotValid(j)
      {
        assert old(SlotValid(j));
      }
    }

    /** Least free slot from `from` on, or the table size. */
    method FindFreeSlot(from: nat) returns (i: nat)
      requires Valid() && from <= MAX_POOLS
      ensures i == NextFreeSlot(UsedSlots(view), from)
    {
      hide Encode, ExactSize, UsedBlocks, LeastFree, Occupied, LegalView;
      ghost var used := UsedSlots(view);
      i := from;
      while i < MAX_POOLS && slots[i] != null
        invariant from <= i <= MAX_POOLS && |used| == MAX_POOLS
        invariant forall j :: from <= j < i ==> used[j]
      {
        assert SlotValid(i);
        i := i + 1;
      }
      if i < MAX_POOLS {
        assert SlotValid(i);
        NextFreeIs(used, from, i);
      }
    }

    /** Sets up a pool for `count` blocks in the cached free slot. `heap` is the answer of the
        system heap: an address, or failure. */
    method RequestNewPool(count: Uint32, blockSize: Uint32, heap: Option<nat>) returns (slot: Option<nat>)
      requires Valid() && Ready(State())
      requires blockSize > 0 && NewCount(count, blockSize) > 0 && Fits(count, blockSize)
      requires HeapAnswers(view, count, blockSize, heap)
      modifies this, slots
      ensures Valid() && fresh(Repr - old(Repr))
      ensures slot == if old(firstFreePool) == NO_INDEX || heap.None? then None else Some(old(firstFreePool))
      ensures slot.None? ==> view == old(view) && State() == old(State())
      ensures slot.Some? ==>
        && slot.value < |view| && heap.Some?
        && view == old(view)[slot.value := Some(NewPool(count, blockSize, heap.value))]
        && RequestSlot(old(State())) == Taken(slot.value, State())
    {
      hide Encode, ExactSize, NewCount, BufferSize, UsedBlocks, LeastFree, Occupied, LegalView;
      if firstFreePool == NO_INDEX || heap.None? {
        return None;
      }
      var f := firstFreePool;
      assert UsedSlots(view)[f] == view[f].Some?;
      LegalViewWithNewPool(view, f, count, blockSize, heap);
      OccupiedFullIff(UsedSlots(view)[f := true]);
      var p := new Pool(count, blockSize, heap.value);
      Install(f, p);
      assert UsedSlots(view) == UsedSlots(old(view))[f := true];
      if nAllocPools == MAX_POOLS {
        firstFreePool := NO_INDEX;
      } else {
        var i := FindFreeSlot(firstFreePool);
        if i < MAX_POOLS {
          firstFreePool := i;
        }
      }
      return Some(f);
    }

    /** Marks an allocation in slot `i`. */
    method AllocateInSlot(i: nat, p: Pool, k: nat, n: Uint32)
      requires Valid() && i < MAX_POOLS && slots[i] == p
      requires n > 0 && FreeRange(Encode(p.segs), k, n)
      modifies this`view, p, p.heads
      ensures Valid() && State() == old(State())
      ensures old(FreeRange(Encode(p.segs), k, n))
      ensures view == old(view)[i := Some(PoolView(p.blockSize, p.base, Occupy(old(p.segs), k, n)))]
    {
      hide Encode, ExactSize, UsedBlocks, LeastFree, Occupied, LegalView, Occupy;
      assert SlotValid(i);
      OccupyKeepsCount(p.segs, k, n);
      LegalViewWithSegments(view, i, Occupy(p.segs, k, n));
      p.Allocate(k, n);
      view := view[i := Some(PoolView(p.blockSize, p.base, p.segs))];
      assert SlotValid(i);
      forall j | 0 <= j < MAX_POOLS && j != i
        ensures SlotValid(j)
      {
        assert old(SlotValid(j));
      }
      assert UsedSlots(view) == UsedSlots(old(view));
    }

    /** Index of the last free slot from `from` on, or the table size: the loop does not stop
        at the first one. */
    method FindLastFreeSlot(from: nat) returns (last: nat)
      requires slots.Length == MAX_POOLS == |view| && from <= MAX_POOLS
      requires forall i | 0 <= i < MAX_POOLS :: slots[i] == null <==> view[i].None?
      ensures last == LastFreeSlot(UsedSlots(view), from)
    {
      ghost var used := UsedSlots(view);
      last := MAX_POOLS;
      for i := from to MAX_POOLS
        invariant last == MAX_POOLS || (from <= last < i && !used[last])
        invariant last < MAX_POOLS ==> forall j :: last < j < i ==> used[j]
        invariant last == MAX_POOLS ==> forall j :: from <= j < i ==> used[j]
      {
        if slots[i] == null {
          last := i;
        }
      }
      LastFreeIs(used, from, last);
    }

    /** Zeroes the headers of the allocation that starts at block `k` of slot `i`, and gives the
        pool up if that leaves it empty. */
    method ReleaseInSlot(i: nat, p: Pool, k: nat)
      requires Valid() && i < MAX_POOLS && slots[i] == p
      requires k < p.heads.Length && |Encode(p.segs)| == p.heads.Length && k == Start(p.segs, SegmentOf(p.segs, k))
      modifies this, slots, p, p.heads
      ensures Valid() && Repr == old(Repr)
      ensures old(view[i].Some? && k < view[i].value.Count()) && view == ReleaseIn(old(view), i, k)
      ensures State() == if view[i].Some? then old(State()) else ReleaseSlot(old(State()), i)
    {
      hide Encode, ExactSize, UsedBlocks, LeastFree, Occupied, LegalView, Vacate, SegmentOf, LiveBlocks, Start,
           LastFreeSlot, RegionsApart;
      assert SlotValid(i);
      VacateKeepsCount(p.segs, k);
      LegalViewWithSegments(view, i, Vacate(p.segs, k));
      forall j | 0 <= j < MAX_POOLS
        ensures slots[j] == null <==> view[j].None?
      {
        assert SlotValid(j);
      }
      var empty := p.Release(k);
      if empty {
        GiveUpSlot(i);
      } else {
        view := view[i := Some(PoolView(p.blockSize, p.base, p.segs))];
        assert UsedSlots(view) == UsedSlots(old(view));
        assert SlotValid(i);
      }
      forall j | 0 <= j < MAX_POOLS && j != i
        ensures SlotValid(j)
      {
        assert old(SlotValid(j));
      }
    }

    /** The table updates for a pool that is given up. */
    method GiveUpSlot(i: nat)
      requires slots.Length == MAX_POOLS == |view| && i < MAX_POOLS && slots[i] != null
      requires LegalView(view) && nAllocPools == Occupied(UsedSlots(view))
      requires forall j | 0 <= j < MAX_POOLS :: slots[j] == null <==> view[j].None?
      modifies this, slots
      ensures slots[i] == null && forall j | 0 <= j < MAX_POOLS && j != i :: slots[j] == old(slots[j])
      ensures view == old(view)[i := None] && LegalView(view) && nAllocPools == Occupied(UsedSlots(view))
      ensures State() == ReleaseSlot(old(State()), i) && Repr == old(Repr)
      ensures firstFreePool < MAX_POOLS || firstFreePool == old(firstFreePool)
    {
      LegalViewWithout(view, i);
      hide LegalView;
      OccupiedAfterSet(UsedSlots(view), i, false);
      var last := FindLastFreeSlot(i);
      if last < MAX_POOLS {
        firstFreePool := last;
      }
      slots[i] := null;
      view := view[i := None];
      nAllocPools := nAllocPools - 1;
      assert UsedSlots(view) == UsedSlots(old(view))[i := false];
    }

    /** The pool whose buffer contains an address. The scan ends once as many pools were passed
        as are allocated. */
    method LocateBlock(addr: nat) returns (r: nat)
      requires Valid()
      ensures r == if SlotOf(view, addr, 0) < MAX_POOLS then SlotOf(view, addr, 0) else NO_INDEX
    {
      hide Encode, ExactSize, UsedBlocks, LeastFree, Occupied, LegalView, PoolSize;
      ghost var used := UsedSlots(view);
      var i, j := 0, 0;
      assert used[..0] == [];
      NoneOccupiedOfNothing();
      while i < MAX_POOLS && j < nAllocPools
        invariant i <= MAX_POOLS && |used| == MAX_POOLS
        invariant j == Occupied(used[..i])
        invariant forall m :: 0 <= m < i ==> view[m].None? || !view[m].value.Contains(addr)
      {
        assert SlotValid(i);
        ScanStep(used, i);
        if slots[i] != null {
          InsideIsContains(slots[i], addr);
          if slots[i].IsInside(addr) {
            SlotOfIs(view, addr, 0, i);
            return i;
          }
          j := j + 1;
        }
        i := i + 1;
      }
      if i < MAX_POOLS {
        ScanMayStop(used, i);
      }
      SlotOfNone(view, addr);
      return NO_INDEX;
    }

    /** The first pool that takes a request, and the index its search found. */
    method FindPool(blockSize: Uint32, n: Uint32) returns (r: nat, k: nat)
      requires Valid() && n > 0
      ensures r == FirstFit(view, blockSize, n, 0)
      ensures r < MAX_POOLS ==> k == FoundAsWritten(Encode(view[r].value.segs), n)
    {
      hide Encode, ExactSize, UsedBlocks, LeastFree, Occupied, LegalView, FoundAsWritten;
      ghost var used := UsedSlots(view);
      var i, j := 0, 0;
      k := 0;
      assert used[..0] == [];
      NoneOccupiedOfNothing();
      while i < MAX_POOLS && j < nAllocPools
        invariant i <= MAX_POOLS && |used| == MAX_POOLS
        invariant j == Occupied(used[..i])
        invariant forall m :: 0 <= m < i ==> !FitsIn(view, m, blockSize, n)
      {
        assert SlotValid(i);
        ScanStep(used, i);
        if slots[i] != null {
          if slots[i].blockSize == blockSize {
            k := slots[i].FindRange(n);
            if k != NO_INDEX {
              FirstFitIs(view, blockSize, n, i);
              return i, k;
            }
          }
          j := j + 1;
        }
        i := i + 1;
      }
      if i < MAX_POOLS {
        ScanMayStop(used, i);
      }
      FirstFitIs(view, blockSize, n, MAX_POOLS);
      return MAX_POOLS, 0;
    }

    /** Finds a place for the request and marks it. */
    method Place(blockSize: Uint32, n: Uint32, heap: Option<nat>) returns (addr: Option<nat>)
      requires Valid() && LegalBlockSize(blockSize) && n > 0
      requires FirstFit(view, blockSize, n, 0) == MAX_POOLS ==>
        Ready(State()) && n <= NewCount(DEFAULT_BLOCK_COUNT, blockSize)
        && HeapAnswers(view, DEFAULT_BLOCK_COUNT, blockSize, heap)
      modifies Repr
      ensures Valid() && fresh(Repr - old(Repr))
      ensures old(AllocReady(view, blockSize, n))
      ensures (view, addr) == Allocated(old(view), old(firstFreePool), blockSize, n, heap)
      ensures State() ==
        if FirstFit(old(view), blockSize, n, 0) < MAX_POOLS || addr.None? then old(State())
        else RequestSlot(old(State())).next
    {
      hide Encode, ExactSize, ExactHeadSize, HeadSize, UsedBlocks, LeastFree, Occupied, LegalView,
           FreeRange, NewCount, NewPool, Occupy, FirstFit, BufferSize;
      var i, k := FindPool(blockSize, n);
      ghost var before := view;
      if i < MAX_POOLS {
        assert SlotValid(i);
        FoundIsFree(Encode(slots[i].segs), n);
        InsideIsContains(slots[i], 0);
        addr := Some(slots[i].BlockAddress(k));
        BlockAddressIsAddress(slots[i], k);
        AllocateInSlot(i, slots[i], k, n);
        assert view == before[i := Some(AllocateIn(before[i].value, n))];
        assert addr == Some(before[i].value.Address(LeastFree(Encode(before[i].value.segs))));
      } else {
        AdjustedPoolFits(DEFAULT_BLOCK_COUNT, blockSize);
        NewPoolIsSearched(DEFAULT_BLOCK_COUNT, blockSize, if heap.Some? then heap.value else 0, n);
        var slot := RequestNewPool(DEFAULT_BLOCK_COUNT, blockSize, heap);
        if slot.None? {
          return None;
        }
        assert SlotValid(slot.value);
        var p := slots[slot.value];
        addr := Some(p.BlockAddress(0));
        BlockAddressIsAddress(p, 0);
        FoundIsFree(Encode(p.segs), n);
        AllocateInSlot(slot.value, p, 0, n);
        assert view[slot.value] == Some(AllocateIn(NewPool(DEFAULT_BLOCK_COUNT, blockSize, heap.value), n));
        assert view == before[slot.value := view[slot.value]];
      }
    }

    /** Allocates `n` consecutive blocks: in the first pool whose search succeeds, or at the
        start of a new pool. The code relies on its caller for the case that a new pool is
        needed: the cached slot must be usable and the request must fit a pool made for the
        default count. */
    method Alloc(blockSize: Uint32, n: Uint32, heap: Option<nat>) returns (addr: Option<nat>)
      requires Valid() && LegalBlockSize(blockSize) && n > 0
      requires FirstFit(view, blockSize, n, 0) == MAX_POOLS ==>
        Ready(State()) && n <= NewCount(DEFAULT_BLOCK_COUNT, blockSize)
        && HeapAnswers(view, DEFAULT_BLOCK_COUNT, blockSize, heap)
      modifies Repr
      ensures Valid() && fresh(Repr - old(Repr))
      ensures old(AllocReady(view, blockSize, n))
      ensures (view, addr) == Allocated(old(view), old(firstFreePool), blockSize, n, heap)
      ensures State() ==
        if FirstFit(old(view), blockSize, n, 0) < MAX_POOLS || addr.None? then old(State())
        else RequestSlot(old(State())).next
      ensures addr.None? <==>
        (forall j | 0 <= j < MAX_POOLS :: !CanServe(old(view), j, blockSize, n)) && (old(firstFreePool) == NO_INDEX || heap.None?)
      ensures forall j | 0 <= j < MAX_POOLS && CanServe(old(view), j, blockSize, n)
                         && (forall m | 0 <= m < j :: !CanServe(old(view), m, blockSize, n)) ::
        var p, k := old(view)[j].value, LeastFree(Encode(old(view)[j].value.segs));
        && p.blockSize == blockSize && addr == Some(p.Address(k))
        && view == old(view)[j := Some(p.(segs := Occupy(p.segs, k, n)))] && State() == old(State())
      ensures addr.Some? && (forall j | 0 <= j < MAX_POOLS :: !CanServe(old(view), j, blockSize, n)) ==>
        var m := NewCount(DEFAULT_BLOCK_COUNT, blockSize);
        && n <= m && heap.Some? && old(firstFreePool) < MAX_POOLS && addr == Some(heap.value + ExactHeadSize(m))
        && view == old(view)[old(firstFreePool) := Some(PoolView(blockSize, heap.value, [Live(n)] + Repeat(Segment.Free, m - n)))]
    {
      hide Encode, ExactHeadSize, UsedBlocks, LeastFree, Occupied, LegalView, CanServe, NewCount, NewPool, Occupy, FirstFit,
           AllocReady, Allocated, HeapAnswers, RequestSlot;
      ReadyForPlace(view, blockSize, n);
      RequestIsServed(view, firstFreePool, blockSize, n, heap);
      addr := Place(blockSize, n, heap);
    }

    /** Sets up a pool for `n` blocks without allocating any. The block size may be any for which
        the new pool fits its buffer; the count requested is reached exactly if nothing wraps. */
    method Reserve(blockSize: Uint32, n: Uint32, heap: Option<nat>) returns (ok: bool)
      requires Valid() && Ready(State()) && n > 0
      requires blockSize > 0 && NewCount(n, blockSize) > 0 && Fits(n, blockSize)
      requires HeapAnswers(view, n, blockSize, heap)
      modifies this, slots
      ensures Valid() && fresh(Repr - old(Repr))
      ensures ok <==> old(firstFreePool) != NO_INDEX && heap.Some?
      ensures if !ok then view == old(view) && State() == old(State())
              else
                && old(firstFreePool) < |view|
                && view == old(view)[old(firstFreePool) := Some(NewPool(n, blockSize, heap.value))]
                && (view[old(firstFreePool)].value.Count() >= n <==> RoundToPages(ExactSize(n, blockSize)) < UINT32_RANGE)
                && RequestSlot(old(State())) == Taken(old(firstFreePool), State())
    {
      hide Encode, ExactSize, NewCount, BufferSize, RoundToPages, LegalView, Fits;
      RequestIsCoveredIffNoWrap(n, blockSize);
      var slot := RequestNewPool(n, blockSize, heap);
      ok := slot.Some?;
      if ok {
        NewPoolIsLegal(n, blockSize, heap.value);
      }
    }

    /** The pool an address lies in, and the first header of the allocation it belongs to. */
    method HeaderFor(addr: nat) returns (i: nat, k: nat)
      requires Valid()
      requires SlotOf(view, addr, 0) < MAX_POOLS ==> view[SlotOf(view, addr, 0)].value.InBlocks(addr)
      ensures SlotOf(view, addr, 0) == MAX_POOLS ==> i == NO_INDEX
      ensures SlotOf(view, addr, 0) < MAX_POOLS ==>
        && i == SlotOf(view, addr, 0) && slots[i] != null
        && k < slots[i].heads.Length == |Encode(slots[i].segs)| == view[i].value.Count()
        && LocatesSegment(view[i].value, addr, k)
    {
      hide Encode, UsedBlocks, LeastFree, Occupied, ExactSize, ExactHeadSize, HeadSize, SegmentOf, Start, SlotOf;
      k := 0;
      i := LocateBlock(addr);
      if i == NO_INDEX {
        return;
      }
      assert SlotValid(i);
      var p := slots[i];
      InsideIsContains(p, addr);
      BlockAddressIsAddress(p, 0);
      AddressIsInItsBlock(view[i].value, addr);
      var b := p.BlockIndex(addr);
      assert b == view[i].value.BlockAt(addr);
      k := p.FirstHeader(b);
      SegmentStart(p.segs, b);
    }

    /** Releases the allocation a byte address belongs to; no address and foreign addresses are
        ignored. Addresses inside a header section are not meant to be passed. */
    method Free(addr: Option<nat>)
      requires Valid()
      requires addr.Some? && SlotOf(view, addr.value, 0) < MAX_POOLS ==>
        view[SlotOf(view, addr.value, 0)].value.InBlocks(addr.value)
      modifies Repr
      ensures Valid() && Repr == old(Repr)
      ensures addr.None? || SlotOf(old(view), addr.value, 0) == MAX_POOLS ==>
        view == old(view) && State() == old(State())
      ensures addr.Some? && SlotOf(old(view), addr.value, 0) < MAX_POOLS ==>
        var i := SlotOf(old(view), addr.value, 0);
        var p := old(view)[i].value;
        && p.blockSize > 0 && p.BlockAt(addr.value) < p.Count()
        && view == ReleaseIn(old(view), i, p.BlockAt(addr.value))
        && State() == if view[i].Some? then old(State()) else ReleaseSlot(old(State()), i)
    {
      hide Encode, UsedBlocks, LeastFree, Occupied, ExactSize, ExactHeadSize, HeadSize, SegmentOf, Start, SlotOf, Vacate, LiveBlocks;
      if addr.None? {
        return;
      }
      var i, k := HeaderFor(addr.value);
      if i == NO_INDEX {
        return;
      }
      AddressIsInItsBlock(view[i].value, addr.value);
      assert SlotValid(i);
      VacateFromStart(slots[i].segs, view[i].value.BlockAt(addr.value));
      ReleaseInSlot(i, slots[i], k);
    }

    /** Size in bytes of the allocation an address belongs to. */
    method GetAllocSize(addr: nat) returns (size: nat)
      requires Valid()
      requires SlotOf(view, addr, 0) < MAX_POOLS ==> view[SlotOf(view, addr, 0)].value.InBlocks(addr)
      ensures SlotOf(view, addr, 0) == MAX_POOLS ==> size == 0
      ensures SlotOf(view, addr, 0) < MAX_POOLS ==>
        var p := view[SlotOf(view, addr, 0)].value;
        && p.blockSize > 0 && p.BlockAt(addr) < p.Count()
        && size == p.blockSize * SegmentBlocks(p.segs, p.BlockAt(addr)) < UINT32_RANGE
    {
      hide Encode, UsedBlocks, LeastFree, Occupied, ExactSize, ExactHeadSize, HeadSize, SegmentOf, Start, SlotOf, SegmentBlocks;
      var i, k := HeaderFor(addr);
      if i == NO_INDEX {
        return 0;
      }
      AddressIsInItsBlock(view[i].value, addr);
      assert SlotValid(i);
      var p := slots[i];
      assert p.heads[..][k] == p.heads[k];
      LengthFromStart(p.segs, view[i].value.BlockAt(addr));
      size := p.blockSize * (if p.heads[k].single then 1 else p.heads[k].multi);
      AllocationIsSmall(view[i].value, view[i].value.BlockAt(addr));
    }

    /** Block size of the pool an address lies in; 0 for a foreign address. */
    method GetBlockSize(addr: nat) returns (size: nat)
      requires Valid()
      ensures size == if SlotOf(view, addr, 0) < MAX_POOLS then view[SlotOf(view, addr, 0)].value.blockSize else 0
    {
      var i := LocateBlock(addr);
      if i == NO_INDEX {
        return 0;
      }
      assert SlotValid(i);
      return slots[i].blockSize;
    }
  }

  // ----- what the operations compute

  /** A request that finds no pool must fit a new one. */
  predicate AllocReady(view: View, blockSize: Uint32, n: Uint32) {
    && LegalBlockSize(blockSize) && n > 0
    && (FirstFit(view, blockSize, n, 0) == |view| ==> n <= NewCount(DEFAULT_BLOCK_COUNT, blockSize))
  }

  /** State and address after an allocation request. */
  function Allocated(view: View, firstFree: nat, blockSize: Uint32, n: Uint32, heap: Option<nat>): (View, Option<nat>)
    requires AllocReady(view, blockSize, n) && |view| < NO_INDEX
    requires firstFree == NO_INDEX || firstFree < |view|
  {
    var i := FirstFit(view, blockSize, n, 0);
    if i < |view| then
      var p := view[i].value;
      (view[i := Some(AllocateIn(p, n))], Some(p.Address(LeastFree(Encode(p.segs)))))
    else if firstFree == NO_INDEX || heap.None? then (view, None)
    else
      var p := NewPool(DEFAULT_BLOCK_COUNT, blockSize, heap.value);
      NewPoolIsSearched(DEFAULT_BLOCK_COUNT, blockSize, heap.value, n);
      (view[firstFree := Some(AllocateIn(p, n))], Some(p.Address(0)))
  }

  /** Slot `j` holds a pool of the very block size, and the run at its first free block is long
      enough. */
  predicate CanServe(view: View, j: nat, blockSize: Uint32, n: nat)
    requires j < |view|
  {
    && view[j].Some? && view[j].value.blockSize == blockSize
    && FreeRange(Encode(view[j].value.segs), LeastFree(Encode(view[j].value.segs)), n)
  }

  lemma FitsIfCanServe(view: View, j: nat, blockSize: Uint32, n: Uint32)
    requires LegalView(view) && j < |view| && n > 0
    ensures FitsIn(view, j, blockSize, n) <==> CanServe(view, j, blockSize, n)
  {
    if view[j].Some? {
      CountIsBounded(view[j].value.Count(), view[j].value.blockSize);
    }
  }

  /** Main result on service: a request fails exactly if no pool in use can serve it and no new one
      can be had; the least slot that can serve it does, at its first free block; otherwise the
      new pool does, at its first block. */
  lemma RequestIsServed(view: View, firstFree: nat, blockSize: Uint32, n: Uint32, heap: Option<nat>)
    requires LegalView(view) && AllocReady(view, blockSize, n) && (firstFree == NO_INDEX || firstFree < |view|)
    ensures |view| < NO_INDEX
    ensures var (view', addr) := Allocated(view, firstFree, blockSize, n, heap);
            && (addr.None? <==>
                 (forall j | 0 <= j < |view| :: !CanServe(view, j, blockSize, n)) && (firstFree == NO_INDEX || heap.None?))
            && (forall j | 0 <= j < |view| && CanServe(view, j, blockSize, n)
                           && (forall m | 0 <= m < j :: !CanServe(view, m, blockSize, n)) ::
                 var p, k := view[j].value, LeastFree(Encode(view[j].value.segs));
                 && addr == Some(p.Address(k)) && view' == view[j := Some(p.(segs := Occupy(p.segs, k, n)))]
                 && UsedSlots(view') == UsedSlots(view) && FirstFit(view, blockSize, n, 0) == j)
            && (addr.Some? && (forall j | 0 <= j < |view| :: !CanServe(view, j, blockSize, n)) ==>
                 var m := NewCount(DEFAULT_BLOCK_COUNT, blockSize);
                 && n <= m && heap.Some? && firstFree < |view| && addr == Some(heap.value + ExactHeadSize(m))
                 && view' == view[firstFree := Some(PoolView(blockSize, heap.value, [Live(n)] + Repeat(Free, m - n)))])
  {
    hide Encode, ExactHeadSize, ExactSize, LeastFree, Occupy, LegalView, FreeRange, NewCount, CanServe, FoundAsWritten, NewPool,
         UsedSlots;
    SizeOfView(view);
    FirstFitServes(view, blockSize, n);
    var i := FirstFit(view, blockSize, n, 0);
    hide FirstFit;
    if i < |view| {
      PoolKeepsSlot(view, i, AllocateIn(view[i].value, n));
    } else if firstFree != NO_INDEX && heap.Some? {
      NewPoolIsSearched(DEFAULT_BLOCK_COUNT, blockSize, heap.value, n);
      NewPoolOccupied(blockSize, heap.value, n);
    }
  }

  /** The first fit is the least slot that can serve. */
  lemma FirstFitServes(view: View, blockSize: Uint32, n: Uint32)
    requires LegalView(view) && n > 0
    ensures var i := FirstFit(view, blockSize, n, 0);
            && (i < |view| ==> CanServe(view, i, blockSize, n))
            && forall m | 0 <= m < i :: !CanServe(view, m, blockSize, n)
  {
    var i := FirstFit(view, blockSize, n, 0);
    hide CanServe, FitsIn, LegalView;
    forall j | 0 <= j < |view|
      ensures FitsIn(view, j, blockSize, n) <==> CanServe(view, j, blockSize, n)
    {
      FitsIfCanServe(view, j, blockSize, n);
    }
  }

  lemma ReadyForPlace(view: View, blockSize: Uint32, n: Uint32)
    requires LegalView(view) && LegalBlockSize(blockSize) && n > 0
    requires FirstFit(view, blockSize, n, 0) == MAX_POOLS ==> n <= NewCount(DEFAULT_BLOCK_COUNT, blockSize)
    ensures AllocReady(view, blockSize, n)
  {
  }

  lemma SizeOfView(view: View)
    requires LegalView(view)
    ensures |view| == MAX_POOLS < NO_INDEX
  {
  }

  lemma PoolKeepsSlot(view: View, i: nat, p: PoolView)
    requires i < |view| && view[i].Some?
    ensures UsedSlots(view[i := Some(p)]) == UsedSlots(view)
  {
  }

  lemma NewPoolOccupied(blockSize: Uint32, base: nat, n: Uint32)
    requires blockSize > 0 && 0 < n <= NewCount(DEFAULT_BLOCK_COUNT, blockSize)
    ensures var p, m := NewPool(DEFAULT_BLOCK_COUNT, blockSize, base), NewCount(DEFAULT_BLOCK_COUNT, blockSize);
            && FoundAsWritten(Encode(p.segs), n) != NO_INDEX
            && AllocateIn(p, n) == PoolView(blockSize, base, [Live(n)] + Repeat(Free, m - n))
            && p.Address(0) == base + ExactHeadSize(m)
  {
    hide Encode, ExactHeadSize, NewCount, Occupy, SegmentOf;
    var p, m := NewPool(DEFAULT_BLOCK_COUNT, blockSize, base), NewCount(DEFAULT_BLOCK_COUNT, blockSize);
    EncodeOfFreeRun(m);
    NewPoolIsSearched(DEFAULT_BLOCK_COUNT, blockSize, base, n);
    FoundIsFree(Encode(p.segs), n);
    OccupiedSegment(p.segs, 0, n);
    FreeRunStartsAtZero(m);
    var segs' := Occupy(p.segs, 0, n);
    assert segs' == segs'[..0] + [segs'[0]] + segs'[1..];
    assert Repeat(Free, m)[n..] == Repeat(Free, m - n);
  }

  lemma FreeRunStartsAtZero(m: nat)
    requires m > 0
    ensures |Encode(Repeat(Free, m))| == m && SegmentOf(Repeat(Free, m), 0) == 0
  {
    EncodeOfFreeRun(m);
  }

  /** Length in blocks of the allocation that block `b` belongs to; 0 for a free block. */
  function SegmentBlocks(segs: seq<Segment>, b: nat): nat
    requires b < |Encode(segs)|
  {
    var seg := segs[SegmentOf(segs, b)];
    if seg.Live? then seg.blocks else 0
  }

  predicate LocatesSegment(p: PoolView, addr: nat, k: nat) {
    && p.blockSize > 0 && Address0(p) <= addr && p.BlockAt(addr) < p.Count()
    && k == Start(p.segs, SegmentOf(p.segs, p.BlockAt(addr)))
  }

  function Address0(p: PoolView): nat {
    p.Address(0)
  }

  lemma FoundIsFree(h: seq<Head>, n: nat)
    requires FoundAsWritten(h, n) != NO_INDEX
    ensures FoundAsWritten(h, n) == LeastFree(h) && FreeRange(h, LeastFree(h), n)
  {
  }

  /** Where the search would find a request in a new pool. */
  lemma NewPoolIsSearched(count: Uint32, blockSize: Uint32, base: nat, n: Uint32)
    requires blockSize > 0 && n > 0
    ensures var h := Encode(NewPool(count, blockSize, base).segs);
            if n <= NewCount(count, blockSize) then FoundAsWritten(h, n) == 0 == LeastFree(h)
            else FoundAsWritten(h, n) == NO_INDEX
  {
    hide NewCount, Encode;
    EncodeOfFreeRun(NewCount(count, blockSize));
    var h := Repeat(FREE_HEAD, NewCount(count, blockSize));
    LeastFreeIs(h, 0);
  }

  /** Main result on the missing check: a request is placed at block 0 of a new pool without any
      search. Its blocks stay in the pool, and its headers in the header array, if and only if it
      does not exceed the new count; the padding holds one header more if the count is odd. */
  lemma NewPoolTakesIff(count: Uint32, blockSize: Uint32, base: nat, n: Uint32)
    requires blockSize > 0
    ensures var p, m := NewPool(count, blockSize, base), NewCount(count, blockSize);
            && p.Count() == m
            && (p.Address(n) <= p.End() <==> n <= m)
            && (p.HeaderAddress(n) <= p.HeaderAddress(m) <==> n <= m)
            && (p.HeaderAddress(n) <= p.Address(0) <==> n <= m + m % 2)
  {
    hide NewCount, Encode;
    var m := NewCount(count, blockSize);
    EncodeOfFreeRun(m);
    PaddingIsZeroOrEight(m);
    if n < m {
      BlockEnds(blockSize, n, m);
    } else if m < n {
      BlockEnds(blockSize, m, n);
    }
  }

  /** A request the code does not check: 257 blocks of 8 bytes, for which the new pool has only
      256. The last block lies behind the buffer, and its header on the first block. */
  lemma LargeRequestOverrunsNewPool(base: nat)
    ensures var p := NewPool(DEFAULT_BLOCK_COUNT, 8, base);
            && p.Count() == 256 && !AllocReady(Repeat(None, MAX_POOLS), 8, 257)
            && p.Address(256) == p.End() == base + BufferSize(DEFAULT_BLOCK_COUNT, 8)
            && p.HeaderAddress(256) == p.Address(0)
  {
    assert HeadSize(128) == 1024 && PoolSize(128, 8) == 2048 && BufferSize(128, 8) == 4096;
    NewPoolTakesIff(DEFAULT_BLOCK_COUNT, 8, base, 257);
    FirstFitIs(Repeat(None, MAX_POOLS), 8, 257, MAX_POOLS);
  }

  lemma BlockAddressIsAddress(p: Pool, k: nat)
    requires p.Valid()
    ensures p.BlockAddress(k) == PoolView(p.blockSize, p.base, p.segs).Address(k)
  {
    hide Encode, ExactSize, ExactHeadSize, HeadSize, UsedBlocks, LeastFree;
    NothingWraps(p.blockCount, p.blockSize);
  }

  lemma SegmentStart(segs: seq<Segment>, b: nat)
    requires b < |Encode(segs)|
    ensures Start(segs, SegmentOf(segs, b)) <= b
  {
    SegmentCovers(segs, b);
  }

  /** Walking back does not change which segment is meant. */
  lemma StartOfStart(segs: seq<Segment>, b: nat)
    requires b < |Encode(segs)|
    ensures var k := Start(segs, SegmentOf(segs, b));
            k < |Encode(segs)| && SegmentOf(segs, k) == SegmentOf(segs, b)
  {
    SegmentCovers(segs, b);
    hide Encode, SegmentOf, Start;
    SegmentIsUnique(segs, Start(segs, SegmentOf(segs, b)), SegmentOf(segs, b));
  }

  lemma VacateFromStart(segs: seq<Segment>, b: nat)
    requires b < |Encode(segs)|
    ensures var k := Start(segs, SegmentOf(segs, b));
            && k < |Encode(segs)| && k == Start(segs, SegmentOf(segs, k))
            && Vacate(segs, k) == Vacate(segs, b)
  {
    StartOfStart(segs, b);
  }

  lemma LengthFromStart(segs: seq<Segment>, b: nat)
    requires b < |Encode(segs)|
    ensures var k := Start(segs, SegmentOf(segs, b));
            && k < |Encode(segs)|
            && (if Encode(segs)[k].single then 1 else Encode(segs)[k].multi) == SegmentBlocks(segs, b)
  {
    hide Encode, SegmentOf;
    StartOfStart(segs, b);
    HeaderInSegment(segs, SegmentOf(segs, b), 0);
  }

  lemma AllocationIsSmall(p: PoolView, b: nat)
    requires p.Legal() && b < p.Count()
    ensures p.blockSize * SegmentBlocks(p.segs, b) < UINT32_RANGE
  {
    hide Encode, SegmentOf;
    var t := SegmentOf(p.segs, b);
    EncodeSplit(p.segs, t);
    BlockEnds(p.blockSize, SegmentBlocks(p.segs, b), p.Count() + 1);
    assert p.blockSize * (p.Count() + 1) == p.blockSize * p.Count() + p.blockSize;
  }

  lemma NoneOccupiedOfNothing()
    ensures Occupied([]) == 0
  {
  }

  lemma SlotOfIs(view: View, addr: nat, from: nat, i: nat)
    requires from <= i < |view| && view[i].Some? && view[i].value.Contains(addr)
    requires forall m :: from <= m < i ==> view[m].None? || !view[m].value.Contains(addr)
    ensures SlotOf(view, addr, from) == i
  {
  }

  lemma SlotOfNone(view: View, addr: nat)
    requires forall m :: 0 <= m < |view| ==> view[m].None? || !view[m].value.Contains(addr)
    ensures SlotOf(view, addr, 0) == |view|
  {
  }

  lemma FirstFitIs(view: View, blockSize: Uint32, n: nat, r: nat)
    requires r <= |view| && (r < |view| ==> FitsIn(view, r, blockSize, n))
    requires forall m :: 0 <= m < r ==> !FitsIn(view, m, blockSize, n)
    ensures FirstFit(view, blockSize, n, 0) == r
  {
  }

  /** The containment test of the code, on a pool and on its view. */
  lemma InsideIsContains(p: Pool, addr: nat)
    requires p.Valid()
    ensures p.IsInside(addr) <==> PoolView(p.blockSize, p.base, p.segs).Contains(addr)
    ensures PoolView(p.blockSize, p.base, p.segs).Count() == p.blockCount
  {
    hide Encode, ExactSize, PoolSize, UsedBlocks, LeastFree;
    NothingWraps(p.blockCount, p.blockSize);
  }

  lemma {:induction false} OccupiedHasSlot(used: seq<bool>)
    requires Occupied(used) > 0
    ensures exists i :: 0 <= i < |used| && used[i]
  {
    if !used[0] {
      OccupiedHasSlot(used[1..]);
      var i :| 0 <= i < |used[1..]| && used[1..][i];
      assert used[i + 1];
    }
  }

  // ----- the allocator as a whole

  /** The live allocations: slot, first block, number of blocks. */
  function LiveAllocations(view: View): (s: set<(nat, nat, nat)>)
    ensures forall a :: a in s <==> a.0 < |view| && view[a.0].Some? && (a.1, a.2) in LiveRanges(view[a.0].value.segs)
  {
    set i, r | 0 <= i < |view| && view[i].Some? && r in LiveRanges(view[i].value.segs) :: (i, r.0, r.1)
  }

  /** The address range of an allocation. */
  predicate Covers(view: View, a: (nat, nat, nat), addr: nat)
    requires a.0 < |view| && view[a.0].Some?
  {
    view[a.0].value.Address(a.1) <= addr < view[a.0].value.Address(a.1 + a.2)
  }

  lemma AddressesOfRange(p: PoolView, k: nat, n: nat, addr: nat)
    requires p.Legal() && k + n <= p.Count()
    requires p.Address(k) <= addr < p.Address(k + n)
    ensures p.InBlocks(addr) && k <= p.BlockAt(addr) < k + n
  {
    hide Encode, ExactHeadSize;
    var rest, b := addr - p.Address(0), (addr - p.Address(0)) / p.blockSize;
    assert p.Address(0) == p.base + ExactHeadSize(p.Count());
    assert p.blockSize * k <= rest < p.blockSize * (k + n);
    assert k * p.blockSize == p.blockSize * k && (k + n) * p.blockSize == p.blockSize * (k + n);
    QuotientAtLeast(rest, p.blockSize, k);
    QuotientBelow(rest, p.blockSize, k + n);
    if k + n < p.Count() {
      BlockEnds(p.blockSize, k + n, p.Count());
    }
  }

  lemma AllocationIsFound(view: View, a: (nat, nat, nat), addr: nat)
    requires LegalView(view) && a in LiveAllocations(view) && Covers(view, a, addr)
    ensures SlotOf(view, addr, 0) == a.0
    ensures var p := view[a.0].value;
            p.Legal() && p.InBlocks(addr) && a.1 <= p.BlockAt(addr) < a.1 + a.2 <= p.Count()
  {
    hide Encode, ExactHeadSize, RangesFrom, SlotOf;
    var p := view[a.0].value;
    RangeBounds(p.segs, 0, (a.1, a.2));
    AddressesOfRange(p, a.1, a.2, addr);
    SlotIsUnique(view, addr, a.0);
  }

  /** Main result: no byte belongs to two live allocations. */
  lemma AllocationsAreDisjoint(view: View, a: (nat, nat, nat), b: (nat, nat, nat), addr: nat)
    requires LegalView(view)
    ensures a in LiveAllocations(view) && b in LiveAllocations(view) && Covers(view, a, addr) && Covers(view, b, addr)
      ==> a == b
  {
    hide Encode, ExactHeadSize, RangesFrom, SlotOf, LegalView, Covers;
    if a in LiveAllocations(view) && b in LiveAllocations(view) && Covers(view, a, addr) && Covers(view, b, addr) {
      AllocationIsFound(view, a, addr);
      AllocationIsFound(view, b, addr);
      if (a.1, a.2) != (b.1, b.2) {
        LiveRangesAreApart(view[a.0].value.segs, 0, (a.1, a.2), (b.1, b.2));
      }
    }
  }

  /** Main result: every byte address of a live allocation leads to that allocation, whose
      length the size query multiplies by the block size. */
  lemma AddressLeadsToAllocation(view: View, a: (nat, nat, nat), addr: nat)
    requires LegalView(view) && a in LiveAllocations(view) && Covers(view, a, addr)
    ensures SlotOf(view, addr, 0) == a.0
    ensures var p := view[a.0].value;
            && p.Legal() && p.InBlocks(addr) && p.BlockAt(addr) < p.Count()
            && Start(p.segs, SegmentOf(p.segs, p.BlockAt(addr))) == a.1
            && SegmentBlocks(p.segs, p.BlockAt(addr)) == a.2
  {
    hide Encode, ExactHeadSize, RangesFrom, SlotOf, Covers;
    var p := view[a.0].value;
    AllocationIsFound(view, a, addr);
    LiveRangeOfBlock(p.segs, p.BlockAt(addr), (a.1, a.2));
  }

  /** Main result: a successful request adds exactly one allocation of the requested length, at
      the address returned, and changes no other; a failed one changes nothing. */
  lemma AllocAddsOne(view: View, firstFree: nat, blockSize: Uint32, n: Uint32, heap: Option<nat>)
    requires LegalView(view) && AllocReady(view, blockSize, n)
    requires firstFree == NO_INDEX || (firstFree < |view| && view[firstFree].None?)
    ensures var (view', addr) := Allocated(view, firstFree, blockSize, n, heap);
            if addr.None? then view' == view
            else exists i: nat, k: nat ::
              && i < |view'| && view'[i].Some? && addr.value == view'[i].value.Address(k)
              && (i, k, n as nat) !in LiveAllocations(view)
              && LiveAllocations(view') == LiveAllocations(view) + {(i, k, n as nat)}
  {
    hide Encode, ExactSize, ExactHeadSize, NewCount, Occupy, LeastFree, FreeRange, NewPool;
    var i := FirstFit(view, blockSize, n, 0);
    var (view', addr) := Allocated(view, firstFree, blockSize, n, heap);
    if i < |view| {
      var p := view[i].value;
      FoundIsFree(Encode(p.segs), n);
      AddedRange(view, i, p, n);
      assert addr.value == view'[i].value.Address(LeastFree(Encode(p.segs))) by {
        OccupyKeepsCount(p.segs, LeastFree(Encode(p.segs)), n);
      }
    } else if addr.Some? {
      var p := NewPool(DEFAULT_BLOCK_COUNT, blockSize, heap.value);
      NewPoolIsSearched(DEFAULT_BLOCK_COUNT, blockSize, heap.value, n);
      FoundIsFree(Encode(p.segs), n);
      NewPoolHasNoRanges(DEFAULT_BLOCK_COUNT, blockSize, heap.value);
      AddedRange(view, firstFree, p, n);
      assert addr.value == view'[firstFree].value.Address(0) by {
        OccupyKeepsCount(p.segs, 0, n);
      }
    }
  }

  lemma NewPoolHasNoRanges(count: Uint32, blockSize: Uint32, base: nat)
    ensures LiveRanges(NewPool(count, blockSize, base).segs) == {}
  {
    RangesOfFreeRun(NewCount(count, blockSize), 0);
  }

  /** Allocating in pool `p`, stored in a slot that so far held `p` or nothing. */
  lemma AddedRange(view: View, i: nat, p: PoolView, n: Uint32)
    requires i < |view| && n > 0 && FoundAsWritten(Encode(p.segs), n) != NO_INDEX
    requires if view[i].Some? then view[i].value == p else LiveRanges(p.segs) == {}
    ensures var added := (i, LeastFree(Encode(p.segs)), n as nat);
            && added !in LiveAllocations(view)
            && LiveAllocations(view[i := Some(AllocateIn(p, n))]) == LiveAllocations(view) + {added}
  {
    hide Encode, Occupy, LeastFree, LiveRanges, LiveAllocations;
    var k := LeastFree(Encode(p.segs));
    FoundIsFree(Encode(p.segs), n);
    OccupyAddsOneRange(p.segs, k, n);
    var view' := view[i := Some(AllocateIn(p, n))];
    assert (k, n as nat) !in LiveRanges(p.segs);
    forall a: (nat, nat, nat) | a.0 != i
      ensures a in LiveAllocations(view') <==> a in LiveAllocations(view)
    {
    }
    assert LiveRanges(view'[i].value.segs) == LiveRanges(p.segs) + {(k, n as nat)};
  }

  /** A release of block `b` of slot `i` removes the segment of that block, and nothing else. */
  lemma ReleaseRemovesSegment(view: View, i: nat, b: nat)
    requires i < |view| && view[i].Some? && b < view[i].value.Count()
    ensures var segs := view[i].value.segs;
            var own := (i, Start(segs, SegmentOf(segs, b)), segs[SegmentOf(segs, b)].Len() as nat);
            && LiveAllocations(ReleaseIn(view, i, b)) == LiveAllocations(view) - {own}
            && (segs[SegmentOf(segs, b)].Live? <==> own in LiveAllocations(view))
  {
    hide Encode, Vacate, LiveRanges, LiveAllocations, SegmentOf, Start;
    var p := view[i].value;
    VacateRemovesOneRange(p.segs, b);
    var view' := ReleaseIn(view, i, b);
    NoLiveBlocksNoRanges(Vacate(p.segs, b));
    forall c: (nat, nat, nat) | c.0 == i
      ensures c in LiveAllocations(view') <==> (c.1, c.2) in LiveRanges(Vacate(p.segs, b))
    {
    }
    forall c: (nat, nat, nat) | c.0 != i
      ensures c in LiveAllocations(view') <==> c in LiveAllocations(view)
    {
    }
  }

  /** When a pool is given up: exactly if it has no live allocation but the released one. Otherwise
      it keeps its place, and no other slot is touched in any case. */
  lemma GivenUpIff(view: View, i: nat, b: nat)
    requires i < |view| && view[i].Some? && b < view[i].value.Count()
    ensures var p, view' := view[i].value, ReleaseIn(view, i, b);
            var own := (Start(p.segs, SegmentOf(p.segs, b)), p.segs[SegmentOf(p.segs, b)].Len() as nat);
            && |view'| == |view| && (forall j | 0 <= j < |view| && j != i :: view'[j] == view[j])
            && (view'[i].None? <==> forall r | r in LiveRanges(p.segs) :: r == own)
            && (view'[i].Some? ==> view'[i] == Some(PoolView(p.blockSize, p.base, Vacate(p.segs, b))))
  {
    hide Encode, Vacate, LiveRanges, LiveBlocks, SegmentOf, Start;
    var segs := view[i].value.segs;
    VacateRemovesOneRange(segs, b);
    NoLiveBlocksNoRanges(Vacate(segs, b));
    var own := (Start(segs, SegmentOf(segs, b)), segs[SegmentOf(segs, b)].Len() as nat);
    if LiveRanges(segs) - {own} != {} {
      var r :| r in LiveRanges(segs) - {own};
    } else {
      forall r | r in LiveRanges(segs)
        ensures r == own
      {
        assert r !in LiveRanges(segs) - {own};
      }
    }
  }

  /** Main result: a release through any byte of an allocation removes exactly that allocation. */
  lemma FreeRemovesOne(view: View, a: (nat, nat, nat), addr: nat)
    requires LegalView(view) && a in LiveAllocations(view) && Covers(view, a, addr)
    ensures a.0 < |view| && view[a.0].Some? && view[a.0].value.Legal()
    ensures Address0(view[a.0].value) <= addr && view[a.0].value.BlockAt(addr) < view[a.0].value.Count()
    ensures LiveAllocations(ReleaseIn(view, a.0, view[a.0].value.BlockAt(addr))) == LiveAllocations(view) - {a}
  {
    AddressLeadsToAllocation(view, a, addr);
    hide Encode, LiveRanges, LiveAllocations, SegmentOf, Start, ReleaseIn;
    ReleaseRemovesSegment(view, a.0, view[a.0].value.BlockAt(addr));
  }

  lemma {:induction false} NoLiveBlocksNoRanges(segs: seq<Segment>)
    ensures LiveBlocks(segs) == 0 <==> LiveRanges(segs) == {}
  {
    NoLiveBlocksNoRangesFrom(segs, 0);
  }

  lemma {:induction false} NoLiveBlocksNoRangesFrom(segs: seq<Segment>, off: nat)
    ensures LiveBlocks(segs) == 0 <==> RangesFrom(segs, off) == {}
  {
    if segs != [] {
      NoLiveBlocksNoRangesFrom(segs[1..], off + segs[0].Len());
      if segs[0].Live? {
        assert (off, segs[0].blocks as nat) in RangesFrom(segs, off);
      }
    }
  }

  /** Main result: releasing through any byte of what was just allocated restores the state,
      unless the request was served by a reserved pool without allocations: that pool is then
      given up as well. */
  lemma FreeUndoesAlloc(view: View, firstFree: nat, blockSize: Uint32, n: Uint32, heap: Option<nat>, b: nat)
    requires LegalView(view) && AllocReady(view, blockSize, n)
    requires firstFree == NO_INDEX || (firstFree < |view| && view[firstFree].None?)
    ensures var i := FirstFit(view, blockSize, n, 0);
            var k := if i < |view| then LeastFree(Encode(view[i].value.segs)) else 0;
            var slot := if i < |view| then i else firstFree;
            var (view', addr) := Allocated(view, firstFree, blockSize, n, heap);
            addr.Some? && k <= b < k + n ==>
              && slot < |view'| && view'[slot].Some? && b < view'[slot].value.Count()
              && ReleaseIn(view', slot, b) ==
                   if i < |view| && LiveBlocks(view[i].value.segs) == 0 then view[i := None] else view
  {
    hide Encode, ExactSize, ExactHeadSize, NewCount, Occupy, Vacate, LeastFree, FreeRange, LiveBlocks, NewPool;
    var i := FirstFit(view, blockSize, n, 0);
    var k := if i < |view| then LeastFree(Encode(view[i].value.segs)) else 0;
    if !Allocated(view, firstFree, blockSize, n, heap).1.Some? || !(k <= b < k + n) {
    } else if i < |view| {
      var p := view[i].value;
      FoundIsFree(Encode(p.segs), n);
      VacateUndoesOccupy(p.segs, LeastFree(Encode(p.segs)), n, b);
    } else {
      var p := NewPool(DEFAULT_BLOCK_COUNT, blockSize, heap.value);
      NewPoolIsSearched(DEFAULT_BLOCK_COUNT, blockSize, heap.value, n);
      FoundIsFree(Encode(p.segs), n);
      VacateUndoesOccupy(p.segs, 0, n, b);
      NewPoolHasNoRanges(DEFAULT_BLOCK_COUNT, blockSize, heap.value);
      NoLiveBlocksNoRanges(p.segs);
    }
  }
}
