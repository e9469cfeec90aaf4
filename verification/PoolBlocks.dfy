/** One memory pool: its header array and the values cached on top of it. */
module PoolBlocks {
  import opened Arithmetic
  import opened Basics
  import opened PoolSizing
  import opened PoolLayout

  /** `UINT32_MAX`, used for "no index". */
  const NO_INDEX := UINT32_RANGE - 1

  // ----- specification of the search

  /** What the search answers as the code has it. `blockPtr` is not moved while skipping used
      blocks, so the scan leaves at the end of the pool as soon as the run at the first free
      block turns out too short. */
  function FoundAsWritten(h: seq<Head>, n: nat): nat {
    if LeastFree(h) < |h| && FreeRange(h, LeastFree(h), n) then LeastFree(h) else NO_INDEX
  }

  /** What the search is documented to answer: the first free range that is large enough. */
  predicate IsLeftmostRange(h: seq<Head>, n: nat, r: nat) {
    if r == NO_INDEX then
      forall lo: nat | lo + n <= |h| :: !FreeRange(h, lo, n)
    else
      FreeRange(h, r, n) && forall lo: nat | lo < r :: !FreeRange(h, lo, n)
  }

  lemma UsedBlockBreaksRange(h: seq<Head>, lo: nat, n: nat, p: nat)
    requires lo <= p < lo + n && p < |h| && !h[p].IsFree()
    ensures !FreeRange(h, lo, n)
  {
  }

  predicate NoRangeBefore(h: seq<Head>, n: nat, start: nat) {
    forall lo: nat | lo < start :: !FreeRange(h, lo, n)
  }

  /** A used block within `n` of `start` rules out all ranges up to it. */
  lemma RangesBrokenBy(h: seq<Head>, n: nat, start: nat, k: nat)
    requires NoRangeBefore(h, n, start)
    requires start <= k < start + n && k < |h| && !h[k].IsFree()
    ensures NoRangeBefore(h, n, k + 1)
  {
  }

  lemma NoRangeBelowFirstFree(h: seq<Head>, n: nat)
    requires n > 0
    ensures NoRangeBefore(h, n, LeastFree(h))
  {
    forall lo: nat | lo < LeastFree(h)
      ensures !FreeRange(h, lo, n)
    {
      UsedBlockBreaksRange(h, lo, n, lo);
    }
  }

  /** Main result on the search: it meets its documentation exactly when the first free block
      starts a long enough run, or no such run exists at all. */
  lemma SearchIsLeftmostIff(h: seq<Head>, n: nat)
    requires n > 0 && |h| < NO_INDEX
    ensures IsLeftmostRange(h, n, FoundAsWritten(h, n))
       <==> FreeRange(h, LeastFree(h), n) || forall lo: nat | lo + n <= |h| :: !FreeRange(h, lo, n)
  {
    NoRangeBelowFirstFree(h, n);
    assert forall lo: nat | lo < LeastFree(h) :: !FreeRange(h, lo, n);
  }

  /** A pool on which the search gives up although the request fits: free, used, free, free. */
  lemma SearchGivesUpEarly()
    ensures var h := Encode([Free, Live(1), Free, Free]);
            FreeRange(h, 2, 2) && FoundAsWritten(h, 2) == NO_INDEX
  {
    var segs := [Free, Live(1), Free, Free];
    assert segs[1..] == [Live(1), Free, Free] && segs[1..][1..] == [Free, Free] && [Free, Free][1..] == [Free];
    EncodeOfOne(Free);
    assert Encode([Free, Free]) == [FREE_HEAD, FREE_HEAD];
    assert Encode(segs[1..]) == [SINGLE_HEAD, FREE_HEAD, FREE_HEAD];
    assert Encode(segs) == [FREE_HEAD, SINGLE_HEAD, FREE_HEAD, FREE_HEAD];
    assert !Encode(segs)[1].IsFree();
  }

  // ----- lemmas on the cached values

  lemma FreeHeadIsZero(segs: seq<Segment>, i: nat)
    requires i < |Encode(segs)| && Encode(segs)[i].IsFree()
    ensures Encode(segs)[i] == FREE_HEAD
  {
    hide Encode, SegmentOf;
    SegmentCovers(segs, i);
    HeaderInSegment(segs, SegmentOf(segs, i), i - Start(segs, SegmentOf(segs, i)));
  }

  /** The used blocks of an array in which one range is replaced. */
  lemma UsedAfterReplace(h: seq<Head>, k: nat, mid: seq<Head>)
    requires k + |mid| <= |h|
    ensures UsedBlocks(h[..k] + mid + h[k + |mid|..]) == UsedBlocks(h) - UsedBlocks(h[k..k + |mid|]) + UsedBlocks(mid)
  {
    var n := |mid|;
    ReassembleThree(h, k, k + n);
    UsedOfConcat(h[..k], h[k..k + n]);
    UsedOfConcat(h[..k] + h[k..k + n], h[k + n..]);
    UsedOfConcat(h[..k], mid);
    UsedOfConcat(h[..k] + mid, h[k + n..]);
  }

  /** Headers of a segment are all free or all used. */
  lemma HeadsAreUniform(seg: Segment)
    ensures forall d :: 0 <= d < seg.Len() ==> Heads(seg)[d].IsFree() == seg.Free?
    ensures UsedBlocks(Heads(seg)) == if seg.Free? then 0 else seg.Len()
  {
    UsedOfUniform(Heads(seg), seg.Free?);
  }

  /** Cached values after an allocation. */
  lemma OccupyCached(segs: seq<Segment>, k: nat, n: Positive)
    requires FreeRange(Encode(segs), k, n)
    ensures var h, h' := Encode(segs), Encode(Occupy(segs, k, n));
            && |h'| == |h|
            && UsedBlocks(h') == UsedBlocks(h) + n
            && (forall i :: 0 <= i < k || k + n <= i < |h| ==> h'[i] == h[i])
            && (forall i :: k <= i < k + n ==> !h'[i].IsFree())
  {
    hide Encode, Occupy, Heads;
    var h := Encode(segs);
    OccupyHeaders(segs, k, n);
    UsedAfterReplace(h, k, Heads(Live(n)));
    UsedOfUniform(h[k..k + n], true);
    HeadsAreUniform(Live(n));
  }

  /** Cached values after a release. */
  lemma VacateCached(segs: seq<Segment>, i: nat)
    requires i < |Encode(segs)|
    ensures var h, h', t := Encode(segs), Encode(Vacate(segs, i)), SegmentOf(segs, i);
            && |h'| == |h|
            && UsedBlocks(h') == UsedBlocks(h) - (if segs[t].Free? then 0 else segs[t].Len())
            && LeastFree(h') == if Start(segs, t) < LeastFree(h) then Start(segs, t) else LeastFree(h)
  {
    hide Encode, Heads, Vacate, SegmentOf, UsedBlocks, Repeat;
    var h, h', t := Encode(segs), Encode(Vacate(segs, i)), SegmentOf(segs, i);
    var k, n := Start(segs, t), segs[t].Len();
    EncodeSplit(segs, t);
    VacateHeaders(segs, i);
    SliceOfConcat(h, Encode(segs[..t]), Heads(segs[t]), Encode(segs[t + 1..]));
    HeadsAreUniform(segs[t]);
    assert forall j :: k <= j < k + n ==> h[j] == h[k..k + n][j - k];
    ReplaceByFree(h, k, n, segs[t].Free?);
  }

  lemma SliceOfConcat<T>(s: seq<T>, a: seq<T>, mid: seq<T>, b: seq<T>)
    requires s == a + mid + b
    ensures s[|a|..|a| + |mid|] == mid
  {
  }

  /** Cached values after zeroing a range that was all free or all used. */
  lemma ReplaceByFree(h: seq<Head>, k: nat, n: nat, free: bool)
    requires n > 0 && k + n <= |h|
    requires forall j :: k <= j < k + n ==> h[j].IsFree() == free
    ensures var h' := h[..k] + Repeat(FREE_HEAD, n) + h[k + n..];
            && UsedBlocks(h') == UsedBlocks(h) - (if free then 0 else n)
            && LeastFree(h') == if k < LeastFree(h) then k else LeastFree(h)
  {
    hide UsedBlocks;
    var h' := h[..k] + Repeat(FREE_HEAD, n) + h[k + n..];
    UsedAfterReplace(h, k, Repeat(FREE_HEAD, n));
    UsedOfUniform(h[k..k + n], free);
    UsedOfUniform(Repeat(FREE_HEAD, n), true);
    hide LeastFree;
    LeastFreeIs(h', if k < LeastFree(h) then k else LeastFree(h));
  }

  /** The headers an allocation leaves, put together. */
  lemma MarkedHeads(before: seq<Head>, after: seq<Head>, k: nat, n: Positive)
    requires |after| == |before| && k + n <= |before|
    requires forall j :: 0 <= j < k || k + n <= j < |before| ==> after[j] == before[j]
    requires after[k] == if n == 1 then SINGLE_HEAD else Head(false, true, true, n)
    requires forall j :: k < j < k + n ==> after[j] == PART_HEAD
    ensures after == before[..k] + Heads(Live(n)) + before[k + n..]
  {
    assert after[k..k + n] == Heads(Live(n));
    assert after[..k] == before[..k] && after[k + n..] == before[k + n..];
    ReassembleThree(after, k, k + n);
  }

  /** What the walk back sees: exactly the first header of a segment stops it. */
  lemma WalkBackStep(segs: seq<Segment>, i: nat, k: nat)
    requires i < |Encode(segs)| && Start(segs, SegmentOf(segs, i)) <= k <= i
    ensures k == Start(segs, SegmentOf(segs, i)) <==> !Encode(segs)[k].partOfMulti || Encode(segs)[k].startOfMulti
  {
    var t := SegmentOf(segs, i);
    SegmentCovers(segs, i);
    hide Encode, SegmentOf;
    HeaderInSegment(segs, t, k - Start(segs, t));
  }

  /** The length read from the first header, and what zeroing that many headers gives. A free
      block reads as length 0, so nothing is zeroed. */
  lemma ReleasedLength(segs: seq<Segment>, k: nat)
    requires k < |Encode(segs)| && k == Start(segs, SegmentOf(segs, k))
    ensures var h, seg := Encode(segs), segs[SegmentOf(segs, k)];
            var n := if h[k].single then 1 else h[k].multi;
            && n == (if seg.Free? then 0 else seg.Len())
            && k + n <= |h|
            && h[..k] + Repeat(FREE_HEAD, n) + h[k + n..] == Encode(Vacate(segs, k))
  {
    hide Encode, SegmentOf, Vacate;
    var h, t := Encode(segs), SegmentOf(segs, k);
    HeaderInSegment(segs, t, 0);
    VacateHeaders(segs, k);
    if segs[t].Free? {
      VacateOfFree(segs, k);
      assert h == h[..k] + [] + h[k..];
    }
  }

  // ----- addresses

  lemma CountIsBounded(count: nat, blockSize: nat)
    requires blockSize > 0 && ExactSize(count, blockSize) < UINT32_RANGE
    ensures count < NO_INDEX
  {
    ExactSizeFactored(count, blockSize);
    hide ExactSize;
    ScaledCount(count, blockSize + HEADER_SIZE);
  }

  lemma ScaledCount(count: nat, unit: nat)
    requires unit > 8
    ensures count * unit >= 8 * count
  {
    assert count * unit == 8 * count + count * (unit - 8);
  }

  /** Position of an address within a block is lost by the division, its block is not. */
  lemma BlockOfAddress(blockSize: nat, k: nat, off: nat)
    requires off < blockSize
    ensures (blockSize * k + off) / blockSize == k
  {
    QuotientIsUnique(blockSize * k + off, blockSize, k, off);
  }

  class Pool {
    const blockSize: Uint32
    const blockCount: Uint32
    /** Address of the buffer. */
    const base: nat
    /** Header section of the buffer. */
    const heads: array<Head>
    var nAllocBlocks: Uint32
    var fFreeInd: Uint32
    /** The segments the headers stand for. */
    ghost var segs: seq<Segment>

    ghost predicate Shape()
      reads this, heads
    {
      && blockSize > 0
      && heads.Length == blockCount
      && ExactSize(blockCount, blockSize) < UINT32_RANGE
      && Encode(segs) == heads[..]
      && nAllocBlocks == UsedBlocks(heads[..])
    }

    /** Header array decodes, and the cached count and first-free index are right. */
    ghost predicate Valid()
      reads this, heads
    {
      && Shape()
      && fFreeInd == if LeastFree(heads[..]) < blockCount then LeastFree(heads[..]) else NO_INDEX
    }

    /** Pool as set up for a request of `count` blocks, with its buffer at `base`. */
    constructor (count: Uint32, blockSize: Uint32, base: nat)
      requires blockSize > 0 && NewCount(count, blockSize) > 0 && Fits(count, blockSize)
      ensures Valid() && fresh(heads)
      ensures this.blockSize == blockSize && this.base == base
      ensures blockCount == NewCount(count, blockSize)
      ensures segs == Repeat(Free, blockCount)
    {
      var n := NewCount(count, blockSize);
      this.blockSize, this.blockCount, this.base := blockSize, n, base;
      heads := new Head[n](_ => FREE_HEAD);
      nAllocBlocks, fFreeInd := 0, 0;
      segs := Repeat(Free, n);
      new;
      FitsIff(count, blockSize);
      EncodeOfFreeRun(n);
      assert heads[..] == Repeat(FREE_HEAD, n);
      UsedOfUniform(heads[..], true);
      assert heads[..][0].IsFree();
    }

    /** Address of the first byte of block `k`. */
    function BlockAddress(k: nat): nat {
      base + HeadSize(blockCount) + blockSize * k
    }

    /** Whether an address lies in the buffer. */
    predicate IsInside(addr: nat) {
      addr >= base && addr - base < PoolSize(blockCount, blockSize)
    }

    /** Whether an address lies in the block section of the buffer. */
    predicate InBlocks(addr: nat) {
      base + HeadSize(blockCount) <= addr < BlockAddress(blockCount)
    }

    /** Index of the block an address lies in. */
    function BlockIndex(addr: nat): nat
      requires blockSize > 0 && addr >= base + HeadSize(blockCount)
    {
      (addr - (base + HeadSize(blockCount))) / blockSize
    }

    /** The inner scan: first used block among the `n` from `start` on, or the end of that range. */
    method FirstUsed(start: nat, n: nat) returns (k: nat)
      requires start + n <= heads.Length
      ensures start <= k <= start + n && FreeRange(heads[..], start, k - start)
      ensures k < start + n ==> !heads[k].IsFree()
    {
      k := start;
      while k < start + n && heads[k].IsFree()
        invariant start <= k <= start + n
        invariant forall i :: start <= i < k ==> heads[i].IsFree()
      {
        k := k + 1;
      }
    }

    /** First free block if the run there is long enough; see `FoundAsWritten`. */
    method FindRange(n: Uint32) returns (r: nat)
      requires Valid() && n > 0
      ensures r == FoundAsWritten(heads[..], n)
    {
      var start := fFreeInd;
      if start == NO_INDEX {
        return NO_INDEX;
      }
      CountIsSmall();
      hide Encode, UsedBlocks, ExactSize;
      while true
        invariant start == fFreeInd || (start == blockCount && !FreeRange(heads[..], fFreeInd, n))
        decreases blockCount - start
      {
        if blockCount - start < n {
          return NO_INDEX;
        }
        var k := FirstUsed(start, n);
        if k == start + n {
          return start;
        }
        UsedBlockBreaksRange(heads[..], start, n, k);
        start := k;
        // The block inspected here stays block k; only the index moves.
        while start < blockCount && !heads[k].IsFree()
          invariant k <= start <= blockCount
        {
          start := start + 1;
        }
      }
    }

    /** The search with the inspected block advancing, as its comment describes. */
    method FindRangeAdvancing(n: Uint32) returns (r: nat)
      requires Valid() && n > 0
      ensures IsLeftmostRange(heads[..], n, r)
    {
      var start := fFreeInd;
      ghost var h := heads[..];
      NoRangeBelowFirstFree(h, n);
      if start == NO_INDEX {
        return NO_INDEX;
      }
      CountIsSmall();
      hide Encode, UsedBlocks, ExactSize;
      hide LeastFree;
      while true
        invariant start <= blockCount && NoRangeBefore(h, n, start)
        decreases blockCount - start
      {
        if blockCount - start < n {
          return NO_INDEX;
        }
        var k := FirstUsed(start, n);
        if k == start + n {
          return start;
        }
        RangesBrokenBy(h, n, start, k);
        start := k;
        while start < blockCount && !heads[start].IsFree()
          invariant k <= start <= blockCount && NoRangeBefore(h, n, start)
        {
          RangesBrokenBy(h, n, start, start);
          start := start + 1;
        }
      }
    }

    /** Least free block from `from` on, or the end of the pool. */
    method NextFree(from: nat) returns (i: nat)
      requires from <= heads.Length
      ensures from <= i <= heads.Length
      ensures forall j :: from <= j < i ==> !heads[j].IsFree()
      ensures i < heads.Length ==> heads[i].IsFree()
    {
      i := from;
      while i < heads.Length && !heads[i].IsFree()
        invariant from <= i <= heads.Length
        invariant forall j :: from <= j < i ==> !heads[j].IsFree()
      {
        i := i + 1;
      }
    }

    /** Marks the `n` free blocks from `k` on as one allocation. */
    method Allocate(k: nat, n: Uint32)
      requires Valid() && n > 0 && FreeRange(heads[..], k, n)
      modifies this, heads
      ensures Valid()
      ensures old(FreeRange(Encode(segs), k, n)) && segs == Occupy(old(segs), k, n)
    {
      hide Encode, Heads, UsedBlocks, ExactSize, Occupy, LeastFree;
      ghost var before := heads[..];
      assert before[k].IsFree();
      MarkHeaders(k, n);
      OccupyHeaders(segs, k, n);
      OccupyCached(segs, k, n);
      segs := Occupy(segs, k, n);
      nAllocBlocks := nAllocBlocks + n;
      if k == fFreeInd {
        var i := NextFree(fFreeInd);
        fFreeInd := if i < blockCount then i else NO_INDEX;
        LeastFreeIs(heads[..], i);
      } else {
        LeastFreeIs(heads[..], fFreeInd);
      }
    }

    /** The header writes of an allocation. */
    method MarkHeaders(k: nat, n: Uint32)
      requires Shape() && n > 0 && FreeRange(heads[..], k, n)
      modifies heads
      ensures heads[..] == old(heads[..])[..k] + Heads(Live(n)) + old(heads[..])[k + n..]
    {
      hide Encode, UsedBlocks, ExactSize, LeastFree, Heads;
      ghost var before := heads[..];
      forall i | k <= i < k + n
        ensures heads[i] == FREE_HEAD
      {
        assert before[i].IsFree();
        FreeHeadIsZero(segs, i);
      }
      if n != 1 {
        heads[k] := heads[k].(startOfMulti := true);
      } else {
        heads[k] := heads[k].(single := true);
      }
      if n > 1 {
        heads[k] := heads[k].(multi := n);
        for i := k to k + n
          invariant forall j :: 0 <= j < k || k + n <= j < heads.Length ==> heads[j] == before[j]
          invariant heads[k] == Head(false, true, k < i, n)
          invariant forall j :: k < j < k + n ==> heads[j] == Head(false, false, j < i, 0)
        {
          heads[i] := heads[i].(partOfMulti := true);
        }
      }
      MarkedHeads(before, heads[..], k, n);
    }

    /** Walks back from a block to the header its allocation starts at. */
    method FirstHeader(i: nat) returns (k: nat)
      requires Shape() && i < heads.Length
      ensures k == Start(segs, SegmentOf(segs, i))
    {
      hide Encode, SegmentOf, UsedBlocks, ExactSize;
      SegmentCovers(segs, i);
      k := i;
      while true
        invariant Start(segs, SegmentOf(segs, i)) <= k <= i
        decreases k
      {
        WalkBackStep(segs, i, k);
        assert heads[k] == heads[..][k];
        if !heads[k].partOfMulti || k == 0 || heads[k].startOfMulti {
          break;
        }
        k := k - 1;
      }
    }

    method ClearHeaders(k: nat, n: nat)
      requires k + n <= heads.Length
      modifies heads
      ensures heads[..] == old(heads[..])[..k] + Repeat(FREE_HEAD, n) + old(heads[..])[k + n..]
    {
      ghost var before := heads[..];
      for i := 0 to n
        invariant forall j :: 0 <= j < k || k + i <= j < heads.Length ==> heads[j] == before[j]
        invariant forall j :: k <= j < k + i ==> heads[j] == FREE_HEAD
      {
        heads[k + i] := Head(false, false, false, 0);
      }
    }

    /** Zeroes the headers of the allocation that starts at `k`. A pool left without
        allocations is not repaired: the caller discards it. */
    method Release(k: nat) returns (empty: bool)
      requires Valid() && k < heads.Length && k == Start(segs, SegmentOf(segs, k))
      modifies this, heads
      ensures Shape() && segs == Vacate(old(segs), k)
      ensures empty == (LiveBlocks(segs) == 0)
      ensures !empty ==> Valid()
    {
      hide Encode, Heads, UsedBlocks, ExactSize, LiveBlocks, SegmentOf, Vacate, LeastFree;
      ghost var before := heads[..];
      var n := if heads[k].single then 1 else heads[k].multi;
      ReleasedLength(segs, k);
      VacateCached(segs, k);
      assert before[k] == heads[k];
      ClearHeaders(k, n);
      segs := Vacate(segs, k);
      nAllocBlocks := nAllocBlocks - n;
      UsedIsLive(segs);
      empty := nAllocBlocks == 0;
      if nAllocBlocks > 0 {
        fFreeInd := if fFreeInd > k then k else fFreeInd;
      }
    }

    lemma CountIsSmall()
      requires Shape()
      ensures blockCount < NO_INDEX
    {
      CountIsBounded(blockCount, blockSize);
    }
  }
}
