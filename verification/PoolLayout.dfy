/** What a pool's header section means. A header array is read as a list of segments: a free
    block, or a live allocation of one or more consecutive blocks. */
module PoolLayout {
  import opened Basics

  /** One block header: the three flag bits of `m_blockFlags`, and `m_nMultiBlock`. */
  datatype Head = Head(single: bool, startOfMulti: bool, partOfMulti: bool, multi: nat) {
    /** `m_blockFlags == 0` */
    predicate IsFree() {
      !single && !startOfMulti && !partOfMulti
    }
  }

  const FREE_HEAD := Head(false, false, false, 0)
  const SINGLE_HEAD := Head(true, false, false, 0)
  const PART_HEAD := Head(false, false, true, 0)

  type Positive = n: int | n > 0 witness 1

  datatype Segment = Free | Live(blocks: Positive) {
    function Len(): Positive {
      if Free? then 1 else blocks
    }
  }

  function Repeat<T>(x: T, n: nat): (s: seq<T>)
    ensures |s| == n && forall i :: 0 <= i < n ==> s[i] == x
  {
    seq(n, _ => x)
  }

  /** The headers of one segment. The first header of a multi-block allocation carries both
      flags, and only it carries the length. */
  function Heads(seg: Segment): (h: seq<Head>)
    ensures |h| == seg.Len()
  {
    if seg.Free? then [FREE_HEAD]
    else if seg.blocks == 1 then [SINGLE_HEAD]
    else [Head(false, true, true, seg.blocks)] + Repeat(PART_HEAD, seg.blocks - 1)
  }

  function Encode(segs: seq<Segment>): seq<Head> {
    if segs == [] then [] else Heads(segs[0]) + Encode(segs[1..])
  }

  /** The segment a header array begins with, if its first headers form one. */
  function FirstSegment(h: seq<Head>): (r: Option<Segment>)
    requires h != []
    ensures r.Some? ==> r.value.Len() <= |h| && h[..r.value.Len()] == Heads(r.value)
  {
    if h[0] == FREE_HEAD then Some(Free)
    else if h[0] == SINGLE_HEAD then Some(Live(1))
    else if 2 <= h[0].multi <= |h| && h[..h[0].multi] == Heads(Live(h[0].multi)) then Some(Live(h[0].multi))
    else None
  }

  /** Reads a header array from the left; `None` if no list of segments produces it. */
  function Decode(h: seq<Head>): Option<seq<Segment>>
    decreases |h|
  {
    if h == [] then Some([])
    else
      var first := FirstSegment(h);
      if first.None? then None
      else
        var rest := Decode(h[first.value.Len()..]);
        if rest.None? then None else Some([first.value] + rest.value)
  }

  // ----- encoding and decoding

  lemma FirstSegmentIs(h: seq<Head>, seg: Segment)
    requires seg.Len() <= |h| && h[..seg.Len()] == Heads(seg)
    ensures FirstSegment(h) == Some(seg)
  {
    assert h[0] == h[..seg.Len()][0];
  }

  /** Decoding inverts encoding: a header array is never ambiguous. */
  lemma {:induction false} DecodeOfEncode(segs: seq<Segment>)
    ensures Decode(Encode(segs)) == Some(segs)
  {
    hide Heads, FirstSegment;
    if segs == [] {
    } else {
      var h, n := Encode(segs), segs[0].Len();
      assert h[..n] == Heads(segs[0]) && h[n..] == Encode(segs[1..]);
      FirstSegmentIs(h, segs[0]);
      DecodeOfEncode(segs[1..]);
      assert segs == [segs[0]] + segs[1..];
    }
  }

  lemma EncodeStep(h: seq<Head>, segs: seq<Segment>)
    requires segs != [] && segs[0].Len() <= |h|
    requires h[..segs[0].Len()] == Heads(segs[0])
    requires Encode(segs[1..]) == h[segs[0].Len()..]
    ensures Encode(segs) == h
  {
    hide Heads;
    assert h == h[..segs[0].Len()] + h[segs[0].Len()..];
  }

  /** Whatever decodes was produced by the segments it decodes to. */
  lemma {:induction false} EncodeOfDecode(h: seq<Head>)
    requires Decode(h).Some?
    ensures Encode(Decode(h).value) == h
    decreases |h|
  {
    hide Heads, FirstSegment, Encode;
    if h == [] {
      EncodeOfNothing();
    } else {
      EncodeOfDecode(h[FirstSegment(h).value.Len()..]);
      EncodeStep(h, Decode(h).value);
    }
  }

  lemma EncodeOfNothing()
    ensures Encode([]) == []
  {
  }

  /** Main result: a header array is well formed in at most one way. */
  lemma DecodingIsUnique(h: seq<Head>, segs: seq<Segment>)
    ensures Encode(segs) == h <==> Decode(h) == Some(segs)
  {
    DecodeOfEncode(segs);
    if Decode(h) == Some(segs) {
      EncodeOfDecode(h);
    }
  }

  lemma {:induction false} EncodeOfConcat(a: seq<Segment>, b: seq<Segment>)
    ensures Encode(a + b) == Encode(a) + Encode(b)
  {
    hide Heads;
    if a == [] {
      assert a + b == b;
    } else {
      EncodeOfConcat(a[1..], b);
      assert (a + b)[0] == a[0] && (a + b)[1..] == a[1..] + b;
      ConcatIsAssociative(Heads(a[0]), Encode(a[1..]), Encode(b));
    }
  }

  lemma EncodeOfOne(seg: Segment)
    ensures Encode([seg]) == Heads(seg)
  {
    assert Encode([seg][1..]) == [];
  }

  lemma {:induction false} EncodeOfFreeRun(n: nat)
    ensures Encode(Repeat(Free, n)) == Repeat(FREE_HEAD, n)
  {
    if n == 0 {
    } else {
      EncodeOfFreeRun(n - 1);
      assert Repeat(Free, n)[1..] == Repeat(Free, n - 1);
    }
  }

  // ----- positions

  /** Index of the block a segment starts at. */
  function Start(segs: seq<Segment>, t: nat): nat
    requires t <= |segs|
  {
    |Encode(segs[..t])|
  }

  /** The segment that block `i` belongs to. */
  function SegmentOf(segs: seq<Segment>, i: nat): (t: nat)
    requires i < |Encode(segs)|
    ensures t < |segs|
  {
    if i < segs[0].Len() then 0 else 1 + SegmentOf(segs[1..], i - segs[0].Len())
  }

  /** Splits the encoding around one segment. */
  lemma EncodeSplit(segs: seq<Segment>, t: nat)
    requires t < |segs|
    ensures Encode(segs) == Encode(segs[..t]) + Heads(segs[t]) + Encode(segs[t + 1..])
    ensures Start(segs, t + 1) == Start(segs, t) + segs[t].Len() <= |Encode(segs)|
  {
    hide Heads, Encode;
    assert segs[..t + 1] == segs[..t] + [segs[t]];
    EncodeOfConcat(segs[..t], [segs[t]]);
    EncodeOfOne(segs[t]);
    assert segs == segs[..t + 1] + segs[t + 1..];
    EncodeOfConcat(segs[..t + 1], segs[t + 1..]);
  }

  lemma {:induction false} StartShift(segs: seq<Segment>, t: nat)
    requires t < |segs|
    ensures Start(segs, t + 1) == segs[0].Len() + Start(segs[1..], t)
  {
    assert segs[..t + 1][1..] == segs[1..][..t];
  }

  /** `SegmentOf` finds the segment whose range of blocks covers `i`. */
  lemma {:induction false} SegmentCovers(segs: seq<Segment>, i: nat)
    requires i < |Encode(segs)|
    ensures var t := SegmentOf(segs, i);
            Start(segs, t) <= i < Start(segs, t) + segs[t].Len()
  {
    if i < segs[0].Len() {
      assert segs[..0] == [];
    } else {
      SegmentCovers(segs[1..], i - segs[0].Len());
      StartShift(segs, SegmentOf(segs[1..], i - segs[0].Len()));
    }
  }

  lemma {:induction false} StartIsMonotone(segs: seq<Segment>, t: nat, u: nat)
    requires t <= u <= |segs|
    ensures Start(segs, t) + (u - t) <= Start(segs, u)
    decreases u - t
  {
    if t < u {
      EncodeSplit(segs, t);
      StartIsMonotone(segs, t + 1, u);
    }
  }

  /** Main result: the ranges of different segments never overlap. */
  lemma SegmentsAreDisjoint(segs: seq<Segment>, t: nat, u: nat)
    requires t < u < |segs|
    ensures Start(segs, t) + segs[t].Len() <= Start(segs, u) < Start(segs, u) + segs[u].Len() <= |Encode(segs)|
  {
    EncodeSplit(segs, t);
    EncodeSplit(segs, u);
    StartIsMonotone(segs, t + 1, u);
  }

  /** Block `i` belongs to exactly one segment. */
  lemma SegmentIsUnique(segs: seq<Segment>, i: nat, t: nat)
    requires i < |Encode(segs)| && t < |segs|
    requires Start(segs, t) <= i < Start(segs, t) + segs[t].Len()
    ensures t == SegmentOf(segs, i)
  {
    var u := SegmentOf(segs, i);
    SegmentCovers(segs, i);
    if t < u {
      SegmentsAreDisjoint(segs, t, u);
    } else if u < t {
      SegmentsAreDisjoint(segs, u, t);
    }
  }

  lemma HeaderInSegment(segs: seq<Segment>, t: nat, d: nat)
    requires t < |segs| && d < segs[t].Len()
    ensures Start(segs, t) + d < |Encode(segs)|
    ensures Encode(segs)[Start(segs, t) + d] == Heads(segs[t])[d]
  {
    EncodeSplit(segs, t);
  }

  // ----- free blocks

  predicate FreeRange(h: seq<Head>, lo: nat, n: nat) {
    lo + n <= |h| && forall i :: lo <= i < lo + n ==> h[i].IsFree()
  }

  /** Least index of a free block, or the length if there is none. */
  function LeastFree(h: seq<Head>): (r: nat)
    ensures r <= |h|
    ensures r < |h| ==> h[r].IsFree()
    ensures forall i :: 0 <= i < r ==> !h[i].IsFree()
  {
    if h == [] || h[0].IsFree() then 0 else 1 + LeastFree(h[1..])
  }

  /** Number of blocks in use. */
  function UsedBlocks(h: seq<Head>): (n: nat)
    ensures n <= |h|
  {
    if h == [] then 0 else (if h[0].IsFree() then 0 else 1) + UsedBlocks(h[1..])
  }

  lemma LeastFreeIs(h: seq<Head>, r: nat)
    requires r <= |h|
    requires r < |h| ==> h[r].IsFree()
    requires forall i :: 0 <= i < r ==> !h[i].IsFree()
    ensures LeastFree(h) == r
  {
  }

  lemma {:induction false} UsedOfConcat(a: seq<Head>, b: seq<Head>)
    ensures UsedBlocks(a + b) == UsedBlocks(a) + UsedBlocks(b)
  {
    if a == [] {
      assert a + b == b;
    } else {
      UsedOfConcat(a[1..], b);
      assert (a + b)[1..] == a[1..] + b;
    }
  }

  lemma {:induction false} UsedOfUniform(h: seq<Head>, free: bool)
    requires forall i :: 0 <= i < |h| ==> h[i].IsFree() == free
    ensures UsedBlocks(h) == if free then 0 else |h|
  {
    if h != [] {
      UsedOfUniform(h[1..], free);
    }
  }

  /** Number of blocks in live segments. */
  function LiveBlocks(segs: seq<Segment>): nat {
    if segs == [] then 0 else (if segs[0].Live? then segs[0].blocks else 0) + LiveBlocks(segs[1..])
  }

  /** The header count of used blocks is the total length of the live segments. */
  lemma {:induction false} UsedIsLive(segs: seq<Segment>)
    ensures UsedBlocks(Encode(segs)) == LiveBlocks(segs)
  {
    if segs != [] {
      UsedIsLive(segs[1..]);
      UsedOfConcat(Heads(segs[0]), Encode(segs[1..]));
      UsedOfUniform(Heads(segs[0]), segs[0].Free?);
    }
  }

  lemma FreeBlockIsFreeSegment(segs: seq<Segment>, i: nat)
    requires i < |Encode(segs)|
    ensures Encode(segs)[i].IsFree() <==> segs[SegmentOf(segs, i)].Free?
  {
    var t := SegmentOf(segs, i);
    SegmentCovers(segs, i);
    HeaderInSegment(segs, t, i - Start(segs, t));
  }

  lemma NextSegment(segs: seq<Segment>, t: nat)
    requires t < |segs| && Start(segs, t) + segs[t].Len() < |Encode(segs)|
    ensures t + 1 < |segs| && SegmentOf(segs, Start(segs, t) + segs[t].Len()) == t + 1
  {
    hide Encode, Heads;
    EncodeSplit(segs, t);
    assert segs[..|segs|] == segs;
    EncodeSplit(segs, t + 1);
    SegmentIsUnique(segs, Start(segs, t + 1), t + 1);
  }

  /** A run of free headers is a run of free segments. */
  lemma {:induction false} FreeRangeIsFreeRun(segs: seq<Segment>, lo: nat, n: nat)
    requires n > 0 && FreeRange(Encode(segs), lo, n)
    decreases n
    ensures var t := SegmentOf(segs, lo);
            t + n <= |segs| && Start(segs, t) == lo && segs[t..t + n] == Repeat(Free, n)
  {
    hide Encode, Heads, SegmentOf;
    var t := SegmentOf(segs, lo);
    SegmentCovers(segs, lo);
    FreeBlockIsFreeSegment(segs, lo);
    if n > 1 {
      NextSegment(segs, t);
      FreeRangeIsFreeRun(segs, lo + 1, n - 1);
      assert segs[t..t + n] == [segs[t]] + segs[t + 1..t + n];
    }
  }

  // ----- the two operations on segments

  /** Replaces the `n` free blocks from block `k` on by one live segment. */
  function Occupy(segs: seq<Segment>, k: nat, n: Positive): seq<Segment>
    requires FreeRange(Encode(segs), k, n)
  {
    var t := SegmentOf(segs, k);
    FreeRangeIsFreeRun(segs, k, n);
    segs[..t] + [Live(n)] + segs[t + n..]
  }

  /** Replaces the segment that block `i` belongs to by free blocks. */
  function Vacate(segs: seq<Segment>, i: nat): seq<Segment>
    requires i < |Encode(segs)|
  {
    var t := SegmentOf(segs, i);
    segs[..t] + Repeat(Free, segs[t].Len()) + segs[t + 1..]
  }

  /** The encoding of a list whose middle part is replaced. */
  lemma EncodeAround(a: seq<Segment>, mid: seq<Segment>, b: seq<Segment>)
    ensures Encode(a + mid + b) == Encode(a) + Encode(mid) + Encode(b)
  {
    EncodeOfConcat(a, mid);
    EncodeOfConcat(a + mid, b);
  }

  /** Headers after an allocation: those of the new segment at `k`, all others unchanged. */
  lemma OccupyHeaders(segs: seq<Segment>, k: nat, n: Positive)
    requires FreeRange(Encode(segs), k, n)
    ensures var h := Encode(segs);
            Encode(Occupy(segs, k, n)) == h[..k] + Heads(Live(n)) + h[k + n..]
  {
    hide Encode, Heads, Repeat, SegmentOf;
    var t := SegmentOf(segs, k);
    FreeRangeIsFreeRun(segs, k, n);
    var a, b := segs[..t], segs[t + n..];
    assert segs == a + Repeat(Free, n) + b;
    EncodeAround(a, Repeat(Free, n), b);
    EncodeOfFreeRun(n);
    EncodeAround(a, [Live(n)], b);
    EncodeOfOne(Live(n));
    SplitOfConcat(Encode(segs), Encode(a), Repeat(FREE_HEAD, n), Encode(b));
  }

  lemma SplitOfConcat<T>(s: seq<T>, a: seq<T>, mid: seq<T>, b: seq<T>)
    requires s == a + mid + b
    ensures s[..|a|] == a && s[|a| + |mid|..] == b
  {
  }

  /** Headers after a release: the range of the segment is zeroed, all others unchanged. */
  lemma VacateHeaders(segs: seq<Segment>, i: nat)
    requires i < |Encode(segs)|
    ensures var h, t := Encode(segs), SegmentOf(segs, i);
            var k, n := Start(segs, t), segs[t].Len();
            k + n <= |h| && Encode(Vacate(segs, i)) == h[..k] + Repeat(FREE_HEAD, n) + h[k + n..]
  {
    var t := SegmentOf(segs, i);
    hide Encode, Heads;
    var a, n, b := segs[..t], segs[t].Len(), segs[t + 1..];
    EncodeSplit(segs, t);
    EncodeAround(a, Repeat(Free, n), b);
    EncodeOfFreeRun(n);
    SplitOfConcat(Encode(segs), Encode(a), Heads(segs[t]), Encode(b));
  }

  /** Main result: releasing through any block of an allocation undoes exactly that allocation. */
  lemma VacateUndoesOccupy(segs: seq<Segment>, k: nat, n: Positive, i: nat)
    requires FreeRange(Encode(segs), k, n)
    requires k <= i < k + n
    ensures i < |Encode(Occupy(segs, k, n))|
    ensures Vacate(Occupy(segs, k, n), i) == segs
  {
    var t, segs' := SegmentOf(segs, k), Occupy(segs, k, n);
    OccupiedSegment(segs, k, n);
    hide Encode, Heads, SegmentOf, Occupy, Repeat;
    SegmentIsUnique(segs', i, t);
    ReassembleThree(segs, t, t + n);
  }

  lemma ReassembleThree<T>(s: seq<T>, i: nat, j: nat)
    requires i <= j <= |s|
    ensures s == s[..i] + s[i..j] + s[j..]
  {
  }

  /** The segment an allocation creates, and its surroundings. */
  lemma OccupiedSegment(segs: seq<Segment>, k: nat, n: Positive)
    requires FreeRange(Encode(segs), k, n)
    ensures var t, segs' := SegmentOf(segs, k), Occupy(segs, k, n);
            && t + n <= |segs| && segs[t..t + n] == Repeat(Free, n)
            && t < |segs'| && segs'[..t] == segs[..t] && segs'[t] == Live(n) && segs'[t + 1..] == segs[t + n..]
            && Start(segs', t) == k && |Encode(segs')| == |Encode(segs)|
            && SegmentOf(segs', k) == t
  {
    FreeRangeIsFreeRun(segs, k, n);
    OccupyHeaders(segs, k, n);
    hide Encode, Heads, SegmentOf;
    var t, segs' := SegmentOf(segs, k), Occupy(segs, k, n);
    assert segs'[..t] == segs[..t];
    SegmentIsUnique(segs', k, t);
  }

  // ----- the live allocations as ranges of blocks

  /** Start and length of every live segment, counting blocks from `off`. */
  function RangesFrom(segs: seq<Segment>, off: nat): set<(nat, nat)> {
    if segs == [] then {}
    else (if segs[0].Live? then {(off, segs[0].blocks)} else {}) + RangesFrom(segs[1..], off + segs[0].Len())
  }

  /** The live allocations of a pool. */
  function LiveRanges(segs: seq<Segment>): set<(nat, nat)> {
    RangesFrom(segs, 0)
  }

  lemma {:induction false} RangesOfConcat(a: seq<Segment>, b: seq<Segment>, off: nat)
    ensures RangesFrom(a + b, off) == RangesFrom(a, off) + RangesFrom(b, off + |Encode(a)|)
  {
    hide Encode;
    if a == [] {
      assert a + b == b;
      EncodeOfNothing();
    } else {
      EncodeLength(a);
      RangesOfConcat(a[1..], b, off + a[0].Len());
      assert (a + b)[0] == a[0] && (a + b)[1..] == a[1..] + b;
    }
  }

  lemma EncodeLength(segs: seq<Segment>)
    requires segs != []
    ensures |Encode(segs)| == segs[0].Len() + |Encode(segs[1..])|
  {
  }

  lemma {:induction false} RangesOfFreeRun(n: nat, off: nat)
    ensures RangesFrom(Repeat(Free, n), off) == {}
  {
    if n > 0 {
      assert Repeat(Free, n)[1..] == Repeat(Free, n - 1);
      RangesOfFreeRun(n - 1, off + 1);
    }
  }

  lemma {:induction false} RangeBounds(segs: seq<Segment>, off: nat, r: (nat, nat))
    requires r in RangesFrom(segs, off)
    ensures off <= r.0 < r.0 + r.1 <= off + |Encode(segs)|
  {
    if segs[0].Live? && r == (off, segs[0].blocks) {
    } else {
      RangeBounds(segs[1..], off + segs[0].Len(), r);
    }
  }

  predicate Apart(r: (nat, nat), q: (nat, nat)) {
    r.0 + r.1 <= q.0 || q.0 + q.1 <= r.0
  }

  /** Main result: live allocations of a pool never overlap. */
  lemma {:induction false} LiveRangesAreApart(segs: seq<Segment>, off: nat, r: (nat, nat), q: (nat, nat))
    requires r in RangesFrom(segs, off) && q in RangesFrom(segs, off) && r != q
    ensures Apart(r, q)
  {
    var first := (off, segs[0].Len() as nat);
    var rest := off + segs[0].Len();
    if r == first && q in RangesFrom(segs[1..], rest) {
      RangeBounds(segs[1..], rest, q);
    } else if q == first && r in RangesFrom(segs[1..], rest) {
      RangeBounds(segs[1..], rest, r);
    } else {
      LiveRangesAreApart(segs[1..], rest, r, q);
    }
  }

  lemma RangesAround(a: seq<Segment>, mid: seq<Segment>, b: seq<Segment>)
    ensures LiveRanges(a + mid + b)
         == LiveRanges(a) + RangesFrom(mid, |Encode(a)|) + RangesFrom(b, |Encode(a)| + |Encode(mid)|)
  {
    hide Encode, RangesFrom;
    RangesOfConcat(a + mid, b, 0);
    RangesOfConcat(a, mid, 0);
    EncodeOfConcat(a, mid);
  }

  /** Main result: an allocation adds exactly one range, apart from all live ones. */
  lemma OccupyAddsOneRange(segs: seq<Segment>, k: nat, n: Positive)
    requires FreeRange(Encode(segs), k, n)
    ensures LiveRanges(Occupy(segs, k, n)) == LiveRanges(segs) + {(k, n as nat)}
    ensures forall r | r in LiveRanges(segs) :: Apart(r, (k, n as nat))
  {
    FreeRangeIsFreeRun(segs, k, n);
    hide Encode, SegmentOf, RangesFrom, Repeat;
    var t := SegmentOf(segs, k);
    var a, b := segs[..t], segs[t + n..];
    ReassembleThree(segs, t, t + n);
    RangesOfReplacedRun(a, n, b);
    RangesAroundAreApart(a, n, b);
  }

  /** A run of free segments between `a` and `b`, before and after it is occupied. */
  lemma RangesOfReplacedRun(a: seq<Segment>, n: Positive, b: seq<Segment>)
    ensures var k := |Encode(a)|;
            && LiveRanges(a + Repeat(Free, n) + b) == LiveRanges(a) + RangesFrom(b, k + n)
            && LiveRanges(a + [Live(n)] + b) == LiveRanges(a) + {(k, n as nat)} + RangesFrom(b, k + n)
  {
    hide Encode, RangesFrom, Repeat;
    var k := |Encode(a)|;
    RangesAround(a, Repeat(Free, n), b);
    RangesOfFreeRun(n, k);
    EncodeOfFreeRun(n);
    RangesAround(a, [Live(n)], b);
    EncodeOfOne(Live(n));
    RangesOfOne(Live(n), k);
  }

  lemma RangesOfOne(seg: Segment, off: nat)
    ensures RangesFrom([seg], off) == if seg.Live? then {(off, seg.Len() as nat)} else {}
  {
    assert [seg][1..] == [];
  }

  lemma RangesAroundAreApart(a: seq<Segment>, n: nat, b: seq<Segment>)
    ensures var k := |Encode(a)|;
            forall r | r in LiveRanges(a) + RangesFrom(b, k + n) :: Apart(r, (k, n))
  {
    hide Encode, RangesFrom;
    var k := |Encode(a)|;
    forall r | r in LiveRanges(a) + RangesFrom(b, k + n)
      ensures Apart(r, (k, n))
    {
      if r in LiveRanges(a) {
        RangeBounds(a, 0, r);
      } else {
        RangeBounds(b, k + n, r);
      }
    }
  }

  /** Main result: releasing any block of an allocation removes exactly its range. */
  lemma VacateRemovesOneRange(segs: seq<Segment>, i: nat)
    requires i < |Encode(segs)|
    ensures var t := SegmentOf(segs, i);
            var own := (Start(segs, t), segs[t].Len() as nat);
            && LiveRanges(Vacate(segs, i)) == LiveRanges(segs) - {own}
            && (segs[t].Live? <==> own in LiveRanges(segs))
  {
    hide Encode, SegmentOf, RangesFrom, Repeat;
    var t := SegmentOf(segs, i);
    var a, n, b := segs[..t], segs[t].Len(), segs[t + 1..];
    ReassembleThree(segs, t, t + 1);
    assert segs[t..t + 1] == [segs[t]];
    RangesOfReplacedRun(a, n, b);
    assert Vacate(segs, i) == a + Repeat(Free, n) + b;
    var own := (|Encode(a)|, n as nat);
    if own in LiveRanges(a) {
      RangeBounds(a, 0, own);
    }
    if own in RangesFrom(b, own.0 + n) {
      RangeBounds(b, own.0 + n, own);
    }
    if segs[t].Free? {
      VacateOfFree(segs, i);
    } else {
      assert segs == a + [Live(n)] + b;
      assert LiveRanges(segs) == LiveRanges(a) + {own} + RangesFrom(b, own.0 + n);
    }
  }

  /** Releasing a free block changes nothing. */
  lemma VacateOfFree(segs: seq<Segment>, i: nat)
    requires i < |Encode(segs)| && segs[SegmentOf(segs, i)].Free?
    ensures Vacate(segs, i) == segs
  {
    hide Encode, SegmentOf;
    var t := SegmentOf(segs, i);
    ReassembleThree(segs, t, t + 1);
    assert segs[t..t + 1] == Repeat(Free, 1);
  }

  /** The range block `i` lies in is the live one, if any covers it. */
  lemma LiveRangeOfBlock(segs: seq<Segment>, i: nat, r: (nat, nat))
    requires r in LiveRanges(segs) && r.0 <= i < r.0 + r.1
    ensures i < |Encode(segs)|
    ensures var t := SegmentOf(segs, i);
            segs[t].Live? && r == (Start(segs, t), segs[t].Len() as nat)
  {
    RangeBounds(segs, 0, r);
    var t := SegmentOf(segs, i);
    SegmentCovers(segs, i);
    VacateRemovesOneRange(segs, i);
    var own := (Start(segs, t), segs[t].Len() as nat);
    if own in LiveRanges(segs) {
      if r != own {
        LiveRangesAreApart(segs, 0, r, own);
      }
    } else {
      LiveBlockIsUsed(segs, 0, r, i);
      FreeBlockIsFreeSegment(segs, i);
    }
  }

  lemma {:induction false} LiveBlockIsUsed(segs: seq<Segment>, off: nat, r: (nat, nat), i: nat)
    requires r in RangesFrom(segs, off) && r.0 <= i < r.0 + r.1
    ensures off <= i < off + |Encode(segs)| && !Encode(segs)[i - off].IsFree()
  {
    RangeBounds(segs, off, r);
    var first, rest := Heads(segs[0]), Encode(segs[1..]);
    assert Encode(segs) == first + rest;
    hide Encode;
    if segs[0].Live? && r == (off, segs[0].blocks) {
      HeadsAreLive(segs[0], i - off);
    } else {
      hide Heads;
      LiveBlockIsUsed(segs[1..], off + segs[0].Len(), r, i);
      assert (first + rest)[i - off] == rest[i - off - |first|];
    }
  }

  lemma HeadsAreLive(seg: Segment, d: nat)
    requires seg.Live? && d < seg.Len()
    ensures !Heads(seg)[d].IsFree()
  {
  }
}
