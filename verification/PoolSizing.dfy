/** Size arithmetic of the pool allocator, in the 32-bit unsigned arithmetic the code uses.
    A pool is one buffer: `count` headers of 8 bytes, padding up to the block alignment,
    then `count` blocks. The buffer is rounded up to whole pages, and the block count is
    then raised to whatever fits. */
module PoolSizing {
  import opened Arithmetic
  import opened Basics

  const HEADER_SIZE := 8
  const BLOCK_ALIGN := 16
  const PAGE_SIZE := 4096
  const DEFAULT_BLOCK_COUNT := 128

  type Uint32 = n: int | 0 <= n < UINT32_RANGE

  /** Truncation of a value to 32 bits. */
  function Wrap(n: nat): Uint32 {
    n % UINT32_RANGE
  }

  /** Header section with its padding. */
  function HeadSize(count: Uint32): Uint32 {
    var size := Wrap(count * HEADER_SIZE);
    Wrap(size + size % BLOCK_ALIGN)
  }

  /** Header section and blocks. */
  function PoolSize(count: Uint32, blockSize: Uint32): Uint32 {
    Wrap(HeadSize(count) + Wrap(blockSize * count))
  }

  /** Pool size rounded up to whole pages. */
  function AdjustedSize(poolSize: Uint32): Uint32 {
    Wrap(poolSize + if poolSize % PAGE_SIZE != 0 then PAGE_SIZE - poolSize % PAGE_SIZE else 0)
  }

  /** Number of blocks the adjusted pool is given. */
  function AdjustedCount(blockSize: Uint32, adjustedSize: Uint32): Uint32 {
    adjustedSize / (blockSize + HEADER_SIZE)
  }

  /** Size of the buffer obtained for a requested count. */
  function BufferSize(count: Uint32, blockSize: Uint32): Uint32 {
    AdjustedSize(PoolSize(count, blockSize))
  }

  /** Block count a new pool ends up with when `count` blocks are requested. */
  function NewCount(count: Uint32, blockSize: Uint32): Uint32 {
    AdjustedCount(blockSize, BufferSize(count, blockSize))
  }

  // ----- the same sizes over unbounded integers

  function ExactHeadSize(count: nat): nat {
    count * HEADER_SIZE + count * HEADER_SIZE % BLOCK_ALIGN
  }

  /** Bytes that headers, padding and blocks really occupy. */
  function ExactSize(count: nat, blockSize: nat): nat {
    ExactHeadSize(count) + blockSize * count
  }

  function RoundToPages(size: nat): nat {
    (size + PAGE_SIZE - 1) / PAGE_SIZE * PAGE_SIZE
  }

  /** A block size the allocator's header comment admits. */
  predicate LegalBlockSize(blockSize: Uint32) {
    blockSize > 0 && blockSize % 8 == 0
  }

  // ----- arithmetic

  lemma WrapOfSum(a: nat, b: nat)
    ensures Wrap(Wrap(a) + b) == Wrap(a + b)
    ensures Wrap(a + Wrap(b)) == Wrap(a + b)
  {
    RemainderOfSum(Wrap(a) + b, a / UINT32_RANGE, UINT32_RANGE);
    RemainderOfSum(a + Wrap(b), b / UINT32_RANGE, UINT32_RANGE);
    WholeAndRest(a);
    WholeAndRest(b);
  }

  lemma WholeAndRest(a: nat)
    ensures a == Wrap(a) + a / UINT32_RANGE * UINT32_RANGE
  {
  }

  lemma PaddingIsZeroOrEight(count: nat)
    ensures count * HEADER_SIZE % BLOCK_ALIGN == if count % 2 == 0 then 0 else HEADER_SIZE
  {
  }

  /** The wrapped computation is the exact one modulo 2^32. */
  lemma PoolSizeIsExactModulo(count: Uint32, blockSize: Uint32)
    ensures PoolSize(count, blockSize) == Wrap(ExactSize(count, blockSize))
  {
    HeadSizeIsExactModulo(count);
    hide HeadSize, ExactHeadSize, Wrap;
    WrapOfSum(ExactHeadSize(count), Wrap(blockSize * count));
    WrapOfSum(ExactHeadSize(count), blockSize * count);
  }

  lemma HeadSizeIsExactModulo(count: Uint32)
    ensures HeadSize(count) == Wrap(ExactHeadSize(count))
  {
    var size := count * HEADER_SIZE;
    assert Wrap(size) % BLOCK_ALIGN == size % BLOCK_ALIGN;
    WrapOfSum(size, size % BLOCK_ALIGN);
  }

  /** Rounding is unaffected by the wrap, since 4096 divides 2^32. */
  lemma RoundingCommutesWithWrap(size: nat)
    ensures AdjustedSize(Wrap(size)) == Wrap(RoundToPages(size))
  {
    RemainderOfPages(size);
    RoundingAdds(size);
    hide Wrap, RoundToPages;
    WrapOfSum(size, if size % PAGE_SIZE != 0 then PAGE_SIZE - size % PAGE_SIZE else 0);
  }

  lemma RemainderOfPages(size: nat)
    ensures Wrap(size) % PAGE_SIZE == size % PAGE_SIZE
  {
    WholeAndRest(size);
    RemainderOfSum(Wrap(size), size / UINT32_RANGE * 0x10_0000, PAGE_SIZE);
  }

  lemma RoundingAdds(size: nat)
    ensures RoundToPages(size) == size + if size % PAGE_SIZE != 0 then PAGE_SIZE - size % PAGE_SIZE else 0
  {
    var q, r := size / PAGE_SIZE, size % PAGE_SIZE;
    if r == 0 {
      QuotientIsUnique(size + PAGE_SIZE - 1, PAGE_SIZE, q, PAGE_SIZE - 1);
    } else {
      QuotientIsUnique(size + PAGE_SIZE - 1, PAGE_SIZE, q + 1, r - 1);
    }
  }

  lemma BufferSizeIsExactModulo(count: Uint32, blockSize: Uint32)
    ensures BufferSize(count, blockSize) == Wrap(RoundToPages(ExactSize(count, blockSize)))
  {
    PoolSizeIsExactModulo(count, blockSize);
    RoundingCommutesWithWrap(ExactSize(count, blockSize));
  }

  lemma ExactSizeFactored(count: nat, blockSize: nat)
    ensures ExactSize(count, blockSize) == count * (blockSize + HEADER_SIZE) + if count % 2 == 0 then 0 else HEADER_SIZE
  {
    PaddingIsZeroOrEight(count);
  }

  // ----- powers of two

  function Pow2(e: nat): nat
    ensures Pow2(e) > 0
  {
    if e == 0 then 1 else 2 * Pow2(e - 1)
  }

  /** An odd factor contributes nothing to divisibility by a power of two. */
  lemma {:induction false} OddFactorCancels(odd: nat, n: nat, m: nat, e: nat)
    requires odd % 2 == 1
    requires odd * n == Pow2(e) * m
    ensures n % Pow2(e) == 0
  {
    if e == 0 {
    } else {
      assert odd * n == 2 * (Pow2(e - 1) * m);
      EvenFactor(odd, n, Pow2(e - 1) * m);
      assert 2 * (odd * (n / 2)) == 2 * (Pow2(e - 1) * m);
      OddFactorCancels(odd, n / 2, m, e - 1);
      var q := n / 2 / Pow2(e - 1);
      assert n / 2 == Pow2(e - 1) * q;
      assert n == Pow2(e) * q;
      MultipleHasNoRemainder(Pow2(e), q);
    }
  }

  lemma EvenFactor(odd: nat, n: nat, half: nat)
    requires odd % 2 == 1
    requires odd * n == 2 * half
    ensures n % 2 == 0 && n == 2 * (n / 2) && odd * n == 2 * (odd * (n / 2))
  {
    var k := odd / 2;
    assert odd == 2 * k + 1;
    assert odd * n == 2 * (k * n) + n;
    assert odd * (2 * (n / 2)) == 2 * (odd * (n / 2));
  }

  lemma PowersUsed()
    ensures Pow2(12) == PAGE_SIZE && Pow2(20) == 0x10_0000
  {
    assert Pow2(4) == 16;
    assert Pow2(8) == 256;
    assert Pow2(12) == 4096;
    assert Pow2(16) == 0x1_0000;
  }

  // ----- the sizing theorems

  /** The adjusted count is even, or at least the padding of an odd one is left over. */
  predicate Fits(count: Uint32, blockSize: Uint32) {
    NewCount(count, blockSize) % 2 == 0 || BufferSize(count, blockSize) % (blockSize + HEADER_SIZE) >= HEADER_SIZE
  }

  /** Main result: for every block size, headers, padding and blocks of the count the pool ends
      up with fit in the buffer if and only if that count is even or eight bytes are left over.
      The count requested may be any, and the 32-bit computation may wrap. */
  lemma FitsIff(count: Uint32, blockSize: Uint32)
    requires blockSize > 0
    ensures ExactSize(NewCount(count, blockSize), blockSize) <= BufferSize(count, blockSize) <==> Fits(count, blockSize)
  {
    hide BufferSize, ExactSize;
    var unit, size, n := blockSize + HEADER_SIZE, BufferSize(count, blockSize), NewCount(count, blockSize);
    ExactSizeFactored(n, blockSize);
    assert size == n * unit + size % unit;
  }

  /** For the block sizes the allocator admits the pool always fits. */
  lemma AdjustedPoolFits(count: Uint32, blockSize: Uint32)
    requires LegalBlockSize(blockSize)
    ensures Fits(count, blockSize)
    ensures ExactSize(NewCount(count, blockSize), blockSize) <= BufferSize(count, blockSize)
  {
    hide BufferSize, NewCount, ExactSize;
    FitsIff(count, blockSize);
    NoOddCountWithoutSlack(count, blockSize);
    BufferIsWholePages(count, blockSize);
    PagesAreEights(BufferSize(count, blockSize));
    CountIsQuotient(count, blockSize);
    SlackIsEightOrNothing(BufferSize(count, blockSize), blockSize + HEADER_SIZE);
  }

  lemma CountIsQuotient(count: Uint32, blockSize: Uint32)
    ensures NewCount(count, blockSize) == BufferSize(count, blockSize) / (blockSize + HEADER_SIZE)
  {
  }

  lemma PagesAreEights(size: nat)
    requires size % PAGE_SIZE == 0
    ensures size % 8 == 0
  {
    MultipleHasNoRemainder(8, PAGE_SIZE / 8 * (size / PAGE_SIZE));
  }

  lemma SlackIsEightOrNothing(size: nat, unit: nat)
    requires unit > 0 && unit % 8 == 0 && size % 8 == 0
    ensures size == size / unit * unit || size % unit >= HEADER_SIZE
  {
    var n, rest := size / unit, size % unit;
    assert size == n * unit + rest;
    MultipleOfEight(n, unit);
    EightsDiffer(size, n * unit);
  }

  lemma EightsDiffer(a: nat, b: nat)
    requires b <= a && a % 8 == 0 && b % 8 == 0
    ensures a == b || b + HEADER_SIZE <= a
  {
  }

  lemma MultipleOfEight(n: nat, unit: nat)
    requires unit % 8 == 0
    ensures n * unit % 8 == 0
  {
    assert n * unit == 8 * (n * (unit / 8));
  }

  lemma WrapOfPages(pages: nat)
    ensures Wrap(PAGE_SIZE * pages) == PAGE_SIZE * (pages % 0x10_0000)
  {
    QuotientIsUnique(PAGE_SIZE * pages, UINT32_RANGE, pages / 0x10_0000, PAGE_SIZE * (pages % 0x10_0000));
  }

  lemma AdjustedSizeIsWholePages(size: Uint32)
    ensures AdjustedSize(size) % PAGE_SIZE == 0
  {
  }

  lemma BufferIsWholePages(count: Uint32, blockSize: Uint32)
    ensures BufferSize(count, blockSize) % PAGE_SIZE == 0
  {
    hide PoolSize;
    AdjustedSizeIsWholePages(PoolSize(count, blockSize));
  }

  /** The hard case of the fit: an odd count never uses up the buffer completely. Zero slack
      would make the page size divide `blockSize + 8`; counting pages modulo two then
      contradicts the padding page that an odd request brings with it. */
  lemma NoOddCountWithoutSlack(count: Uint32, blockSize: Uint32)
    requires LegalBlockSize(blockSize)
    ensures NewCount(count, blockSize) % 2 == 1 ==>
      BufferSize(count, blockSize) != NewCount(count, blockSize) * (blockSize + HEADER_SIZE)
  {
    var unit, size, n := blockSize + HEADER_SIZE, BufferSize(count, blockSize), NewCount(count, blockSize);
    hide BufferSize, NewCount;
    if n % 2 == 1 && size == n * unit {
      BufferIsWholePages(count, blockSize);
      PowersUsed();
      OddFactorCancels(n, unit, size / PAGE_SIZE, 12);
      PagesOfRequest(count, blockSize, unit / PAGE_SIZE);
      OddUnitsAreNoBuffer(n, count, unit / PAGE_SIZE);
    }
  }

  /** With `unit == 4096 * pagesPerUnit`, the buffer counted in pages. */
  lemma PagesOfRequest(count: Uint32, blockSize: Uint32, pagesPerUnit: nat)
    requires blockSize + HEADER_SIZE == PAGE_SIZE * pagesPerUnit
    ensures BufferSize(count, blockSize) == PAGE_SIZE * ((count * pagesPerUnit + count % 2) % 0x10_0000)
  {
    BufferSizeIsExactModulo(count, blockSize);
    ExactSizeFactored(count, blockSize);
    Regroup(count, pagesPerUnit);
    RoundingPastPages(count * pagesPerUnit, if count % 2 == 0 then 0 else HEADER_SIZE);
    WrapOfPages(count * pagesPerUnit + count % 2);
  }

  lemma Regroup(a: nat, b: nat)
    ensures a * (PAGE_SIZE * b) == PAGE_SIZE * (a * b)
  {
  }

  lemma RoundingPastPages(pages: nat, rest: nat)
    requires rest < PAGE_SIZE
    ensures RoundToPages(PAGE_SIZE * pages + rest) == PAGE_SIZE * (pages + if rest == 0 then 0 else 1)
  {
  }

  /** An odd number of such units never makes up the buffer. */
  lemma OddUnitsAreNoBuffer(n: nat, count: nat, k: nat)
    requires n % 2 == 1 && k > 0
    ensures n * (PAGE_SIZE * k) != PAGE_SIZE * ((count * k + count % 2) % 0x10_0000)
  {
    Regroup(n, k);
    assert n * k >= k;
    if n * k == (count * k + count % 2) % 0x10_0000 {
      ParityClash(n, count, k, (count * k + count % 2) / 0x10_0000);
    }
  }

  lemma ParityClash(n: nat, count: nat, k: nat, wrapped: nat)
    requires n % 2 == 1 && k > 0
    requires n * k + 0x10_0000 * wrapped == count * k + count % 2
    ensures k >= 0x10_0000
  {
    PagesHaveParity(n, count, k, wrapped);
    Distribute(k, count, n);
    NonNegativeFactor(count - n, k);
    PowersUsed();
    OddFactorCancels(count - n, k, wrapped, 20);
  }

  lemma PagesHaveParity(n: nat, count: nat, k: nat, wrapped: nat)
    requires n % 2 == 1
    requires n * k + 0x10_0000 * wrapped == count * k + count % 2
    ensures count % 2 == 0 && k % 2 == 0
  {
    ParityOfProduct(n, k);
    ParityOfProduct(count, k);
    var a, b := n * k, count * k;
    assert (a + 0x10_0000 * wrapped) % 2 == a % 2;
  }

  lemma NonNegativeFactor(a: int, k: nat)
    requires k > 0 && a * k >= 0
    ensures a >= 0
  {
  }

  lemma ParityOfProduct(a: nat, b: nat)
    ensures a * b % 2 == (a % 2) * (b % 2)
  {
    var half := a / 2 * b;
    if a % 2 == 0 {
      assert a * b == 2 * half;
    } else {
      assert a * b == (2 * (a / 2) + 1) * b;
      assert a * b == 2 * half + b;
    }
  }

  /** Main result: the new pool holds at least the requested count exactly when the rounded
      size is representable in 32 bits; the code does not check that it is. */
  lemma RequestIsCoveredIffNoWrap(count: Uint32, blockSize: Uint32)
    requires blockSize > 0 && count > 0
    ensures NewCount(count, blockSize) >= count <==> RoundToPages(ExactSize(count, blockSize)) < UINT32_RANGE
  {
    hide BufferSize, ExactSize, RoundToPages;
    BufferSizeIsExactModulo(count, blockSize);
    ExactSizeFactored(count, blockSize);
    CoveredIffSmall(count, blockSize + HEADER_SIZE, ExactSize(count, blockSize));
  }

  lemma CoveredIffSmall(count: nat, unit: nat, exact: nat)
    requires unit > 0 && count > 0
    requires exact == count * unit + if count % 2 == 0 then 0 else HEADER_SIZE
    ensures Wrap(RoundToPages(exact)) / unit >= count <==> RoundToPages(exact) < UINT32_RANGE
  {
    var rounded := RoundToPages(exact);
    RoundingAdds(exact);
    SmallStaysUnwrapped(rounded);
    PositiveProduct(count, unit);
    hide RoundToPages, Wrap;
    if rounded < UINT32_RANGE {
      QuotientAtLeast(rounded, unit, count);
    } else {
      OverflowLosesBytes(count * unit, exact);
      QuotientBelow(Wrap(rounded), unit, count);
    }
  }

  lemma SmallStaysUnwrapped(n: nat)
    ensures n < UINT32_RANGE ==> Wrap(n) == n
  {
  }

  lemma PositiveProduct(a: nat, b: nat)
    requires a > 0 && b > 0
    ensures a * b > 0
  {
  }

  lemma OverflowLosesBytes(blocks: nat, exact: nat)
    requires blocks <= exact <= blocks + HEADER_SIZE
    requires RoundToPages(exact) >= UINT32_RANGE
    ensures Wrap(RoundToPages(exact)) < blocks
  {
    if blocks < UINT32_RANGE {
      assert RoundToPages(exact) <= UINT32_RANGE + PAGE_SIZE;
    }
  }

  /** For a pool whose exact size is representable nothing wraps. */
  lemma NothingWraps(count: Uint32, blockSize: Uint32)
    requires ExactSize(count, blockSize) < UINT32_RANGE
    ensures PoolSize(count, blockSize) == ExactSize(count, blockSize)
    ensures HeadSize(count) == ExactHeadSize(count)
  {
    hide PoolSize, HeadSize;
    PoolSizeIsExactModulo(count, blockSize);
    HeadSizeIsExactModulo(count);
    assert blockSize * count >= 0;
  }

  /** Without wrap the adjustment only ever increases the count, and the buffer is the exact
      size rounded up: less than one page is added. */
  lemma BufferIsTight(count: Uint32, blockSize: Uint32)
    requires RoundToPages(ExactSize(count, blockSize)) < UINT32_RANGE
    ensures ExactSize(count, blockSize) <= BufferSize(count, blockSize) < ExactSize(count, blockSize) + PAGE_SIZE
  {
    hide BufferSize, ExactSize;
    BufferSizeIsExactModulo(count, blockSize);
  }

  /** The adjusted count is the largest for which headers and blocks, padding aside, are within
      the buffer. */
  lemma NewCountIsLargest(count: Uint32, blockSize: Uint32)
    requires blockSize > 0
    ensures var n, unit := NewCount(count, blockSize), blockSize + HEADER_SIZE;
            n * unit <= BufferSize(count, blockSize) < (n + 1) * unit
  {
    hide BufferSize, NewCount;
    CountIsQuotient(count, blockSize);
    QuotientBounds(BufferSize(count, blockSize), blockSize + HEADER_SIZE);
  }

  lemma QuotientBounds(n: nat, d: nat)
    requires d > 0
    ensures n / d * d <= n < (n / d + 1) * d
  {
  }

  /** The header section is the headers, padded up to the block alignment and no further. */
  lemma BlocksAreAligned(count: nat)
    ensures ExactHeadSize(count) % BLOCK_ALIGN == 0
    ensures HEADER_SIZE * count <= ExactHeadSize(count) < HEADER_SIZE * count + BLOCK_ALIGN
  {
    PaddingIsZeroOrEight(count);
  }

  /** A pool set up for the default count of 128 blocks of 64 bytes. */
  lemma DefaultPoolOfSixtyFour()
    ensures BufferSize(DEFAULT_BLOCK_COUNT, 64) == 12288 && NewCount(DEFAULT_BLOCK_COUNT, 64) == 170
  {
    assert HeadSize(128) == 1024;
    assert PoolSize(128, 64) == 9216;
  }

  /** `NkPoolReserve` does not check that the block size is a multiple of 8. A request outside
      the condition of `FitsIff`: one-byte blocks, 454 of them, give a pool of 455 blocks that
      overruns its 4096-byte buffer. */
  lemma UnalignedBlockSizeOverruns()
    ensures !Fits(454, 1) && NewCount(454, 1) == 455
    ensures ExactSize(NewCount(454, 1), 1) > BufferSize(454, 1)
  {
    assert HeadSize(454) == 3632;
    assert PoolSize(454, 1) == 4086;
    assert BufferSize(454, 1) == 4096;
    assert ExactSize(455, 1) == 4103;
  }

  /** A request whose size wraps: the pool made for it has no blocks at all. */
  lemma WrappedRequestIsEmpty()
    ensures LegalBlockSize(0x7FF_FFF8) && NewCount(32, 0x7FF_FFF8) == 0
  {
    assert HeadSize(32) == 256;
    assert PoolSize(32, 0x7FF_FFF8) == 0;
  }
}
