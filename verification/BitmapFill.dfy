/** Creation of bitmaps: stride, and filling the pixel array by copying what is there already. */
module BitmapFill {
  import opened Arithmetic
  import opened Basics

  datatype Status = Ok | InvImageDimensions | InvBitDepth | MemoryAllocation

  // ----- stride

  /** `(width * bitsPerPx + 31 & ~31) >> 3` in 32-bit arithmetic. */
  function Stride(width: nat, bitsPerPx: nat): nat {
    (width * bitsPerPx + 31) % UINT32_RANGE / 32 * 32 / 8
  }

  /** The least multiple of four bytes that holds `bits` bits. */
  ghost predicate IsLeastStride(stride: nat, bits: nat) {
    && stride % 4 == 0 && 8 * stride >= bits
    && forall s: nat | s % 4 == 0 && 8 * s >= bits :: stride <= s
  }

  /** Main result on the stride: it is the least one exactly if the sum does not wrap. */
  lemma StrideIsLeastIff(width: nat, bitsPerPx: nat)
    ensures IsLeastStride(Stride(width, bitsPerPx), width * bitsPerPx) <==> width * bitsPerPx + 31 < UINT32_RANGE
  {
    BitsIsLeastIff(width * bitsPerPx);
  }

  lemma BitsIsLeastIff(bits: nat)
    ensures IsLeastStride((bits + 31) % UINT32_RANGE / 32 * 32 / 8, bits) <==> bits + 31 < UINT32_RANGE
  {
    var x := (bits + 31) % UINT32_RANGE;
    assert x / 32 * 32 / 8 == x / 32 * 4;
    if bits + 31 < UINT32_RANGE {
      forall s: nat | s % 4 == 0 && 8 * s >= bits
        ensures x / 32 * 4 <= s
      {
        assert s == 4 * (s / 4);
      }
    } else {
      assert 8 * (x / 32 * 4) <= UINT32_RANGE - 32;
    }
  }

  /** A width at which the stride is wrong: 2^27 pixels of 32 bits give a stride of 0. */
  lemma WideBitmapHasNoStride()
    ensures Stride(0x800_0000, 32) == 0
  {
  }

  // ----- filling

  /** Byte `b` of a filled image: the pixel repeated over its row, cut off at the row's end. */
  function Pattern(pixel: seq<bv8>, rowSize: nat, b: nat): bv8
    requires |pixel| > 0 && rowSize > 0
  {
    pixel[b % rowSize % |pixel|]
  }

  /** Bytes `..n` of a row hold the pixel pattern. */
  predicate RowFilled(s: seq<bv8>, pixel: seq<bv8>, n: nat)
    requires |pixel| > 0 && n <= |s|
  {
    forall b | 0 <= b < n :: s[b] == pixel[b % |pixel|]
  }

  /** Bytes `..n` hold the image pattern. */
  predicate ImageFilled(s: seq<bv8>, pixel: seq<bv8>, rowSize: nat, n: nat)
    requires |pixel| > 0 && rowSize > 0 && n <= |s|
  {
    forall b | 0 <= b < n :: s[b] == Pattern(pixel, rowSize, b)
  }

  /** `memcpy` within one array; overlapping ranges would be undefined. */
  method CopyWithin(a: array<bv8>, dst: nat, src: nat, n: nat)
    requires src + n <= dst && dst + n <= a.Length
    modifies a
    ensures a[..] == old(a[..])[..dst] + old(a[..])[src..src + n] + old(a[..])[dst + n..]
  {
    ghost var s := a[..];
    for k := 0 to n
      invariant forall m | dst <= m < dst + k :: a[m] == s[m - dst + src]
      invariant forall m | 0 <= m < dst || dst + k <= m < a.Length :: a[m] == s[m]
    {
      a[dst + k] := a[src + k];
    }
    assert a[..dst] == s[..dst] && a[dst..dst + n] == s[src..src + n] && a[dst + n..] == s[dst + n..];
    assert a[..] == a[..dst] + a[dst..dst + n] + a[dst + n..];
  }

  lemma ModOfSum(i: nat, b: nat, m: nat)
    requires m > 0 && i % m == 0
    ensures (i + b) % m == b % m
  {
    RemainderOfSum(b, i / m, m);
    assert i / m * m == i;
  }

  /** Appending a copy of the first bytes continues the row pattern. */
  lemma RowStep(s: seq<bv8>, t: seq<bv8>, pixel: seq<bv8>, i: nat, n: nat)
    requires |pixel| > 0 && i % |pixel| == 0 && n <= i && i + n <= |s| == |t|
    requires RowFilled(s, pixel, i) && t == s[..i] + s[0..n] + s[i + n..]
    ensures RowFilled(t, pixel, i + n)
  {
    forall b | 0 <= b < i + n
      ensures t[b] == pixel[b % |pixel|]
    {
      if b >= i {
        ModOfSum(i, b - i, |pixel|);
        assert t[b] == s[b - i];
      }
    }
  }

  /** Appending a copy of the first rows continues the image pattern. */
  lemma ImageStep(s: seq<bv8>, t: seq<bv8>, pixel: seq<bv8>, rowSize: nat, i: nat, n: nat)
    requires |pixel| > 0 && rowSize > 0 && i % rowSize == 0 && n <= i && i + n <= |s| == |t|
    requires ImageFilled(s, pixel, rowSize, i) && t == s[..i] + s[0..n] + s[i + n..]
    ensures ImageFilled(t, pixel, rowSize, i + n)
  {
    forall b | 0 <= b < i + n
      ensures t[b] == Pattern(pixel, rowSize, b)
    {
      if b >= i {
        ModOfSum(i, b - i, rowSize);
        assert t[b] == s[b - i];
      }
    }
  }

  lemma FirstRowIsImage(s: seq<bv8>, pixel: seq<bv8>, rowSize: nat)
    requires |pixel| > 0 && 0 < rowSize <= |s| && RowFilled(s, pixel, rowSize)
    ensures ImageFilled(s, pixel, rowSize, rowSize)
  {
    forall b | 0 <= b < rowSize
      ensures s[b] == Pattern(pixel, rowSize, b)
    {
      QuotientIsUnique(b, rowSize, 0, b);
    }
  }

  // ----- the 32-bit row index

  predicate IsPowerOfTwo(p: nat) {
    p == 1 || (p > 1 && p % 2 == 0 && IsPowerOfTwo(p / 2))
  }

  /** The largest power of two below `n`. */
  function LargestPowerBelow(n: nat): (p: nat)
    requires n >= 2
    ensures p < n <= 2 * p && IsPowerOfTwo(p)
  {
    if n == 2 then 1 else 2 * LargestPowerBelow((n + 1) / 2)
  }

  lemma {:induction false} PowersAreApart(p: nat, q: nat)
    requires IsPowerOfTwo(p) && IsPowerOfTwo(q) && p < q
    ensures 2 * p <= q
  {
    if p > 1 {
      PowersAreApart(p / 2, q / 2);
    }
  }

  /** The largest row number the second loop copies to; 0 if it does not run. */
  function LastCopiedRow(height: nat): (p: nat)
    ensures height > 0 ==> p < height
  {
    if height < 2 then 0 else LargestPowerBelow(height)
  }

  /** All indices the second loop computes in 32 bits are representable. */
  predicate RowIndicesFit(height: nat, rowSize: nat) {
    LastCopiedRow(height) * rowSize < UINT32_RANGE
  }

  /** For rows of at least four bytes, heights beyond 2^30, on which the signed row counter
      overflows, are among those whose indices do not fit. */
  lemma OverflowingHeightsDoNotFit(height: nat, rowSize: nat)
    requires rowSize >= 4 && height > 0x4000_0000
    ensures !RowIndicesFit(height, rowSize)
  {
    var p := LargestPowerBelow(height);
    PowersUsed();
    if p < 0x4000_0000 {
      PowersAreApart(p, 0x4000_0000);
    }
    assert p * rowSize >= p * 4;
  }

  lemma DoublePower(p: nat)
    requires IsPowerOfTwo(p)
    ensures IsPowerOfTwo(2 * p)
  {
    assert 2 * p / 2 == p;
  }

  lemma SixteenTimes(p: nat)
    requires IsPowerOfTwo(p)
    ensures IsPowerOfTwo(16 * p)
  {
    hide IsPowerOfTwo;
    DoublePower(p);
    DoublePower(2 * p);
    DoublePower(4 * p);
    DoublePower(8 * p);
  }

  lemma PowersUsed()
    ensures IsPowerOfTwo(0x4000) && IsPowerOfTwo(0x8000) && IsPowerOfTwo(0x4000_0000)
  {
    assert IsPowerOfTwo(4) && IsPowerOfTwo(8);
    hide IsPowerOfTwo;
    SixteenTimes(8);
    SixteenTimes(0x80);
    SixteenTimes(0x800);
    SixteenTimes(4);
    SixteenTimes(0x40);
    SixteenTimes(0x400);
    SixteenTimes(0x4000);
    SixteenTimes(0x4_0000);
    SixteenTimes(0x40_0000);
    SixteenTimes(0x400_0000);
  }

  /** A row number, and the rows still to be copied from it on. */
  predicate CopiesRows(i: nat, rows: nat, height: nat) {
    IsPowerOfTwo(i) && 0 < i < height && rows == if height - i > i then i else height - i
  }

  /** What the wrapping indices of one copy amount to. If all indices fit, they are the exact ones.
      If not, no copy reaches a byte of the last row copied to, or behind it. */
  lemma CopyReaches(i: nat, rows: nat, height: nat, rowSize: nat)
    requires rowSize > 0 && CopiesRows(i, rows, height)
    ensures var dst, n, last := i * rowSize % UINT32_RANGE, rowSize * rows % UINT32_RANGE, LastCopiedRow(height) * rowSize;
            && (RowIndicesFit(height, rowSize) ==> dst == i * rowSize && n == rowSize * rows <= dst)
            && (!RowIndicesFit(height, rowSize) ==> dst + n <= last)
            && last <= height * rowSize && dst + n <= height * rowSize
  {
    var last := LargestPowerBelow(height);
    if last < i {
      PowersAreApart(last, i);
    }
    if i < last {
      PowersAreApart(i, last);
    }
    Scaled(i, last, rowSize);
    Scaled(2 * i, last, rowSize);
    Scaled(rows, i, rowSize);
    Scaled(last, height, rowSize);
    RowsStep(i, rows, height, rowSize);
    assert rowSize * rows == rows * rowSize && 2 * i * rowSize == i * rowSize + i * rowSize;
    WrappedSum(i * rowSize, rowSize * rows);
  }

  lemma Scaled(a: nat, b: nat, c: nat)
    ensures a <= b ==> a * c <= b * c
  {
    if a <= b {
      Distribute(c, b, a);
      assert (b - a) * c >= 0;
    }
  }

  lemma WrappedSum(x: nat, y: nat)
    requires y <= x
    ensures x % UINT32_RANGE + y % UINT32_RANGE <= x + y
    ensures x >= UINT32_RANGE ==> x % UINT32_RANGE + y % UINT32_RANGE <= x
    ensures x < UINT32_RANGE ==> x % UINT32_RANGE == x && y % UINT32_RANGE == y
  {
  }

  /** Sizes at the bound: 32768 rows of 131072 bytes fit although they are 2^32 bytes in all; of
      32769 such rows the last one is copied to row 0. */
  lemma LastRowIsMissed()
    ensures Stride(32768, 32) == 131072
    ensures RowIndicesFit(32768, 131072) && !RowIndicesFit(32769, 131072)
    ensures LastCopiedRow(32769) == 32768 && 32768 * 131072 % UINT32_RANGE == 0
  {
    PowersUsed();
    hide IsPowerOfTwo, LargestPowerBelow;
    PowerIsLargest(0x8000, 32769);
    PowerIsLargest(0x4000, 32768);
  }

  lemma PowerIsLargest(p: nat, n: nat)
    requires IsPowerOfTwo(p) && 2 <= n && p < n <= 2 * p
    ensures LargestPowerBelow(n) == p
  {
    var q := LargestPowerBelow(n);
    if p < q {
      PowersAreApart(p, q);
    } else if q < p {
      PowersAreApart(q, p);
    }
  }

  // ----- the fill

  /** Fills the image with a pixel. `cvtClearCol` is the converted colour as it lies in memory,
      of which the first `pixelWidth` bytes are used. Main result: if the 32-bit row indices fit,
      every byte is the one the naive fill would put there; if they do not, the last row copied
      to, and all behind it, keep what was there before. */
  method Fill(height: nat, pixelWidth: nat, rowSize: nat, cvtClearCol: seq<bv8>, pxArray: array<bv8>)
    requires 0 < pixelWidth <= |cvtClearCol| && pixelWidth <= rowSize
    requires 0 < height <= 0x4000_0000 && pxArray.Length == height * rowSize && 2 * rowSize < UINT32_RANGE
    modifies pxArray
    ensures RowIndicesFit(height, rowSize) ==>
      forall b | 0 <= b < height * rowSize :: pxArray[b] == Pattern(cvtClearCol[..pixelWidth], rowSize, b)
    ensures !RowIndicesFit(height, rowSize) ==>
      0 < LastCopiedRow(height) < height
      && forall b | LastCopiedRow(height) * rowSize <= b < height * rowSize :: pxArray[b] == old(pxArray[b])
  {
    ghost var pixel := cvtClearCol[..pixelWidth];
    FirstPixelFits(height, rowSize);
    FirstPixelFits(LastCopiedRow(height), rowSize);
    hide RowIndicesFit, LastCopiedRow;
    for k := 0 to pixelWidth
      invariant forall b | 0 <= b < k :: pxArray[b] == pixel[b]
      invariant forall b | k <= b < pxArray.Length :: pxArray[b] == old(pxArray[b])
    {
      pxArray[k] := cvtClearCol[k];
    }
    FillRow(pxArray, pixel, pixelWidth, rowSize);
    FirstRowIsImage(pxArray[..], pixel, rowSize);
    FillRows(pxArray, pixel, height, rowSize);
    assert forall b | 0 <= b < height * rowSize :: pxArray[b] == pxArray[..][b];
  }

  lemma FirstPixelFits(height: nat, rowSize: nat)
    ensures height > 0 ==> rowSize <= height * rowSize
  {
  }

  /** The first loop: doubles the filled part of the first row. */
  method FillRow(pxArray: array<bv8>, ghost pixel: seq<bv8>, pixelWidth: nat, rowSize: nat)
    requires 0 < pixelWidth == |pixel| <= rowSize <= pxArray.Length && 2 * rowSize < UINT32_RANGE
    requires forall b | 0 <= b < pixelWidth :: pxArray[b] == pixel[b]
    modifies pxArray
    ensures RowFilled(pxArray[..], pixel, rowSize)
    ensures forall b | rowSize <= b < pxArray.Length :: pxArray[b] == old(pxArray[b])
  {
    hide RowFilled;
    var i := pixelWidth;
    MultipleHasNoRemainder(pixelWidth, 1);
    RowBegins(pxArray[..], pixel);
    while i < rowSize
      invariant 0 < i < UINT32_RANGE && i % pixelWidth == 0
      invariant RowFilled(pxArray[..], pixel, if i < rowSize then i else rowSize)
      invariant forall b | rowSize <= b < pxArray.Length :: pxArray[b] == old(pxArray[b])
      decreases rowSize - i
    {
      AppendCopy(pxArray, pixel, i, if rowSize - i > i then i else rowSize - i);
      ModOfSum(i, i, pixelWidth);
      i := i + i;
    }
  }

  /** One copy of the first loop. */
  method AppendCopy(pxArray: array<bv8>, ghost pixel: seq<bv8>, i: nat, n: nat)
    requires 0 < |pixel| && i % |pixel| == 0 && n <= i && i + n <= pxArray.Length
    requires RowFilled(pxArray[..], pixel, i)
    modifies pxArray
    ensures RowFilled(pxArray[..], pixel, i + n)
    ensures forall b | i + n <= b < pxArray.Length :: pxArray[b] == old(pxArray[b])
  {
    hide RowFilled;
    ghost var s := pxArray[..];
    CopyWithin(pxArray, i, 0, n);
    RowStep(s, pxArray[..], pixel, i, n);
    assert forall b | i + n <= b < pxArray.Length :: pxArray[..][b] == s[b];
  }

  lemma RowBegins(s: seq<bv8>, pixel: seq<bv8>)
    requires 0 < |pixel| <= |s| && forall b | 0 <= b < |pixel| :: s[b] == pixel[b]
    ensures RowFilled(s, pixel, |pixel|)
  {
    forall b | 0 <= b < |pixel|
      ensures s[b] == pixel[b % |pixel|]
    {
      QuotientIsUnique(b, |pixel|, 0, b);
    }
  }

  /** The second loop: doubles the number of filled rows, with indices computed in 32 bits. */
  method FillRows(pxArray: array<bv8>, ghost pixel: seq<bv8>, height: nat, rowSize: nat)
    requires |pixel| > 0 && 0 < rowSize && 0 < height <= 0x4000_0000 && pxArray.Length == height * rowSize
    requires rowSize <= pxArray.Length && ImageFilled(pxArray[..], pixel, rowSize, rowSize)
    modifies pxArray
    ensures RowIndicesFit(height, rowSize) ==> ImageFilled(pxArray[..], pixel, rowSize, height * rowSize)
    ensures !RowIndicesFit(height, rowSize) ==>
      0 < LastCopiedRow(height) < height
      && forall b | LastCopiedRow(height) * rowSize <= b < pxArray.Length :: pxArray[b] == old(pxArray[b])
  {
    ghost var fits, last := RowIndicesFit(height, rowSize), LastCopiedRow(height) * rowSize;
    LoopRuns(height, rowSize);
    hide ImageFilled, RowIndicesFit, LastCopiedRow;
    var i := 1;
    while i < height
      invariant 0 < i <= 0x4000_0000 && IsPowerOfTwo(i)
      invariant RowsWithin(i, height, rowSize) <= pxArray.Length
      invariant fits ==> ImageFilled(pxArray[..], pixel, rowSize, RowsWithin(i, height, rowSize))
      invariant !fits ==> forall b | last <= b < pxArray.Length :: pxArray[b] == old(pxArray[b])
      decreases height - i
    {
      CopyRows(pxArray, pixel, i, height, rowSize);
      CounterStaysSmall(i, height);
      i := i + i;
    }
  }

  lemma LoopRuns(height: nat, rowSize: nat)
    ensures !RowIndicesFit(height, rowSize) ==> 0 < LastCopiedRow(height) < height
  {
  }

  /** The counter ends at 2^30 at most. */
  lemma CounterStaysSmall(i: nat, height: nat)
    requires IsPowerOfTwo(i) && i < height <= 0x4000_0000
    ensures 2 * i <= 0x4000_0000 && IsPowerOfTwo(i + i)
  {
    hide IsPowerOfTwo;
    DoublePower(i);
    PowersUsed();
    PowersAreApart(i, 0x4000_0000);
  }

  /** One copy of the second loop. Between overlapping ranges, which only wrapped indices give, it
      is undefined what the destination holds afterwards. */
  method CopyRows(pxArray: array<bv8>, ghost pixel: seq<bv8>, i: nat, height: nat, rowSize: nat)
    requires |pixel| > 0 && 0 < rowSize && IsPowerOfTwo(i) && 0 < i < height && pxArray.Length == height * rowSize
    requires RowIndicesFit(height, rowSize) ==>
      i * rowSize <= pxArray.Length && ImageFilled(pxArray[..], pixel, rowSize, i * rowSize)
    modifies pxArray
    ensures RowsWithin(i + i, height, rowSize) <= pxArray.Length
    ensures RowIndicesFit(height, rowSize) ==> ImageFilled(pxArray[..], pixel, rowSize, RowsWithin(i + i, height, rowSize))
    ensures !RowIndicesFit(height, rowSize) ==>
      forall b | LastCopiedRow(height) * rowSize <= b < pxArray.Length :: pxArray[b] == old(pxArray[b])
  {
    var rows := if height - i > i then i else height - i;
    CopyReaches(i, rows, height, rowSize);
    RowsStep(i, rows, height, rowSize);
    hide ImageFilled, RowIndicesFit, LastCopiedRow, IsPowerOfTwo, RowsWithin;
    ghost var s := pxArray[..];
    var dst, n := i * rowSize % UINT32_RANGE, rowSize * rows % UINT32_RANGE;
    if n <= dst {
      CopyWithin(pxArray, dst, 0, n);
    } else {
      CopyOverlapping(pxArray, dst, n);
    }
    assert forall b | dst + n <= b < pxArray.Length :: pxArray[..][b] == s[b];
    if RowIndicesFit(height, rowSize) {
      RowsContinue(s, pxArray[..], pixel, rowSize, i, rows);
    }
  }

  lemma RowsContinue(s: seq<bv8>, t: seq<bv8>, pixel: seq<bv8>, rowSize: nat, i: nat, rows: nat)
    requires |pixel| > 0 && rowSize > 0
    requires rowSize * rows <= i * rowSize && i * rowSize + rowSize * rows <= |s| == |t|
    requires ImageFilled(s, pixel, rowSize, i * rowSize)
    requires t == s[..i * rowSize] + s[0..rowSize * rows] + s[i * rowSize + rowSize * rows..]
    ensures ImageFilled(t, pixel, rowSize, i * rowSize + rowSize * rows)
  {
    hide ImageFilled;
    MultipleHasNoRemainder(rowSize, i);
    assert rowSize * i == i * rowSize;
    ImageStep(s, t, pixel, rowSize, i * rowSize, rowSize * rows);
  }

  /** `memcpy` from the beginning of an array to an overlapping range: nothing else changes. */
  method CopyOverlapping(a: array<bv8>, dst: nat, n: nat)
    requires dst + n <= a.Length
    modifies a
    ensures forall m | 0 <= m < dst || dst + n <= m < a.Length :: a[m] == old(a[m])
  {
    for k := 0 to n
      invariant forall m | 0 <= m < dst || dst + n <= m < a.Length :: a[m] == old(a[m])
    {
      a[dst + k] := a[k];
    }
  }

  /** Bytes in the first `i` rows of an image. */
  function RowsWithin(i: nat, height: nat, rowSize: nat): nat {
    if i < height then i * rowSize else height * rowSize
  }

  lemma RowsStep(i: nat, rows: nat, height: nat, rowSize: nat)
    requires 0 < i < height && rows == if height - i > i then i else height - i
    ensures i * rowSize + rowSize * rows == RowsWithin(i + i, height, rowSize)
    ensures rowSize * rows <= i * rowSize && i * rowSize + rowSize * rows <= height * rowSize
  {
    assert rowSize * rows == rows * rowSize;
    assert i * rowSize + rows * rowSize == (i + rows) * rowSize;
    assert (i - rows) * rowSize >= 0 && (height - i - rows) * rowSize >= 0;
    assert (i - rows) * rowSize == i * rowSize - rows * rowSize;
    assert (height - i - rows) * rowSize == height * rowSize - (i + rows) * rowSize;
  }

  // ----- creation

  /** The checks run one after the other, so the last one that fails decides the error. */
  function ValidateSpecification(width: int, height: int, bitsPerPx: nat): Status {
    if bitsPerPx != 24 && bitsPerPx != 32 then InvBitDepth
    else if width <= 0 || height <= 0 then InvImageDimensions
    else Ok
  }

  /** Validated sizes without wrap in a row satisfy what the fill needs of its rows. */
  lemma ValidSizesSuffice(width: nat, height: nat, bitsPerPx: nat)
    requires ValidateSpecification(width, height, bitsPerPx) == Ok
    requires width * bitsPerPx + 31 < UINT32_RANGE
    ensures bitsPerPx / 8 <= 4 <= Stride(width, bitsPerPx) && 2 * Stride(width, bitsPerPx) < UINT32_RANGE
  {
    assert width * bitsPerPx >= 24;
    StrideBounds(width * bitsPerPx);
  }

  lemma StrideBounds(bits: nat)
    requires 24 <= bits && bits + 31 < UINT32_RANGE
    ensures 4 <= (bits + 31) % UINT32_RANGE / 32 * 32 / 8 <= UINT32_RANGE / 8
  {
  }

  /** Creates a bitmap; a given colour fills the whole array, padding included, if the row indices
      fit. */
  method Create(width: int, height: int, bitsPerPx: nat, clearCol: seq<bv8>, fill: bool, heapOk: bool)
    returns (status: Status, stride: nat, pxArray: array?<bv8>)
    requires |clearCol| == 4
    requires ValidateSpecification(width, height, bitsPerPx) == Ok ==>
      width * bitsPerPx + 31 < UINT32_RANGE && (fill ==> height <= 0x4000_0000)
    ensures status == InvBitDepth <==> bitsPerPx != 24 && bitsPerPx != 32
    ensures status == InvImageDimensions <==> (bitsPerPx == 24 || bitsPerPx == 32) && (width <= 0 || height <= 0)
    ensures status == MemoryAllocation <==> (bitsPerPx == 24 || bitsPerPx == 32) && width > 0 && height > 0 && !heapOk
    ensures status == if ValidateSpecification(width, height, bitsPerPx) != Ok
                      then ValidateSpecification(width, height, bitsPerPx)
                      else if heapOk then Ok else MemoryAllocation
    ensures status == Ok ==>
      && width > 0 && height > 0 && pxArray != null && fresh(pxArray)
      && IsLeastStride(stride, width * bitsPerPx) && stride > 0
      && pxArray.Length == height * stride
      && bitsPerPx / 8 in {3, 4}
      && (fill && RowIndicesFit(height, stride) ==> forall b | 0 <= b < height * stride ::
            pxArray[b] == Pattern(clearCol[..bitsPerPx / 8], stride, b))
  {
    status, stride, pxArray := Ok, 0, null;
    if width <= 0 {
      status := InvImageDimensions;
    }
    if height <= 0 {
      status := InvImageDimensions;
    }
    if bitsPerPx != 24 && bitsPerPx != 32 {
      status := InvBitDepth;
    }
    if status != Ok {
      return;
    }
    stride := Stride(width, bitsPerPx);
    if !heapOk {
      return MemoryAllocation, stride, null;
    }
    StrideIsLeastIff(width, bitsPerPx);
    ValidSizesSuffice(width, height, bitsPerPx);
    hide Stride, IsLeastStride, Pattern, RowIndicesFit, LastCopiedRow;
    pxArray := new bv8[height * stride];
    if fill {
      Fill(height, bitsPerPx / 8, stride, clearCol, pxArray);
    }
  }

  /** Every whole pixel of a filled image has the colour: byte `c` of pixel (x, y). */
  lemma PixelsHaveColour(pixel: seq<bv8>, rowSize: nat, x: nat, y: nat, c: nat)
    requires c < |pixel| && (x + 1) * |pixel| <= rowSize
    ensures Pattern(pixel, rowSize, y * rowSize + x * |pixel| + c) == pixel[c]
  {
    var inRow := x * |pixel| + c;
    assert (x + 1) * |pixel| == x * |pixel| + |pixel|;
    assert y * rowSize + inRow == rowSize * y + inRow;
    QuotientIsUnique(y * rowSize + inRow, rowSize, y, inRow);
    QuotientIsUnique(inRow, |pixel|, x, c);
    assert y * rowSize + x * |pixel| + c == y * rowSize + inRow;
  }
}
