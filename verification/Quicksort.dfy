/** Sorting of pointer arrays by a comparator. */
module Quicksort {

  const SIZE_MAX := 0xFFFF_FFFF_FFFF_FFFF

  /** OutOfBounds is not an error code: it stands for an access outside the array. */
  datatype Status = Ok | NoOperation | InvalidRange | OutOfBounds

  /** A comparator orders two elements by the sign of its answer. */
  type Comparator<!T> = (T, T) -> int

  predicate AtMost<T>(cmp: Comparator<T>, x: T, y: T) {
    cmp(x, y) <= 0
  }

  /** What a comparator must satisfy: any two elements compare, and the order is transitive. */
  ghost predicate TotalPreorder<T(!new)>(cmp: Comparator<T>) {
    && (forall x, y :: AtMost(cmp, x, y) || AtMost(cmp, y, x))
    && (forall x, y, z :: AtMost(cmp, x, y) && AtMost(cmp, y, z) ==> AtMost(cmp, x, z))
  }

  /** Elements outside `lo..hi` are unchanged, those inside are rearranged. */
  ghost predicate Rearranged<T>(before: seq<T>, after: seq<T>, lo: nat, hi: nat)
    requires lo <= hi <= |before| == |after|
  {
    && before[..lo] == after[..lo] && before[hi..] == after[hi..]
    && multiset(before[lo..hi]) == multiset(after[lo..hi])
  }

  /** Position `p` separates the inclusive range `lo..hi`: nothing before it exceeds it, and
      everything after it does. */
  predicate Separates<T>(cmp: Comparator<T>, s: seq<T>, lo: nat, hi: nat, p: nat)
    requires lo <= p <= hi < |s|
  {
    && (forall k | lo <= k < p :: AtMost(cmp, s[k], s[p]))
    && (forall k | p < k <= hi :: !AtMost(cmp, s[k], s[p]))
  }

  /** No element is preceded by a greater one at distance `gap` or more. */
  predicate SortedByGap<T>(cmp: Comparator<T>, s: seq<T>, lo: nat, hi: int, gap: nat)
    requires hi < |s|
  {
    forall j, k | lo <= j && j + gap <= k <= hi :: AtMost(cmp, s[j], s[k])
  }

  // ----- lemmas

  lemma SwapRearranges<T>(before: seq<T>, s: seq<T>, lo: nat, hi: nat, i: nat, j: nat)
    requires lo <= hi <= |before| == |s| && Rearranged(before, s, lo, hi)
    requires lo <= i < hi && lo <= j < hi
    ensures Rearranged(before, s[i := s[j]][j := s[i]], lo, hi)
  {
    var t := s[i := s[j]][j := s[i]];
    assert t[..lo] == s[..lo] && t[hi..] == s[hi..];
    assert t[lo..hi] == s[lo..hi][i - lo := s[j]][j - lo := s[i]];
    assert s[j] == s[lo..hi][j - lo] && s[i] == s[lo..hi][i - lo];
  }

  lemma RearrangedIsReflexive<T>(s: seq<T>, lo: nat, hi: nat)
    requires lo <= hi <= |s|
    ensures Rearranged(s, s, lo, hi)
  {
  }

  lemma RearrangedIsTransitive<T>(a: seq<T>, b: seq<T>, c: seq<T>, lo: nat, hi: nat)
    requires lo <= hi <= |a| == |b| == |c|
    requires Rearranged(a, b, lo, hi) && Rearranged(b, c, lo, hi)
    ensures Rearranged(a, c, lo, hi)
  {
  }

  /** Rearranging a part rearranges the whole range. */
  lemma RearrangedWiden<T>(a: seq<T>, b: seq<T>, lo: nat, lo': nat, hi': nat, hi: nat)
    requires lo <= lo' <= hi' <= hi <= |a| == |b| && Rearranged(a, b, lo', hi')
    ensures Rearranged(a, b, lo, hi)
  {
    assert a[..lo] == a[..lo'][..lo] && b[..lo] == b[..lo'][..lo];
    assert a[hi..] == a[hi'..][hi - hi'..] && b[hi..] == b[hi'..][hi - hi'..];
    assert a[lo..hi] == a[..lo'][lo..] + a[lo'..hi'] + a[hi'..][..hi - hi'];
    assert b[lo..hi] == b[..lo'][lo..] + b[lo'..hi'] + b[hi'..][..hi - hi'];
  }

  /** A property of all elements of a range survives rearranging it. */
  lemma RearrangedKeeps<T(!new)>(a: seq<T>, b: seq<T>, lo: nat, hi: nat, prop: T -> bool)
    requires lo <= hi <= |a| == |b| && Rearranged(a, b, lo, hi)
    requires forall k | lo <= k < hi :: prop(a[k])
    ensures forall k | lo <= k < hi :: prop(b[k])
  {
    forall k | lo <= k < hi
      ensures prop(b[k])
    {
      assert b[k] in multiset(b[lo..hi]) by {
        assert b[lo..hi][k - lo] == b[k];
      }
      assert b[k] in a[lo..hi];
    }
  }

  /** Elements on the wrong sides of a pivot are out of order; no element is so with itself. */
  lemma OutOfOrder<T(!new)>(cmp: Comparator<T>, x: T, y: T, pivot: T)
    requires TotalPreorder(cmp)
    ensures AtMost(cmp, x, x)
    ensures !AtMost(cmp, x, pivot) && AtMost(cmp, y, pivot) ==> !AtMost(cmp, x, y)
  {
  }

  /** Elements on either side of a pivot are in order. */
  lemma AcrossPivot<T(!new)>(cmp: Comparator<T>, x: T, pivot: T, y: T)
    requires TotalPreorder(cmp) && AtMost(cmp, x, pivot) && !AtMost(cmp, y, pivot)
    ensures AtMost(cmp, x, y) && AtMost(cmp, pivot, y)
  {
  }

  // ----- partition

  /** First position from `i` on, up to `j`, whose element is greater than the pivot. */
  method ScanUp<T>(a: array<T>, i: nat, j: nat, pivot: T, cmp: Comparator<T>) returns (r: nat)
    requires i <= j < a.Length
    ensures i <= r <= j && forall k | i <= k < r :: AtMost(cmp, a[k], pivot)
    ensures r < j ==> !AtMost(cmp, a[r], pivot)
  {
    r := i;
    while r < j && cmp(a[r], pivot) <= 0
      invariant i <= r <= j && forall k | i <= k < r :: AtMost(cmp, a[k], pivot)
    {
      r := r + 1;
    }
  }

  /** Last position from `j` down, to `i`, whose element is not greater than the pivot. */
  method ScanDown<T>(a: array<T>, i: nat, j: nat, pivot: T, cmp: Comparator<T>) returns (r: nat)
    requires i <= j < a.Length
    ensures i <= r <= j && forall k | r < k <= j :: !AtMost(cmp, a[k], pivot)
    ensures r > i ==> AtMost(cmp, a[r], pivot)
  {
    r := j;
    while r > i && cmp(a[r], pivot) > 0
      invariant i <= r <= j && forall k | r < k <= j :: !AtMost(cmp, a[k], pivot)
    {
      r := r - 1;
    }
  }

  method Swap<T>(a: array<T>, i: nat, j: nat)
    requires i < a.Length && j < a.Length
    modifies a
    ensures a[..] == old(a[..])[i := old(a[j])][j := old(a[i])]
  {
    a[i], a[j] := a[j], a[i];
  }

  /** State of the split between two rounds, in terms of the array as it was before. */
  ghost predicate Splitting<T>(cmp: Comparator<T>, before: seq<T>, s: seq<T>, left: nat, right: nat, i: nat, j: nat)
    requires right < |before| == |s|
  {
    var pivot := before[right];
    && left <= i <= j < right && s[right] == pivot
    && Rearranged(before, s, left, right + 1)
    && (forall k | left <= k < i :: AtMost(cmp, s[k], pivot))
    && (forall k | j < k < right :: !AtMost(cmp, s[k], pivot))
    && (j == right - 1 || !AtMost(cmp, s[j], pivot))
    && (AtMost(cmp, before[left], pivot) ==> s[left] == before[left])
  }

  /** Exchanging two elements found on the wrong sides. */
  lemma SplittingAfterSwap<T(!new)>(cmp: Comparator<T>, before: seq<T>, s: seq<T>, left: nat, right: nat, i: nat, j: nat, i': nat, j': nat)
    requires right < |before| == |s| && Splitting(cmp, before, s, left, right, i, j)
    requires i <= i' < j' <= j
    requires forall k | i <= k < i' :: AtMost(cmp, s[k], before[right])
    requires forall k | j' < k <= j :: !AtMost(cmp, s[k], before[right])
    requires !AtMost(cmp, s[i'], before[right]) && AtMost(cmp, s[j'], before[right])
    ensures Splitting(cmp, before, s[i' := s[j']][j' := s[i']], left, right, i', j')
  {
    SwapRearranges(before, s, left, right + 1, i', j');
    hide Rearranged, AtMost;
    var t := s[i' := s[j']][j' := s[i']];
    assert forall k | 0 <= k < |s| && k != i' && k != j' :: t[k] == s[k];
  }

  /** Indices that have met without an exchange. */
  lemma SplittingWhenMet<T(!new)>(cmp: Comparator<T>, before: seq<T>, s: seq<T>, left: nat, right: nat, i: nat, j: nat, m: nat)
    requires right < |before| == |s| && Splitting(cmp, before, s, left, right, i, j)
    requires i <= m <= j
    requires forall k | i <= k < m :: AtMost(cmp, s[k], before[right])
    requires forall k | m < k <= j :: !AtMost(cmp, s[k], before[right])
    requires m == j || !AtMost(cmp, s[m], before[right])
    ensures Splitting(cmp, before, s, left, right, m, m)
  {
    hide Rearranged;
  }

  /** What the last exchange makes of the state in which the indices have met. */
  lemma SplitDone<T(!new)>(cmp: Comparator<T>, before: seq<T>, s: seq<T>, left: nat, right: nat, i: nat)
    requires TotalPreorder(cmp) && right < |before| == |s| && Splitting(cmp, before, s, left, right, i, i)
    ensures AtMost(cmp, s[i], before[right]) ==> Separates(cmp, s, left, right, right)
    ensures !AtMost(cmp, s[i], before[right]) ==>
      var t := s[i := s[right]][right := s[i]];
      && Separates(cmp, t, left, right, i) && Rearranged(before, t, left, right + 1)
      && (AtMost(cmp, before[left], before[right]) ==> t[left] == before[left])
  {
    hide Rearranged, TotalPreorder;
    SwapRearranges(before, s, left, right + 1, i, right);
  }

  lemma SplittingFacts<T(!new)>(cmp: Comparator<T>, before: seq<T>, s: seq<T>, left: nat, right: nat, i: nat, j: nat)
    requires right < |before| == |s| && Splitting(cmp, before, s, left, right, i, j)
    ensures left <= i <= j < right && s[right] == before[right] && Rearranged(before, s, left, right + 1)
    ensures AtMost(cmp, before[left], before[right]) ==> s[left] == before[left]
  {
  }

  lemma SplittingBegins<T(!new)>(cmp: Comparator<T>, before: seq<T>, left: nat, right: nat)
    requires left < right < |before|
    ensures Splitting(cmp, before, before, left, right, left, right - 1)
  {
  }

  // ----- the split as a function

  /** First position from `i` on, up to `j`, whose element is greater than the pivot. */
  function UpFrom<T>(cmp: Comparator<T>, s: seq<T>, i: nat, j: nat, pivot: T): (r: nat)
    requires i <= j < |s|
    ensures i <= r <= j && (r < j ==> !AtMost(cmp, s[r], pivot))
    decreases j - i
  {
    if i == j || !AtMost(cmp, s[i], pivot) then i else UpFrom(cmp, s, i + 1, j, pivot)
  }

  /** Last position from `j` down, to `i`, whose element is not greater than the pivot. */
  function DownFrom<T>(cmp: Comparator<T>, s: seq<T>, i: nat, j: nat, pivot: T): (r: nat)
    requires i <= j < |s|
    ensures i <= r <= j && (r > i ==> AtMost(cmp, s[r], pivot))
    decreases j - i
  {
    if i == j || AtMost(cmp, s[j], pivot) then j else DownFrom(cmp, s, i, j - 1, pivot)
  }

  lemma {:induction false} UpFromIs<T>(cmp: Comparator<T>, s: seq<T>, i: nat, j: nat, pivot: T, r: nat)
    requires i <= r <= j < |s| && (r < j ==> !AtMost(cmp, s[r], pivot))
    requires forall k | i <= k < r :: AtMost(cmp, s[k], pivot)
    ensures UpFrom(cmp, s, i, j, pivot) == r
    decreases j - i
  {
    if i < r {
      UpFromIs(cmp, s, i + 1, j, pivot, r);
    }
  }

  lemma {:induction false} DownFromIs<T>(cmp: Comparator<T>, s: seq<T>, i: nat, j: nat, pivot: T, r: nat)
    requires i <= r <= j < |s| && (r > i ==> AtMost(cmp, s[r], pivot))
    requires forall k | r < k <= j :: !AtMost(cmp, s[k], pivot)
    ensures DownFrom(cmp, s, i, j, pivot) == r
    decreases j - i
  {
    if r < j {
      DownFromIs(cmp, s, i, j - 1, pivot, r);
    }
  }

  /** Exchanges two elements if they are out of order. */
  function Ordering<T>(cmp: Comparator<T>, s: seq<T>, i: nat, j: nat): (t: seq<T>)
    requires i < |s| && j < |s|
    ensures |t| == |s|
  {
    if cmp(s[i], s[j]) > 0 then s[i := s[j]][j := s[i]] else s
  }

  /** The rounds of the split: the array they leave and where the indices meet. */
  ghost function Rounds<T(!new)>(cmp: Comparator<T>, s: seq<T>, i: nat, j: nat, pivot: T): (r: (seq<T>, nat))
    requires TotalPreorder(cmp) && i <= j < |s|
    ensures |r.0| == |s| && i <= r.1 <= j
    decreases j - i, if AtMost(cmp, s[i], pivot) then 0 else 1
  {
    if i == j then (s, i)
    else
      var i' := UpFrom(cmp, s, i, j, pivot);
      var j' := DownFrom(cmp, s, i', j, pivot);
      OutOfOrder(cmp, s[i'], s[j'], pivot);
      Rounds(cmp, Ordering(cmp, s, i', j'), i', j', pivot)
  }

  /** What a split makes of a range, and where it puts its last element. */
  ghost function SplitOf<T(!new)>(cmp: Comparator<T>, s: seq<T>, left: nat, right: nat): (r: (seq<T>, nat))
    requires TotalPreorder(cmp) && left < right < |s|
    ensures |r.0| == |s| && left <= r.1 <= right
  {
    var (t, i) := Rounds(cmp, s, left, right - 1, s[right]);
    if cmp(t[i], s[right]) > 0 then (t[i := t[right]][right := t[i]], i) else (t, right)
  }

  lemma RoundsStep<T(!new)>(cmp: Comparator<T>, s: seq<T>, i: nat, j: nat, pivot: T, i': nat, j': nat)
    requires TotalPreorder(cmp) && i < j < |s|
    requires i <= i' <= j' <= j
    requires forall k | i <= k < i' :: AtMost(cmp, s[k], pivot)
    requires forall k | j' < k <= j :: !AtMost(cmp, s[k], pivot)
    requires i' < j ==> !AtMost(cmp, s[i'], pivot)
    requires j' > i' ==> AtMost(cmp, s[j'], pivot)
    ensures Rounds(cmp, s, i, j, pivot) == Rounds(cmp, Ordering(cmp, s, i', j'), i', j', pivot)
  {
    UpFromIs(cmp, s, i, j, pivot, i');
    DownFromIs(cmp, s, i', j, pivot, j');
  }

  lemma RoundsEnd<T(!new)>(cmp: Comparator<T>, s: seq<T>, i: nat, pivot: T)
    requires TotalPreorder(cmp) && i < |s|
    ensures Rounds(cmp, s, i, i, pivot) == (s, i)
  {
  }

  /** Whether sorting the range from index 0 to `hi` leaves the array: one of the splits of its
      leftmost parts, down to parts of two elements, is at index 0. */
  ghost predicate LeavesArray<T(!new)>(cmp: Comparator<T>, s: seq<T>, hi: nat)
    requires TotalPreorder(cmp) && hi < |s|
    decreases hi
  {
    hi >= 2 &&
    var (t, p) := SplitOf(cmp, s, 0, hi);
    p == 0 || LeavesArray(cmp, t, p - 1)
  }

  /** One round of the split; `before` is the array as it was at the start. */
  method SplitRound<T(!new)>(a: array<T>, ghost before: seq<T>, left: nat, right: nat, i: nat, j: nat, pivot: T, cmp: Comparator<T>)
    returns (i': nat, j': nat)
    requires TotalPreorder(cmp) && right < |before| == a.Length && pivot == before[right]
    requires Splitting(cmp, before, a[..], left, right, i, j) && i < j
    modifies a
    ensures Splitting(cmp, before, a[..], left, right, i', j')
    ensures left <= i' <= j' < right && a[right] == pivot
    ensures Rounds(cmp, a[..], i', j', pivot) == Rounds(cmp, old(a[..]), i, j, pivot)
    ensures j' - i' < j - i || (j' - i' == j - i && !AtMost(cmp, old(a[i]), pivot) && AtMost(cmp, a[i'], pivot))
  {
    hide Rearranged, TotalPreorder;
    ghost var s := a[..];
    i' := ScanUp(a, i, j, pivot, cmp);
    j' := ScanDown(a, i', j, pivot, cmp);
    OutOfOrder(cmp, a[i'], a[j'], pivot);
    RoundsStep(cmp, s, i, j, pivot, i', j');
    hide Rounds;
    if i' < j' {
      SplittingAfterSwap(cmp, before, s, left, right, i, j, i', j');
    } else {
      SplittingWhenMet(cmp, before, s, left, right, i, j, i');
    }
    hide Splitting;
    if cmp(a[i'], a[j']) > 0 {
      Swap(a, i', j');
    }
    assert a[..] == Ordering(cmp, s, i', j');
  }

  /** Splits the inclusive range `left..right` around its last element; returns where that
      element ends up. A round may swap without moving an index: the next one then moves. */
  method Split<T(!new)>(a: array<T>, left: nat, right: nat, cmp: Comparator<T>) returns (p: nat)
    requires TotalPreorder(cmp) && left < right < a.Length
    modifies a
    ensures left <= p <= right && Separates(cmp, a[..], left, right, p)
    ensures Rearranged(old(a[..]), a[..], left, right + 1)
    ensures a[p] == old(a[right])
    ensures (a[..], p) == SplitOf(cmp, old(a[..]), left, right)
    ensures AtMost(cmp, old(a[left]), old(a[right])) ==> a[left] == old(a[left])
  {
    hide TotalPreorder, Separates, Rearranged, Splitting, Rounds;
    var i: nat, j: nat, pivot := left, right - 1, a[right];
    ghost var before := a[..];
    SplittingBegins(cmp, before, left, right);
    while i < j
      invariant i <= j < right && a[right] == pivot == before[right]
      invariant Splitting(cmp, before, a[..], left, right, i, j)
      invariant Rounds(cmp, a[..], i, j, pivot) == Rounds(cmp, before, left, right - 1, pivot)
      decreases j - i, if AtMost(cmp, a[i], pivot) then 0 else 1
    {
      i, j := SplitRound(a, before, left, right, i, j, pivot, cmp);
    }
    SplitDone(cmp, before, a[..], left, right, i);
    RoundsEnd(cmp, a[..], i, pivot);
    SplittingFacts(cmp, before, a[..], left, right, i, i);
    if cmp(a[i], pivot) > 0 {
      Swap(a, i, right);
    } else {
      i := right;
    }
    return i;
  }

  /** The split index is the left end exactly when the last element is smaller than all others. */
  lemma SplitAtLeftEndIff<T(!new)>(before: seq<T>, after: seq<T>, left: nat, right: nat, p: nat, cmp: Comparator<T>)
    requires left <= p <= right < |before| == |after|
    requires Rearranged(before, after, left, right + 1) && Separates(cmp, after, left, right, p)
    requires after[p] == before[right]
    ensures p == left <==> forall k | left <= k < right :: !AtMost(cmp, before[k], before[right])
  {
    var pivot := before[right];
    OthersAreRest(before, after, left, right, p);
    hide Rearranged;
    if p == left {
      forall k | left <= k < right
        ensures !AtMost(cmp, before[k], pivot)
      {
        assert before[left..right][k - left] == before[k];
        var m := SameBagHas(before[left..right], after[left..p] + after[p + 1..right + 1], k - left);
        assert before[k] == after[p + 1 + m];
      }
    } else {
      var m := SameBagHas(after[left..p] + after[p + 1..right + 1], before[left..right], 0);
      assert before[left + m] == after[left];
    }
  }

  lemma SameBagHas<T>(s: seq<T>, t: seq<T>, i: nat) returns (m: nat)
    requires multiset(s) == multiset(t) && i < |s|
    ensures m < |t| && t[m] == s[i]
  {
    assert s[i] in multiset(s);
    m :| 0 <= m < |t| && t[m] == s[i];
  }

  /** The elements other than the pivot. */
  lemma OthersAreRest<T>(before: seq<T>, after: seq<T>, left: nat, right: nat, p: nat)
    requires left <= p <= right < |before| == |after|
    requires Rearranged(before, after, left, right + 1) && after[p] == before[right]
    ensures multiset(before[left..right]) == multiset(after[left..p] + after[p + 1..right + 1])
  {
    var pivot := before[right];
    assert before[left..right + 1] == before[left..right] + [pivot];
    assert after[left..right + 1] == after[left..p] + [pivot] + after[p + 1..right + 1];
    SameBagWithout(before[left..right + 1], before[left..right], after[left..right + 1], after[left..p], after[p + 1..right + 1], pivot);
  }

  lemma SameBagWithout<T>(s: seq<T>, others: seq<T>, t: seq<T>, a: seq<T>, b: seq<T>, x: T)
    requires s == others + [x] && t == a + [x] + b && multiset(s) == multiset(t)
    ensures multiset(others) == multiset(a + b)
  {
    assert multiset(s) == multiset(others) + multiset{x};
    assert multiset(t) == multiset(a) + multiset{x} + multiset(b);
    assert multiset(t) - multiset{x} == multiset(a + b);
  }

  /** Whether the sort, if it does not leave the array, leaves the range sorted: every part of two
      elements that it does not look at is in order already. */
  ghost predicate EndsSorted<T(!new)>(cmp: Comparator<T>, s: seq<T>, lo: nat, hi: int)
    requires TotalPreorder(cmp) && hi < |s|
    decreases hi - lo
  {
    if hi <= lo then true
    else if hi == lo + 1 then AtMost(cmp, s[lo], s[hi])
    else
      var (t, p) := SplitOf(cmp, s, lo, hi);
      EndsSorted(cmp, t, lo, p - 1) && EndsSorted(cmp, t, p + 1, hi)
  }

  /** The elements of two sequences agree on an inclusive range. */
  predicate SameIn<T(==)>(s: seq<T>, s': seq<T>, lo: nat, hi: int) {
    |s| == |s'| && hi < |s| && forall k | lo <= k <= hi :: s[k] == s'[k]
  }

  lemma {:induction false} UpFromFrame<T>(cmp: Comparator<T>, s: seq<T>, s': seq<T>, i: nat, j: nat, pivot: T)
    requires i <= j < |s| && SameIn(s, s', i, j)
    ensures UpFrom(cmp, s, i, j, pivot) == UpFrom(cmp, s', i, j, pivot)
    decreases j - i
  {
    if i < j {
      UpFromFrame(cmp, s, s', i + 1, j, pivot);
    }
  }

  lemma {:induction false} DownFromFrame<T>(cmp: Comparator<T>, s: seq<T>, s': seq<T>, i: nat, j: nat, pivot: T)
    requires i <= j < |s| && SameIn(s, s', i, j)
    ensures DownFrom(cmp, s, i, j, pivot) == DownFrom(cmp, s', i, j, pivot)
    decreases j - i
  {
    if i < j {
      DownFromFrame(cmp, s, s', i, j - 1, pivot);
    }
  }

  /** The rounds look at, and change, only the elements between the indices. */
  lemma {:induction false} RoundsFrame<T(!new)>(cmp: Comparator<T>, s: seq<T>, s': seq<T>, lo: nat, hi: nat, i: nat, j: nat, pivot: T)
    requires TotalPreorder(cmp) && lo <= i <= j <= hi < |s| && SameIn(s, s', lo, hi)
    ensures var (t, p) := Rounds(cmp, s, i, j, pivot);
            var (t', p') := Rounds(cmp, s', i, j, pivot);
            p == p' && SameIn(t, t', lo, hi)
    decreases j - i, if AtMost(cmp, s[i], pivot) then 0 else 1
  {
    if i < j {
      UpFromFrame(cmp, s, s', i, j, pivot);
      var i' := UpFrom(cmp, s, i, j, pivot);
      DownFromFrame(cmp, s, s', i', j, pivot);
      var j' := DownFrom(cmp, s, i', j, pivot);
      OutOfOrder(cmp, s[i'], s[j'], pivot);
      hide TotalPreorder;
      RoundsFrame(cmp, Ordering(cmp, s, i', j'), Ordering(cmp, s', i', j'), lo, hi, i', j', pivot);
    }
  }

  lemma SplitFrame<T(!new)>(cmp: Comparator<T>, s: seq<T>, s': seq<T>, lo: nat, hi: nat)
    requires TotalPreorder(cmp) && lo < hi < |s| && SameIn(s, s', lo, hi)
    ensures var (t, p) := SplitOf(cmp, s, lo, hi);
            var (t', p') := SplitOf(cmp, s', lo, hi);
            p == p' && SameIn(t, t', lo, hi)
  {
    hide Rounds, TotalPreorder;
    RoundsFrame(cmp, s, s', lo, hi, lo, hi - 1, s[hi]);
    var (t, i) := Rounds(cmp, s, lo, hi - 1, s[hi]);
    var (t', i') := Rounds(cmp, s', lo, hi - 1, s[hi]);
    SwapFrame(t, t', lo, hi, i, hi);
  }

  lemma SwapFrame<T>(t: seq<T>, t': seq<T>, lo: nat, hi: nat, i: nat, j: nat)
    requires SameIn(t, t', lo, hi) && lo <= i <= hi && lo <= j <= hi
    ensures SameIn(t[i := t[j]][j := t[i]], t'[i := t'[j]][j := t'[i]], lo, hi)
  {
  }

  lemma EndsSortedStep<T(!new)>(cmp: Comparator<T>, s: seq<T>, lo: nat, hi: nat, t: seq<T>, p: nat)
    requires TotalPreorder(cmp) && lo + 2 <= hi < |s| && (t, p) == SplitOf(cmp, s, lo, hi)
    ensures lo <= p <= hi && |t| == |s|
    ensures EndsSorted(cmp, s, lo, hi) <==> EndsSorted(cmp, t, lo, p - 1) && EndsSorted(cmp, t, p + 1, hi)
  {
    hide SplitOf, TotalPreorder;
  }

  lemma EndsSortedSmall<T(!new)>(cmp: Comparator<T>, s: seq<T>, lo: nat, hi: int)
    requires TotalPreorder(cmp) && hi < |s| && hi < lo + 2
    ensures EndsSorted(cmp, s, lo, hi) <==> hi <= lo || AtMost(cmp, s[lo], s[hi])
  {
  }

  lemma SameWithin<T>(s: seq<T>, s': seq<T>, lo: nat, hi: int, lo': nat, hi': int)
    requires SameIn(s, s', lo, hi) && lo <= lo' && hi' <= hi
    ensures SameIn(s, s', lo', hi')
  {
  }

  lemma {:induction false} EndsSortedFrame<T(!new)>(cmp: Comparator<T>, s: seq<T>, s': seq<T>, lo: nat, hi: int)
    requires TotalPreorder(cmp) && hi < |s| && SameIn(s, s', lo, hi)
    ensures EndsSorted(cmp, s, lo, hi) <==> EndsSorted(cmp, s', lo, hi)
    decreases hi - lo
  {
    hide EndsSorted, SplitOf, TotalPreorder, AtMost;
    if hi < lo + 2 {
      EndsSortedSmall(cmp, s, lo, hi);
      EndsSortedSmall(cmp, s', lo, hi);
    } else {
      SplitFrame(cmp, s, s', lo, hi);
      var (t, p) := SplitOf(cmp, s, lo, hi);
      var (t', p') := SplitOf(cmp, s', lo, hi);
      EndsSortedStep(cmp, s, lo, hi, t, p);
      EndsSortedStep(cmp, s', lo, hi, t', p);
      SameWithin(t, t', lo, hi, lo, p - 1);
      SameWithin(t, t', lo, hi, p + 1, hi);
      hide SameIn;
      EndsSortedFrame(cmp, t, t', lo, p - 1);
      EndsSortedFrame(cmp, t, t', p + 1, hi);
    }
  }

  /** The parts, sorted as far as they are: `s1` is the split array, in `s2` the left part is done,
      in `s3` the right part as well. The whole is sorted exactly if both parts are. */
  lemma PartsDecide<T(!new)>(cmp: Comparator<T>, s0: seq<T>, s1: seq<T>, s2: seq<T>, s3: seq<T>, lo: nat, hi: nat, p: nat)
    requires TotalPreorder(cmp) && lo <= p <= hi < |s0| == |s1| == |s2| == |s3|
    requires Rearranged(s0, s1, lo, hi + 1) && Separates(cmp, s1, lo, hi, p)
    requires Rearranged(s1, s2, lo, p) && Rearranged(s2, s3, p + 1, hi + 1)
    ensures SortedByGap(cmp, s3, lo, hi, 1)
       <==> SortedByGap(cmp, s2, lo, p - 1, 1) && SortedByGap(cmp, s3, p + 1, hi, 1)
    ensures EndsSorted(cmp, s2, p + 1, hi) <==> EndsSorted(cmp, s1, p + 1, hi)
  {
    PartsStaySeparated(cmp, s1, s2, s3, lo, hi, p);
    SameAfter(s1, s2, lo, p);
    EndsSortedFrame(cmp, s1, s2, p + 1, hi);
    hide EndsSorted;
    if SortedByGap(cmp, s2, lo, p - 1, 1) && SortedByGap(cmp, s3, p + 1, hi, 1) {
      Assemble(cmp, s0, s1, s2, s3, lo, hi, p, 1);
    }
  }

  lemma LeavesStep<T(!new)>(cmp: Comparator<T>, s: seq<T>, hi: nat, t: seq<T>, p: nat)
    requires TotalPreorder(cmp) && 2 <= hi < |s| && (t, p) == SplitOf(cmp, s, 0, hi)
    ensures p <= hi && |t| == |s|
    ensures LeavesArray(cmp, s, hi) <==> p == 0 || LeavesArray(cmp, t, p - 1)
  {
  }

  // ----- the sort

  /** Sorts the inclusive range `lo..hi`, with the guard as documented: ranges of fewer than two
      elements are left alone. */
  method Sort<T(!new)>(a: array<T>, lo: nat, hi: int, cmp: Comparator<T>) returns (status: Status)
    requires TotalPreorder(cmp) && -1 <= hi < a.Length && lo <= hi + 1
    modifies a
    ensures SortedByGap(cmp, a[..], lo, hi, 1)
    ensures Rearranged(old(a[..]), a[..], lo, hi + 1)
    ensures status == if hi - lo + 1 < 2 then NoOperation else Ok
    decreases hi + 1 - lo
  {
    if hi - lo + 1 < 2 {
      RearrangedIsReflexive(a[..], lo, hi + 1);
      SortedIfSmall(cmp, a[..], lo, hi, 1);
      return NoOperation;
    }
    hide Rearranged, TotalPreorder, Separates;
    ghost var s0 := a[..];
    var split := Split(a, lo, hi, cmp);
    ghost var s1 := a[..];
    var _ := Sort(a, lo, split as int - 1, cmp);
    ghost var s2 := a[..];
    var _ := Sort(a, split + 1, hi, cmp);
    Assemble(cmp, s0, s1, s2, a[..], lo, hi, split, 1);
    return Ok;
  }

  lemma SortedIfSmall<T(!new)>(cmp: Comparator<T>, s: seq<T>, lo: nat, hi: int, gap: nat)
    requires hi < |s| && hi < lo + gap
    ensures SortedByGap(cmp, s, lo, hi, gap)
  {
  }

  lemma EndsSortedIfSmall<T(!new)>(cmp: Comparator<T>, s: seq<T>, lo: nat, hi: int)
    requires TotalPreorder(cmp) && hi < |s| && hi < lo + 2
    ensures SortedByGap(cmp, s, lo, hi, 1) <==> EndsSorted(cmp, s, lo, hi)
  {
  }

  /** Puts the sorted parts together: `s1` is the split array, in `s2` the left part is sorted,
      in `s3` the right part as well. */
  lemma Assemble<T(!new)>(cmp: Comparator<T>, s0: seq<T>, s1: seq<T>, s2: seq<T>, s3: seq<T>, lo: nat, hi: nat, p: nat, gap: nat)
    requires TotalPreorder(cmp) && lo <= p <= hi < |s0| == |s1| == |s2| == |s3|
    requires Rearranged(s0, s1, lo, hi + 1) && Separates(cmp, s1, lo, hi, p)
    requires Rearranged(s1, s2, lo, p) && SortedByGap(cmp, s2, lo, p - 1, gap)
    requires Rearranged(s2, s3, p + 1, hi + 1) && SortedByGap(cmp, s3, p + 1, hi, gap)
    ensures Rearranged(s0, s3, lo, hi + 1) && SortedByGap(cmp, s3, lo, hi, gap)
  {
    hide Rearranged, TotalPreorder, AtMost;
    RearrangedWiden(s1, s2, lo, lo, p, hi + 1);
    RearrangedWiden(s2, s3, lo, p + 1, hi + 1, hi + 1);
    RearrangedIsTransitive(s0, s1, s2, lo, hi + 1);
    RearrangedIsTransitive(s0, s2, s3, lo, hi + 1);
    PartsStaySeparated(cmp, s1, s2, s3, lo, hi, p);
    forall j, k | lo <= j && j + gap <= k <= hi
      ensures AtMost(cmp, s3[j], s3[k])
    {
      if k < p {
        assert s3[j] == s2[j] && s3[k] == s2[k];
      } else if j <= p {
        OutOfOrder(cmp, s3[p], s3[p], s3[p]);
        if p < k {
          AcrossPivot(cmp, s3[j], s3[p], s3[k]);
        }
      }
    }
  }

  /** Sorting the two parts moves nothing across the pivot. */
  lemma PartsStaySeparated<T(!new)>(cmp: Comparator<T>, s1: seq<T>, s2: seq<T>, s3: seq<T>, lo: nat, hi: nat, p: nat)
    requires TotalPreorder(cmp) && lo <= p <= hi < |s1| == |s2| == |s3|
    requires Separates(cmp, s1, lo, hi, p)
    requires Rearranged(s1, s2, lo, p) && Rearranged(s2, s3, p + 1, hi + 1)
    ensures Separates(cmp, s3, lo, hi, p) && AtMost(cmp, s3[p], s3[p])
    ensures forall k | lo <= k <= p :: s3[k] == s2[k]
  {
    var pivot := s1[p];
    RearrangedKeeps(s1, s2, lo, p, x => AtMost(cmp, x, pivot));
    SameAfter(s1, s2, lo, p);
    RearrangedKeeps(s2, s3, p + 1, hi + 1, x => !AtMost(cmp, x, pivot));
    SameBefore(s2, s3, p + 1, hi + 1);
    OutOfOrder(cmp, pivot, pivot, pivot);
  }

  lemma SameBefore<T>(a: seq<T>, b: seq<T>, lo: nat, hi: nat)
    requires lo <= hi <= |a| == |b| && Rearranged(a, b, lo, hi)
    ensures forall k | 0 <= k < lo :: a[k] == b[k]
  {
    assert forall k | 0 <= k < lo :: a[k] == a[..lo][k] && b[k] == b[..lo][k];
  }

  lemma SameAfter<T>(a: seq<T>, b: seq<T>, lo: nat, hi: nat)
    requires lo <= hi <= |a| == |b| && Rearranged(a, b, lo, hi)
    ensures forall k | hi <= k < |a| :: a[k] == b[k]
  {
    assert forall k | hi <= k < |a| :: a[k] == a[hi..][k - hi] && b[k] == b[hi..][k - hi];
  }

  /** No element of the range is smaller than its first one. */
  ghost predicate LeastFirst<T(!new)>(cmp: Comparator<T>, s: seq<T>, lo: nat, hi: nat)
    requires hi < |s|
  {
    forall k | lo <= k <= hi :: AtMost(cmp, s[lo], s[k])
  }

  /** The last element of the range is smaller than all others. */
  ghost predicate LeastLast<T(!new)>(cmp: Comparator<T>, s: seq<T>, lo: nat, hi: nat)
    requires hi < |s|
  {
    forall k | lo <= k < hi :: !AtMost(cmp, s[k], s[hi])
  }

  /** The sort as the code has it, over unsigned indices. Two differences to the documentation:
      a range of two elements is left alone, so elements out of order may remain as direct
      neighbours; and `split - 1` wraps around when the split is at index 0, which makes the
      code read far outside the array. The latter happens for no range that starts above index
      0 or with a least element, and for every longer range from index 0 that ends with an
      element smaller than all others. */
  method SortAsWritten<T(!new)>(a: array<T>, sInd: nat, eInd: nat, cmp: Comparator<T>) returns (status: Status)
    requires TotalPreorder(cmp) && a.Length <= SIZE_MAX && sInd <= eInd + 1 <= a.Length
    modifies a
    ensures status != OutOfBounds ==> SortedByGap(cmp, a[..], sInd, eInd, 2)
    ensures status != OutOfBounds ==>
      (SortedByGap(cmp, a[..], sInd, eInd, 1) <==> EndsSorted(cmp, old(a[..]), sInd, eInd))
    ensures Rearranged(old(a[..]), a[..], sInd, eInd + 1)
    ensures status != OutOfBounds ==>
      status == if sInd > eInd then InvalidRange else if eInd - sInd < 2 then NoOperation else Ok
    ensures status in {NoOperation, InvalidRange} ==> a[..] == old(a[..])
    ensures status == OutOfBounds <==> sInd == 0 && LeavesArray(cmp, old(a[..]), eInd)
    ensures status == OutOfBounds ==> sInd == 0 && eInd >= 2 && !LeastFirst(cmp, old(a[..]), 0, eInd)
    ensures sInd == 0 && eInd >= 2 && LeastLast(cmp, old(a[..]), 0, eInd) ==> status == OutOfBounds
    decreases eInd + 1 - sInd, 1
  {
    RearrangedIsReflexive(a[..], sInd, eInd + 1);
    UnsignedDifference(sInd, eInd);
    if eInd < sInd + 2 {
      SortedIfSmall(cmp, a[..], sInd, eInd, 2);
      EndsSortedIfSmall(cmp, a[..], sInd, eInd);
    }
    hide Rearranged, TotalPreorder, LeastFirst, LeastLast, SortedByGap, Minus, EndsSorted;
    if Minus(eInd, sInd) < 2 {
      return NoOperation;
    }
    if sInd < eInd {
      status := SortParts(a, sInd, eInd, cmp);
      return;
    }
    return InvalidRange;
  }

  /** The split and the two calls on the parts. */
  method SortParts<T(!new)>(a: array<T>, sInd: nat, eInd: nat, cmp: Comparator<T>) returns (status: Status)
    requires TotalPreorder(cmp) && sInd + 2 <= eInd < a.Length <= SIZE_MAX
    modifies a
    ensures status in {Ok, OutOfBounds}
    ensures status == Ok ==> SortedByGap(cmp, a[..], sInd, eInd, 2)
    ensures status == Ok ==>
      (SortedByGap(cmp, a[..], sInd, eInd, 1) <==> EndsSorted(cmp, old(a[..]), sInd, eInd))
    ensures Rearranged(old(a[..]), a[..], sInd, eInd + 1)
    ensures status == OutOfBounds <==> sInd == 0 && LeavesArray(cmp, old(a[..]), eInd)
    ensures status == OutOfBounds ==> sInd == 0 && !LeastFirst(cmp, old(a[..]), 0, eInd)
    ensures sInd == 0 && LeastLast(cmp, old(a[..]), 0, eInd) ==> status == OutOfBounds
    decreases eInd + 1 - sInd, 0
  {
    hide Rearranged, TotalPreorder, Separates, LeastFirst, LeastLast, SortedByGap, Minus, SplitOf, LeavesArray,
         EndsSorted;
    ghost var s0 := a[..];
    var split := Split(a, sInd, eInd, cmp);
    ghost var s1 := a[..];
    if sInd == 0 {
      LeavesStep(cmp, s0, eInd, s1, split);
    }
    SplitDecides(s0, s1, sInd, eInd, split, cmp);
    UnsignedPredecessor(split);
    var last := Minus(split, 1);
    if last >= a.Length {
      return OutOfBounds;
    }
    status := SortAsWritten(a, sInd, last, cmp);
    ghost var s2 := a[..];
    if status == OutOfBounds {
      RearrangedWiden(s1, s2, sInd, sInd, split, eInd + 1);
      RearrangedIsTransitive(s0, s1, s2, sInd, eInd + 1);
      return;
    }
    status := SortAsWritten(a, split + 1, eInd, cmp);
    EndsSortedStep(cmp, s0, sInd, eInd, s1, split);
    PartsDecide(cmp, s0, s1, s2, a[..], sInd, eInd, split);
    Assemble(cmp, s0, s1, s2, a[..], sInd, eInd, split, 2);
    return Ok;
  }

  /** Subtraction of unsigned indices. */
  function Minus(x: nat, y: nat): nat
    requires y <= SIZE_MAX
  {
    (x - y + SIZE_MAX + 1) % (SIZE_MAX + 1)
  }

  lemma UnsignedPredecessor(x: nat)
    requires x <= SIZE_MAX
    ensures Minus(x, 1) == if x == 0 then SIZE_MAX else x - 1
  {
  }

  /** What the first split tells about the wrap-around: it is at the left end exactly if the last
      element is smaller than all others, and then the first one is not least; a least first
      element stays first. */
  lemma SplitDecides<T(!new)>(before: seq<T>, after: seq<T>, left: nat, right: nat, p: nat, cmp: Comparator<T>)
    requires left <= p <= right < |before| == |after| && left < right && TotalPreorder(cmp)
    requires Rearranged(before, after, left, right + 1) && Separates(cmp, after, left, right, p)
    requires after[p] == before[right]
    requires AtMost(cmp, before[left], before[right]) ==> after[left] == before[left]
    ensures p == left <==> LeastLast(cmp, before, left, right)
    ensures LeastLast(cmp, before, left, right) ==> !LeastFirst(cmp, before, left, right)
    ensures LeastFirst(cmp, before, left, right) ==> left < p && LeastFirst(cmp, after, left, p - 1)
  {
    SplitAtLeftEndIff(before, after, left, right, p, cmp);
    hide Rearranged, Separates, TotalPreorder;
    if LeastFirst(cmp, before, left, right) {
      assert AtMost(cmp, before[left], before[right]);
      LeastStaysFirst(before, after, left, right, cmp);
    }
  }

  /** The unsigned difference tells a reversed range from a short one. */
  lemma UnsignedDifference(lo: nat, hi: nat)
    requires lo <= hi + 1 <= SIZE_MAX
    ensures Minus(hi, lo) == if lo <= hi then hi - lo else SIZE_MAX
  {
  }

  lemma LeastStaysFirst<T(!new)>(before: seq<T>, after: seq<T>, left: nat, right: nat, cmp: Comparator<T>)
    requires left < right < |before| == |after|
    requires Rearranged(before, after, left, right + 1) && after[left] == before[left]
    requires LeastFirst(cmp, before, left, right)
    ensures LeastFirst(cmp, after, left, right)
  {
    var least := before[left];
    RearrangedKeeps(before, after, left, right + 1, x => AtMost(cmp, least, x));
  }

  function Compare(x: int, y: int): int {
    x - y
  }

  /** Inputs on which the code departs from its documentation: it leaves 2, 1 alone, and splits
      2, 3, 1 at index 0, after which it leaves the array. */
  lemma DeparturesFromDocumentation()
    ensures TotalPreorder(Compare)
    ensures !SortedByGap(Compare, [2, 1], 0, 1, 1)
    ensures LeastLast(Compare, [2, 3, 1], 0, 2)
  {
    assert !AtMost(Compare, [2, 1][0], [2, 1][1]);
  }
}
