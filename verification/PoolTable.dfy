/** The pool table: which slots hold a pool, and the cached index of a free slot. */
module PoolTable {
  import opened PoolBlocks

  /** Number of slots; `UINT32_MAX` is never a slot. */
  const MAX_POOLS := 8192

  /** `used[i]` says that slot i holds a pool. */
  datatype Table = Table(used: seq<bool>, firstFree: nat)

  /** Refused: no slot. Overwrites: the cached slot already holds a pool. */
  datatype Request = Refused | Overwrites | Taken(slot: nat, next: Table)

  function Occupied(used: seq<bool>): (n: nat)
    ensures n <= |used|
  {
    if used == [] then 0 else (if used[0] then 1 else 0) + Occupied(used[1..])
  }

  /** Least free slot from `from` on, or the table size. */
  function NextFreeSlot(used: seq<bool>, from: nat): (r: nat)
    requires from <= |used|
    ensures from <= r <= |used|
    ensures r < |used| ==> !used[r]
    ensures forall i :: from <= i < r ==> used[i]
    decreases |used| - from
  {
    if from == |used| || !used[from] then from else NextFreeSlot(used, from + 1)
  }

  /** Last free slot from `from` on, or the table size if there is none. */
  function LastFreeSlot(used: seq<bool>, from: nat): (r: nat)
    requires from <= |used|
    ensures r == |used| || (from <= r < |used| && !used[r])
    ensures r < |used| ==> forall i :: r < i < |used| ==> used[i]
    ensures r == |used| ==> forall i :: from <= i < |used| ==> used[i]
    decreases |used| - from
  {
    if from == |used| then from
    else
      var later := LastFreeSlot(used, from + 1);
      if later == |used| && !used[from] then from else later
  }

  predicate FreeSlotFrom(used: seq<bool>, from: nat) {
    exists i :: from <= i < |used| && !used[i]
  }

  predicate Full(used: seq<bool>) {
    !FreeSlotFrom(used, 0)
  }

  // ----- the three updates of the cached index

  /** Requesting a slot. The next free slot is only searched for upwards. */
  function RequestSlot(t: Table): Request
    requires t.firstFree == NO_INDEX || t.firstFree < |t.used|
  {
    if t.firstFree == NO_INDEX then Refused
    else if t.used[t.firstFree] then Overwrites
    else
      var used := t.used[t.firstFree := true];
      var next := NextFreeSlot(used, t.firstFree);
      Taken(t.firstFree, Table(used,
        if Occupied(used) == |used| then NO_INDEX
        else if next < |used| then next
        else t.firstFree))
  }

  /** Giving up slot `p` as the code does it: the search runs before the slot is cleared, from
      `p` upwards, and does not stop at the first free slot. */
  function ReleaseSlot(t: Table, p: nat): Table
    requires p < |t.used|
  {
    var last := LastFreeSlot(t.used, p);
    Table(t.used[p := false], if last < |t.used| then last else t.firstFree)
  }

  /** Giving up slot `p` with the least free slot kept. */
  function ReleaseSlotLeast(t: Table, p: nat): Table
    requires p < |t.used|
  {
    Table(t.used[p := false], if p < t.firstFree then p else t.firstFree)
  }

  // ----- invariants

  /** The cached index is the least free slot, and no index when the table is full. */
  predicate Least(t: Table) {
    && |t.used| < NO_INDEX
    && t.firstFree == if Full(t.used) then NO_INDEX else NextFreeSlot(t.used, 0)
  }

  /** The cached index may be used: it is no index, or a free slot. */
  predicate Ready(t: Table) {
    && |t.used| < NO_INDEX
    && (t.firstFree == NO_INDEX || (t.firstFree < |t.used| && !t.used[t.firstFree]))
  }

  lemma {:induction false} OccupiedFullIff(used: seq<bool>)
    ensures Occupied(used) == |used| <==> Full(used)
  {
    if used != [] {
      OccupiedFullIff(used[1..]);
      if Full(used) {
        assert used[0];
        assert forall i :: 0 <= i < |used[1..]| ==> used[1..][i] == used[i + 1];
      } else {
        var i :| 0 <= i < |used| && !used[i];
        assert i > 0 ==> !used[1..][i - 1];
      }
    }
  }

  lemma {:induction false} OccupiedAfterSet(used: seq<bool>, p: nat, b: bool)
    requires p < |used|
    ensures Occupied(used[p := b]) == Occupied(used) - (if used[p] then 1 else 0) + (if b then 1 else 0)
  {
    if p > 0 {
      OccupiedAfterSet(used[1..], p - 1, b);
      assert used[p := b][1..] == used[1..][p - 1 := b];
    } else {
      assert used[p := b][1..] == used[1..];
    }
  }

  lemma {:induction false} OccupiedOfConcat(a: seq<bool>, b: seq<bool>)
    ensures Occupied(a + b) == Occupied(a) + Occupied(b)
  {
    if a == [] {
      assert a + b == b;
    } else {
      OccupiedOfConcat(a[1..], b);
      assert (a + b)[1..] == a[1..] + b;
    }
  }

  lemma {:induction false} NoneOccupied(used: seq<bool>)
    requires Occupied(used) == 0
    ensures forall i :: 0 <= i < |used| ==> !used[i]
  {
    if used != [] {
      NoneOccupied(used[1..]);
      assert forall i :: 1 <= i < |used| ==> used[i] == used[1..][i - 1];
    }
  }

  /** One step of a scan that counts the pools it has passed. */
  lemma ScanStep(used: seq<bool>, i: nat)
    requires i < |used|
    ensures Occupied(used[..i + 1]) == Occupied(used[..i]) + if used[i] then 1 else 0
  {
    assert used[..i + 1] == used[..i] + [used[i]];
    OccupiedOfConcat(used[..i], [used[i]]);
    assert [used[i]][1..] == [];
  }

  /** Main result on the scans: once as many pools were passed as are allocated, no later slot
      holds one, so stopping there loses nothing. */
  lemma ScanMayStop(used: seq<bool>, i: nat)
    requires i <= |used| && Occupied(used[..i]) >= Occupied(used)
    ensures forall j :: i <= j < |used| ==> !used[j]
  {
    assert used == used[..i] + used[i..];
    OccupiedOfConcat(used[..i], used[i..]);
    NoneOccupied(used[i..]);
    assert forall j :: i <= j < |used| ==> used[j] == used[i..][j - i];
  }

  // ----- results

  lemma NextFreeIs(used: seq<bool>, from: nat, r: nat)
    requires from <= r < |used| && !used[r]
    requires forall i :: from <= i < r ==> used[i]
    ensures NextFreeSlot(used, from) == r
  {
    assert !used[r];
  }

  lemma LastFreeIs(used: seq<bool>, from: nat, r: nat)
    requires from <= |used|
    requires r == |used| || (from <= r < |used| && !used[r])
    requires r < |used| ==> forall i :: r < i < |used| ==> used[i]
    requires r == |used| ==> forall i :: from <= i < |used| ==> used[i]
    ensures LastFreeSlot(used, from) == r
  {
    var last := LastFreeSlot(used, from);
    assert last < |used| ==> !used[last];
  }

  /** With the least free slot cached, a request takes it, is refused exactly when the table is
      full, and leaves the least free slot cached. */
  lemma RequestKeepsLeast(t: Table)
    requires Least(t)
    ensures RequestSlot(t).Refused? <==> Full(t.used)
    ensures !RequestSlot(t).Overwrites?
    ensures RequestSlot(t).Taken? ==> Least(RequestSlot(t).next) && RequestSlot(t).slot == NextFreeSlot(t.used, 0)
  {
    if !Full(t.used) {
      var f := t.firstFree;
      var used := t.used[f := true];
      OccupiedFullIff(used);
      if !Full(used) {
        var i :| 0 <= i < |used| && !used[i];
        assert f < i;
        var next := NextFreeSlot(used, f);
        NextFreeIs(used, 0, next);
      }
    }
  }

  /** A request from a usable index overwrites nothing; the next index is usable exactly when
      the table is now full or a free slot lies above the one taken. */
  lemma RequestStaysReadyIff(t: Table)
    requires Ready(t) && t.firstFree != NO_INDEX
    ensures RequestSlot(t).Taken? && RequestSlot(t).slot == t.firstFree
    ensures var next := RequestSlot(t).next;
            Ready(next) <==> Full(next.used) || FreeSlotFrom(next.used, t.firstFree + 1)
  {
    var used := t.used[t.firstFree := true];
    OccupiedFullIff(used);
    var n := NextFreeSlot(used, t.firstFree);
    if FreeSlotFrom(used, t.firstFree + 1) {
      var i :| t.firstFree + 1 <= i < |used| && !used[i];
      assert n < |used|;
    } else {
      assert used[t.firstFree];
      assert n == |used|;
    }
  }

  /** Exact condition for the release as written: it keeps the least free slot cached only if
      every slot above `p` is occupied and some slot below is free. */
  lemma ReleaseKeepsLeastIff(t: Table, p: nat)
    requires Least(t) && p < |t.used| && t.used[p]
    ensures Least(ReleaseSlot(t, p)) <==> t.firstFree < p && !FreeSlotFrom(t.used, p)
  {
    var t' := ReleaseSlot(t, p);
    assert !t'.used[p];
    assert !Full(t'.used);
    var least := NextFreeSlot(t'.used, 0);
    assert least <= p;
    if FreeSlotFrom(t.used, p) {
      var i :| p <= i < |t.used| && !t.used[i];
      assert t'.firstFree > p;
    } else if t.firstFree < p {
      NextFreeIs(t'.used, 0, t.firstFree);
    } else {
      assert t.firstFree == NO_INDEX;
    }
  }

  /** A release never spoils a usable index. */
  lemma ReleaseKeepsReady(t: Table, p: nat)
    requires Ready(t) && p < |t.used| && t.used[p]
    ensures Ready(ReleaseSlot(t, p))
  {
  }

  /** Whether the release of slot `p` makes a cached slot usable that was occupied. */
  predicate Rescues(t: Table, p: nat)
    requires p < |t.used|
  {
    FreeSlotFrom(t.used, p) || p == t.firstFree
  }

  lemma ReleaseRescuesIff(t: Table, p: nat)
    requires |t.used| < NO_INDEX && p < |t.used| && t.used[p]
    requires t.firstFree < |t.used| && t.used[t.firstFree]
    ensures Ready(ReleaseSlot(t, p)) <==> Rescues(t, p)
    ensures !Rescues(t, p) ==> ReleaseSlot(t, p).firstFree == t.firstFree
  {
    var last := LastFreeSlot(t.used, p);
    assert last < |t.used| ==> !t.used[last];
  }

  /** What goes wrong otherwise, first case: if a slot above `p` was free, the second request
      after the release overwrites the pool the first one set up. */
  lemma SecondRequestOverwrites(t: Table, p: nat)
    requires |t.used| < NO_INDEX && p < |t.used| && t.used[p] && FreeSlotFrom(t.used, p)
    ensures var first := RequestSlot(ReleaseSlot(t, p));
            first.Taken? && RequestSlot(first.next) == Overwrites
  {
    var i :| p <= i < |t.used| && !t.used[i];
    var t' := ReleaseSlot(t, p);
    assert !t'.used[t'.firstFree] && t'.firstFree > p;
    RequestStaysReadyIff(t');
    var used := t'.used[t'.firstFree := true];
    assert !used[p];
    OccupiedFullIff(used);
  }

  /** Second case: in a full table the released slot is forgotten, and requests stay refused. */
  lemma ReleaseFromFullIsForgotten(t: Table, p: nat)
    requires Least(t) && p < |t.used| && Full(t.used)
    ensures !ReleaseSlot(t, p).used[p] && RequestSlot(ReleaseSlot(t, p)) == Refused
  {
  }

  // ----- whole runs

  datatype Op = Take | Give(slot: nat)

  /** A run of requests and releases, with the release given; stops at an overwrite. Releases
      of slots that hold no pool do nothing. */
  function Run(t: Table, ops: seq<Op>, asWritten: bool): Request
    requires t.firstFree == NO_INDEX || t.firstFree < |t.used|
    decreases |ops|
  {
    if ops == [] then Taken(0, t)
    else match ops[0]
      case Take =>
        (match RequestSlot(t)
         case Overwrites => Overwrites
         case Refused => Run(t, ops[1..], asWritten)
         case Taken(_, next) => Run(next, ops[1..], asWritten))
      case Give(p) =>
        if p < |t.used| && t.used[p] then
          Run(if asWritten then ReleaseSlot(t, p) else ReleaseSlotLeast(t, p), ops[1..], asWritten)
        else Run(t, ops[1..], asWritten)
  }

  // ----- runs as written

  /** One operation as written. An overwrite ends a run; the table then stays as it is. */
  function StepAsWritten(t: Table, op: Op): (r: Table)
    requires t.firstFree == NO_INDEX || t.firstFree < |t.used|
    ensures |r.used| == |t.used| && (r.firstFree == NO_INDEX || r.firstFree < |r.used|)
  {
    match op
    case Take => if RequestSlot(t).Taken? then RequestSlot(t).next else t
    case Give(p) => if p < |t.used| && t.used[p] then ReleaseSlot(t, p) else t
  }

  /** The table after the first `k` operations. */
  function TableAt(t: Table, ops: seq<Op>, k: nat): (r: Table)
    requires k <= |ops|
    requires t.firstFree == NO_INDEX || t.firstFree < |t.used|
    ensures |r.used| == |t.used| && (r.firstFree == NO_INDEX || r.firstFree < |r.used|)
  {
    if k == 0 then t else StepAsWritten(TableAt(t, ops, k - 1), ops[k - 1])
  }

  /** A request that leaves the cached index on the slot it takes: no slot above is free, and one
      below is. */
  predicate Strands(t: Table, op: Op) {
    && op.Take? && t.firstFree < |t.used| && !t.used[t.firstFree]
    && !FreeSlotFrom(t.used, t.firstFree + 1)
    && exists i :: 0 <= i < t.firstFree && !t.used[i]
  }

  /** A release that ends this. */
  predicate IsRescue(t: Table, op: Op) {
    op.Give? && op.slot < |t.used| && t.used[op.slot] && Rescues(t, op.slot)
  }

  /** Request `i` strands the index, and no operation after it and before `j` rescues it. */
  predicate StrandedFrom(t: Table, ops: seq<Op>, i: nat, j: nat)
    requires i < j <= |ops|
    requires t.firstFree == NO_INDEX || t.firstFree < |t.used|
  {
    Strands(TableAt(t, ops, i), ops[i]) && forall k | i < k < j :: !IsRescue(TableAt(t, ops, k), ops[k])
  }

  /** From a usable index, one operation leads away exactly if it strands the index. */
  lemma StepFromReady(t: Table, op: Op)
    requires Ready(t)
    ensures Ready(StepAsWritten(t, op)) <==> !Strands(t, op)
  {
    match op
    case Take =>
      if t.firstFree != NO_INDEX {
        RequestStaysReadyIff(t);
        StrandsIff(t);
      }
    case Give(p) =>
      if p < |t.used| && t.used[p] {
        ReleaseKeepsReady(t, p);
      }
  }

  lemma StrandsIff(t: Table)
    requires Ready(t) && t.firstFree != NO_INDEX
    ensures var used := t.used[t.firstFree := true];
            !Strands(t, Take) <==> Full(used) || FreeSlotFrom(used, t.firstFree + 1)
  {
    var f, used := t.firstFree, t.used[t.firstFree := true];
    if FreeSlotFrom(t.used, f + 1) {
      var i :| f + 1 <= i < |t.used| && !t.used[i];
      assert !used[i];
    } else if exists i :: 0 <= i < f && !t.used[i] {
      var i :| 0 <= i < f && !t.used[i];
      assert !used[i];
    }
  }

  /** From an unusable index, one operation leads back exactly if it is a rescue. */
  lemma StepFromStranded(t: Table, op: Op)
    requires |t.used| < NO_INDEX && (t.firstFree == NO_INDEX || t.firstFree < |t.used|) && !Ready(t)
    ensures Ready(StepAsWritten(t, op)) <==> IsRescue(t, op)
  {
    if op.Give? && op.slot < |t.used| && t.used[op.slot] {
      ReleaseRescuesIff(t, op.slot);
    }
  }

  /** After a usable start the index is unusable exactly if it was stranded and not rescued. */
  lemma {:induction false} UnusableIff(t: Table, ops: seq<Op>, j: nat)
    requires Ready(t) && j <= |ops|
    ensures !Ready(TableAt(t, ops, j)) <==> exists i | 0 <= i < j :: StrandedFrom(t, ops, i, j)
  {
    hide Ready, StepAsWritten, Strands, IsRescue;
    ReadyIndex(t);
    if j > 0 {
      UnusableIff(t, ops, j - 1);
      var before := TableAt(t, ops, j - 1);
      if Ready(before) {
        StepFromReady(before, ops[j - 1]);
        if !Ready(TableAt(t, ops, j)) {
          assert StrandedFrom(t, ops, j - 1, j);
        }
        forall i | 0 <= i < j - 1
          ensures !StrandedFrom(t, ops, i, j)
        {
          assert !StrandedFrom(t, ops, i, j - 1);
        }
      } else {
        StepFromStranded(before, ops[j - 1]);
        StrandsNeedsReady(before, ops[j - 1]);
        var i :| 0 <= i < j - 1 && StrandedFrom(t, ops, i, j - 1);
        if !IsRescue(before, ops[j - 1]) {
          assert StrandedFrom(t, ops, i, j);
        }
      }
    }
  }

  lemma ReadyIndex(t: Table)
    requires Ready(t)
    ensures |t.used| < NO_INDEX && (t.firstFree == NO_INDEX || t.firstFree < |t.used|)
  {
  }

  lemma StrandsNeedsReady(t: Table, op: Op)
    requires |t.used| < NO_INDEX
    ensures Strands(t, op) ==> Ready(t)
  {
  }

  /** A request that finds the cached slot occupied. */
  predicate OverwritesAt(t: Table, ops: seq<Op>, j: nat)
    requires j < |ops|
    requires t.firstFree == NO_INDEX || t.firstFree < |t.used|
  {
    ops[j].Take? && !Ready(TableAt(t, ops, j))
  }

  lemma {:induction false} TableAtShift(t: Table, ops: seq<Op>, k: nat)
    requires ops != [] && k < |ops|
    requires t.firstFree == NO_INDEX || t.firstFree < |t.used|
    ensures TableAt(t, ops, k + 1) == TableAt(StepAsWritten(t, ops[0]), ops[1..], k)
  {
    hide StepAsWritten;
    if k > 0 {
      TableAtShift(t, ops, k - 1);
    } else {
      assert TableAt(t, ops, 0) == t;
    }
  }

  lemma RunStep(t: Table, ops: seq<Op>)
    requires ops != [] && |t.used| < NO_INDEX
    requires t.firstFree == NO_INDEX || t.firstFree < |t.used|
    ensures Run(t, ops, true)
         == if ops[0].Take? && !Ready(t) then Overwrites else Run(StepAsWritten(t, ops[0]), ops[1..], true)
  {
  }

  lemma {:induction false} RunOverwritesIff(t: Table, ops: seq<Op>)
    requires |t.used| < NO_INDEX && (t.firstFree == NO_INDEX || t.firstFree < |t.used|)
    ensures Run(t, ops, true) == Overwrites <==> exists j | 0 <= j < |ops| :: OverwritesAt(t, ops, j)
    decreases |ops|
  {
    hide Ready, StepAsWritten, RequestSlot;
    if ops != [] {
      RunStep(t, ops);
      assert TableAt(t, ops, 0) == t;
      assert OverwritesAt(t, ops, 0) <==> ops[0].Take? && !Ready(t);
      var next := StepAsWritten(t, ops[0]);
      hide Run;
      RunOverwritesIff(next, ops[1..]);
      forall j | 0 <= j < |ops| - 1
        ensures OverwritesAt(t, ops, j + 1) <==> OverwritesAt(next, ops[1..], j)
      {
        TableAtShift(t, ops, j);
      }
      if !OverwritesAt(t, ops, 0) && exists j | 0 <= j < |ops| :: OverwritesAt(t, ops, j) {
        var j :| 0 <= j < |ops| && OverwritesAt(t, ops, j);
        assert OverwritesAt(next, ops[1..], j - 1);
      }
      if exists j | 0 <= j < |ops| - 1 :: OverwritesAt(next, ops[1..], j) {
        var j :| 0 <= j < |ops| - 1 && OverwritesAt(next, ops[1..], j);
        assert OverwritesAt(t, ops, j + 1);
      }
    }
  }

  /** Main result on runs as written: a pool is overwritten if and only if some request strands
      the index and another request follows before any release that rescues it. */
  lemma OverwritesIff(t: Table, ops: seq<Op>)
    requires Ready(t)
    ensures Run(t, ops, true) == Overwrites <==>
      exists i, j | 0 <= i < j < |ops| && ops[j].Take? :: StrandedFrom(t, ops, i, j)
  {
    RunOverwritesIff(t, ops);
    hide Ready, Run, StrandedFrom;
    ReadyIndex(t);
    forall j | 0 <= j < |ops|
      ensures OverwritesAt(t, ops, j) <==> ops[j].Take? && exists i | 0 <= i < j :: StrandedFrom(t, ops, i, j)
    {
      UnusableIff(t, ops, j);
    }
  }

  // ----- slots that are forgotten

  /** No slot is cached although one is free: requests are refused. */
  predicate Forgotten(t: Table) {
    t.firstFree == NO_INDEX && !Full(t.used)
  }

  /** No slot is cached exactly if the table is full. */
  predicate Remembered(t: Table) {
    t.firstFree == NO_INDEX <==> Full(t.used)
  }

  /** The release of a slot from a full table. */
  predicate IsLapse(t: Table, op: Op) {
    op.Give? && op.slot < |t.used| && t.used[op.slot] && Full(t.used)
  }

  /** A release below a free slot. */
  predicate IsReminder(t: Table, op: Op) {
    op.Give? && op.slot < |t.used| && t.used[op.slot] && FreeSlotFrom(t.used, op.slot)
  }

  /** Operation `i` releases from a full table, and none after it and before `j` is a reminder. */
  predicate ForgottenFrom(t: Table, ops: seq<Op>, i: nat, j: nat)
    requires i < j <= |ops|
    requires t.firstFree == NO_INDEX || t.firstFree < |t.used|
  {
    IsLapse(TableAt(t, ops, i), ops[i]) && forall k | i < k < j :: !IsReminder(TableAt(t, ops, k), ops[k])
  }

  lemma StepFromRemembered(t: Table, op: Op)
    requires |t.used| < NO_INDEX && (t.firstFree == NO_INDEX || t.firstFree < |t.used|) && Remembered(t)
    ensures Forgotten(StepAsWritten(t, op)) <==> IsLapse(t, op)
    ensures !IsLapse(t, op) ==> Remembered(StepAsWritten(t, op))
  {
    match op
    case Take =>
      if RequestSlot(t).Taken? {
        OccupiedFullIff(RequestSlot(t).next.used);
      }
    case Give(p) =>
      if p < |t.used| && t.used[p] {
        assert !ReleaseSlot(t, p).used[p];
      }
  }

  lemma StepFromForgotten(t: Table, op: Op)
    requires |t.used| < NO_INDEX && Forgotten(t)
    ensures Forgotten(StepAsWritten(t, op)) <==> !IsReminder(t, op)
    ensures IsReminder(t, op) ==> Remembered(StepAsWritten(t, op))
    ensures !IsLapse(t, op)
  {
    if op.Give? && op.slot < |t.used| && t.used[op.slot] {
      assert !ReleaseSlot(t, op.slot).used[op.slot];
      var last := LastFreeSlot(t.used, op.slot);
      assert last < |t.used| ==> !t.used[last];
    }
  }

  /** Main result on refusals: over all runs as written, requests are refused although a slot is
      free if and only if some slot was released from a full table and no later release was below
      a free slot. */
  lemma {:induction false} ForgottenIff(t: Table, ops: seq<Op>, j: nat)
    requires |t.used| < NO_INDEX && (t.firstFree == NO_INDEX || t.firstFree < |t.used|) && Remembered(t) && j <= |ops|
    ensures Forgotten(TableAt(t, ops, j)) <==> exists i | 0 <= i < j :: ForgottenFrom(t, ops, i, j)
    ensures Forgotten(TableAt(t, ops, j)) || Remembered(TableAt(t, ops, j))
  {
    hide StepAsWritten, IsLapse, IsReminder, Forgotten, Remembered;
    if j == 0 {
      RememberedIsNotForgotten(t);
    } else {
      ForgottenIff(t, ops, j - 1);
      var before := TableAt(t, ops, j - 1);
      if Forgotten(before) {
        StepFromForgotten(before, ops[j - 1]);
        var i :| 0 <= i < j - 1 && ForgottenFrom(t, ops, i, j - 1);
        if !IsReminder(before, ops[j - 1]) {
          assert ForgottenFrom(t, ops, i, j);
        }
      } else {
        StepFromRemembered(before, ops[j - 1]);
        if IsLapse(before, ops[j - 1]) {
          assert ForgottenFrom(t, ops, j - 1, j);
        }
        forall i | 0 <= i < j - 1
          ensures !ForgottenFrom(t, ops, i, j)
        {
          assert !ForgottenFrom(t, ops, i, j - 1);
        }
      }
    }
  }

  lemma RememberedIsNotForgotten(t: Table)
    requires Remembered(t)
    ensures !Forgotten(t)
  {
  }

  // ----- runs with the least free slot kept

  lemma ReleaseLeastKeepsLeast(t: Table, p: nat)
    requires Least(t) && p < |t.used| && t.used[p]
    ensures Least(ReleaseSlotLeast(t, p))
  {
    var t' := ReleaseSlotLeast(t, p);
    assert !t'.used[p];
    NextFreeIs(t'.used, 0, t'.firstFree);
  }

  /** Main result on the table: with the least free slot maintained, no run of requests and
      releases ever overwrites a pool, and the cached index stays the least free slot. */
  lemma {:induction false} LeastRunIsSafe(t: Table, ops: seq<Op>)
    requires Least(t)
    ensures Run(t, ops, false).Taken? && Least(Run(t, ops, false).next)
    decreases |ops|
  {
    if ops != [] {
      match ops[0]
      case Take =>
        RequestKeepsLeast(t);
        if RequestSlot(t).Taken? {
          LeastRunIsSafe(RequestSlot(t).next, ops[1..]);
        } else {
          LeastRunIsSafe(t, ops[1..]);
        }
      case Give(p) =>
        if p < |t.used| && t.used[p] {
          ReleaseLeastKeepsLeast(t, p);
          LeastRunIsSafe(ReleaseSlotLeast(t, p), ops[1..]);
        } else {
          LeastRunIsSafe(t, ops[1..]);
        }
    }
  }

  /** As written, runs that release no pool are safe ... */
  lemma {:induction false} RequestsAloneAreSafe(t: Table, n: nat)
    requires Least(t)
    ensures var ops := seq(n, _ => Take);
            Run(t, ops, true).Taken? && Least(Run(t, ops, true).next)
    decreases n
  {
    var ops := seq(n, _ => Take);
    if n > 0 {
      assert ops[1..] == seq(n - 1, _ => Take);
      RequestKeepsLeast(t);
      RequestsAloneAreSafe(if RequestSlot(t).Taken? then RequestSlot(t).next else t, n - 1);
    }
  }

  /** ... but five operations on the empty table suffice for an overwrite: two pools, the first
      released, two more pools. */
  lemma FiveOperationsOverwrite()
    ensures var t := Table(seq(MAX_POOLS, _ => false), 0);
            Least(t) && Run(t, [Take, Take, Give(0), Take, Take], true) == Overwrites
  {
    var t := Table(seq(MAX_POOLS, _ => false), 0);
    assert !t.used[0];
    var ops := [Take, Take, Give(0), Take, Take];
    RequestKeepsLeast(t);
    var t1 := RequestSlot(t).next;
    assert !t1.used[1];
    RequestKeepsLeast(t1);
    var t2 := RequestSlot(t1).next;
    assert t2.used[0] && !t2.used[2];
    SecondRequestOverwrites(t2, 0);
    var t3 := ReleaseSlot(t2, 0);
    var t4 := RequestSlot(t3).next;
    assert ops[1..] == [Take, Give(0), Take, Take] && ops[1..][1..] == [Give(0), Take, Take];
    assert [Give(0), Take, Take][1..] == [Take, Take] && [Take, Take][1..] == [Take];
    assert Run(t4, [Take], true) == Overwrites;
    assert Run(t3, [Take, Take], true) == Overwrites;
    assert Run(t2, [Give(0), Take, Take], true) == Overwrites;
    assert Run(t1, [Take, Give(0), Take, Take], true) == Overwrites;
  }
}
