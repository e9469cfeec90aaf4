/** The hash table. Its slot array refines a finite map, whatever the hash function is. */
module Hashtable {
  import opened Basics
  import opened RobinHood

  const UINT32_MAX := 0xFFFF_FFFF

  /** The error codes the table returns. */
  datatype Status = Ok | CapLimitExceeded | MemoryAllocation | ItemNotFound | NoOperation

  // ----- sizes

  /** `newElemCount / currCap >= 0.75` */
  predicate NeedsRebuild(newElemCount: nat, cap: nat) {
    4 * newElemCount >= 3 * cap
  }

  /** `NK_CLAMP(newElemCount / 0.35, minCap, maxCap)` */
  function NewCapacity(newElemCount: nat, minCap: nat, maxCap: nat): nat {
    var target := newElemCount * 20 / 7;
    var upper := if target > maxCap then maxCap else target;
    if upper > minCap then upper else minCap
  }

  /** Capacity with which a batch is inserted. */
  function BatchCapacity(newElemCount: nat, cap: nat, minCap: nat, maxCap: nat): nat {
    if NeedsRebuild(newElemCount, cap) then NewCapacity(newElemCount, minCap, maxCap) else cap
  }

  /** Whatever the batch, the capacity used for it holds all elements; without a rebuild it even
      leaves a slot free afterwards. */
  lemma BatchFits(newElemCount: nat, cap: nat, minCap: nat, maxCap: nat)
    requires newElemCount <= maxCap
    ensures BatchCapacity(newElemCount, cap, minCap, maxCap) >= newElemCount
    ensures !NeedsRebuild(newElemCount, cap) ==> cap > newElemCount
  {
  }

  // ----- the map a table stands for

  /** The entries of a map as pairs. */
  ghost function Entries<K, V>(m: map<K, V>): (s: set<(K, V)>)
    ensures forall p | p in s :: p.0 in m && m[p.0] == p.1
    ensures forall key | key in m :: (key, m[key]) in s
  {
    set key | key in m :: (key, m[key])
  }

  /** The pairs in the slots are the entries of the map, each stored once. */
  ghost predicate Represents<K, V>(s: Slots<K, V>, m: map<K, V>) {
    Pairs(s) == multiset(Entries(m))
  }

  lemma EntriesAfterPut<K, V>(m: map<K, V>, key: K, val: V)
    requires key !in m
    ensures multiset(Entries(m[key := val])) == multiset(Entries(m)) + multiset{(key, val)}
  {
    var m' := m[key := val];
    forall p | p in Entries(m')
      ensures p in Entries(m) + {(key, val)}
    {
      assert p == (p.0, m'[p.0]);
    }
    forall p | p in Entries(m) + {(key, val)}
      ensures p in Entries(m')
    {
      assert p == (p.0, m'[p.0]) && p.0 in m';
    }
    assert Entries(m') == Entries(m) + {(key, val)};
  }

  lemma EntriesAfterRemove<K, V>(m: map<K, V>, key: K)
    requires key in m
    ensures multiset(Entries(m - {key})) + multiset{(key, m[key])} == multiset(Entries(m))
  {
    assert (m - {key})[key := m[key]] == m;
    EntriesAfterPut(m - {key}, key, m[key]);
  }

  lemma {:induction false} EntriesSize<K, V>(m: map<K, V>)
    ensures |Entries(m)| == |m|
  {
    if m == map[] {
    } else {
      var key :| key in m;
      EntriesSize(m - {key});
      EntriesAfterRemove(m, key);
      assert |multiset(Entries(m))| == |Entries(m)|;
      assert |multiset(Entries(m - {key}))| == |Entries(m - {key})|;
    }
  }

  /** Main result on lookup: the scan finds a key exactly if the map has it, and then its value,
      whatever the raw hashes of the key and of the stored keys are. */
  lemma LocateRefinesMap<K, V>(s: Slots<K, V>, m: map<K, V>, key: Key<K>)
    requires |s| > 0 && Represents(s, m)
    ensures Locate(s, key).Some? <==> key.value in m
    ensures key.value in m ==> s[Locate(s, key).value].val == m[key.value]
  {
    var found := Locate(s, key);
    if found.Some? {
      PairsMember(s, found.value);
      assert (s[found.value].key.value, s[found.value].val) in Entries(m);
    } else {
      FullScanIsComplete(s, key, Home(key, |s|), Home(key, |s|), 0);
      if key.value in m {
        assert (key.value, m[key.value]) in Entries(m);
        var i := MemberHasSlot(s, (key.value, m[key.value]));
      }
    }
  }

  /** Used slots hold distinct keys. */
  lemma KeysAreDistinct<K, V>(s: Slots<K, V>, m: map<K, V>, i: nat, j: nat)
    requires Represents(s, m) && i < j < |s| && s[i].Used? && s[j].Used?
    ensures s[i].key.value != s[j].key.value
  {
    PairsMember(s, i);
    PairsMember(s, j);
    PairsMember(s[j := Empty], i);
    PairsUpdate(s, j, Empty);
    hide Pairs;
    var q, none: Slot<K, V> := (s[j].key.value, s[j].val), Empty;
    assert multiset(Entries(m))[q] == 1;
    assert One(s[j]) == multiset{q} && One(none) == multiset{};
    assert (Pairs(s[j := none]) + One(s[j]))[q] == (Pairs(s) + One(none))[q];
  }

  /** The map after inserting pairs in turn: a key already present keeps its value. */
  function PutAll<K(==), V>(m: map<K, V>, pairs: seq<(K, V)>): map<K, V> {
    if pairs == [] then m
    else
      var before := PutAll(m, pairs[..|pairs| - 1]);
      var (key, val) := pairs[|pairs| - 1];
      if key in before then before else before[key := val]
  }

  /** First come, first kept: a key of the old map keeps its value, a new key gets the value of
      its first occurrence in the batch, and no other key appears. */
  lemma {:induction false} FirstValueWins<K, V>(m: map<K, V>, pairs: seq<(K, V)>, key: K)
    ensures key in PutAll(m, pairs) <==> key in m || exists i :: 0 <= i < |pairs| && pairs[i].0 == key
    ensures key in m ==> PutAll(m, pairs)[key] == m[key]
    ensures forall i | 0 <= i < |pairs| && pairs[i].0 == key && key !in m
                       && (forall j | 0 <= j < i :: pairs[j].0 != key) :: PutAll(m, pairs)[key] == pairs[i].1
  {
    if pairs != [] {
      var n := |pairs| - 1;
      FirstValueWins(m, pairs[..n], key);
      assert forall i :: 0 <= i < n ==> pairs[..n][i] == pairs[i];
      if pairs[n].0 != key && exists i :: 0 <= i < |pairs| && pairs[i].0 == key {
        var i :| 0 <= i < |pairs| && pairs[i].0 == key;
        assert pairs[..n][i].0 == key;
      }
    }
  }

  /** The same for a batch with its keys. */
  lemma BatchIsAdded<K, V>(m: map<K, V>, pairs: seq<(Key<K>, V)>)
    ensures var m' := PutAll(m, Values(pairs));
            && (forall key <- m :: key in m' && m'[key] == m[key])
            && (forall i | 0 <= i < |pairs| :: pairs[i].0.value in m')
            && (forall i | 0 <= i < |pairs| && pairs[i].0.value !in m
                           && (forall j | 0 <= j < i :: pairs[j].0.value != pairs[i].0.value) ::
                  m'[pairs[i].0.value] == pairs[i].1)
            && (forall key <- m' :: key in m || exists i :: 0 <= i < |pairs| && pairs[i].0.value == key)
  {
    var m' := PutAll(m, Values(pairs));
    forall key <- m
      ensures key in m' && m'[key] == m[key]
    {
      FirstValueWins(m, Values(pairs), key);
    }
    forall i | 0 <= i < |pairs|
      ensures pairs[i].0.value in m'
      ensures pairs[i].0.value !in m && (forall j | 0 <= j < i :: pairs[j].0.value != pairs[i].0.value)
          ==> m'[pairs[i].0.value] == pairs[i].1
    {
      FirstValueWins(m, Values(pairs), pairs[i].0.value);
      assert Values(pairs)[i].0 == pairs[i].0.value;
    }
    forall key <- m'
      ensures key in m || exists i :: 0 <= i < |pairs| && pairs[i].0.value == key
    {
      FirstValueWins(m, Values(pairs), key);
      if key !in m {
        var i :| 0 <= i < |pairs| && Values(pairs)[i].0 == key;
        assert pairs[i].0.value == key;
      }
    }
  }

  /** The new capacity is the target of 20/7 of the elements, cut off at the limits. */
  lemma CapacityIsClamped(count: nat, minCap: nat, maxCap: nat)
    requires minCap <= maxCap
    ensures var cap := NewCapacity(count, minCap, maxCap);
            && minCap <= cap <= maxCap
            && (cap < maxCap ==> 20 * count < 7 * (cap + 1))
            && (cap > minCap ==> 7 * cap <= 20 * count)
  {
  }

  lemma {:induction false} PutAllSize<K, V>(m: map<K, V>, pairs: seq<(K, V)>)
    ensures |m| <= |PutAll(m, pairs)| <= |m| + |pairs|
  {
    if pairs != [] {
      PutAllSize(m, pairs[..|pairs| - 1]);
    }
  }

  // ----- the insertion loop

  /** Inserts one pair; see `RobinHood.Insert`. The loop has no counter. */
  method RobinHoodInsertSingle<K, V>(slots: array<Slot<K, V>>, key: Key<K>, val: V) returns (isInserted: bool)
    requires slots.Length > 0 && Placed(slots[..]) && HasFree(slots[..])
    modifies slots
    ensures isInserted
    ensures slots[..] == Insert(old(slots[..]), key, val)
  {
    ghost var s := slots[..];
    ghost var begin := Begin(s, key, val);
    ghost var n := 0;
    hide Placed, HasFree, Home;
    isInserted := false;
    var k, v := key, val;
    var i: nat, psa: nat := Home(key, slots.Length), 0;
    while true
      invariant !isInserted && i < slots.Length
      invariant Steps(begin, n) == Carrying(slots[..], i, psa, k, v)
      decreases |s| - n
    {
      CarryingMeansFewSteps(s, key, val, n);
      n := n + 1;
      match slots[i]
      case Empty =>
        slots[i] := Used(k, v, psa);
        isInserted := true;
        StepsAfterInserted(begin, n, |s|);
        break;
      case Used(k2, v2, oldPsa) =>
        if psa <= oldPsa {
          psa := psa + 1;
        } else {
          slots[i] := Used(k, v, psa);
          psa := oldPsa + 1;
          k, v := k2, v2;
        }
      i := if i >= slots.Length - 1 then 0 else i + 1;
    }
  }

  // ----- a run of operations, as the caller sees it

  datatype Op<K, V> =
    | InsertMulti(pairs: seq<(Key<K>, V)>, heapOk: bool)
    | Erase(key: Key<K>)
    | Extract(key: Key<K>)
    | At(key: Key<K>)
    | Contains(key: Key<K>)

  datatype Answer<V> = Code(status: Status) | Value(val: V) | Flag(found: bool)

  /** What a caller can tell about a table: its entries, and the capacity on which later
      failures of the heap may depend. Raw hashes are not part of it. */
  datatype Abstract<K, V> = Abstract(entries: map<K, V>, cap: nat)

  /** Outcome of inserting a batch. */
  function InsertStatus(size: nat, cap: nat, count: nat, maxCap: nat, heapOk: bool): Status {
    if size + count > UINT32_MAX || size + count > maxCap then CapLimitExceeded
    else if NeedsRebuild(size + count, cap) && !heapOk then MemoryAllocation
    else Ok
  }

  function StepOp<K(==), V>(a: Abstract<K, V>, op: Op<K, V>, minCap: nat, maxCap: nat): (Abstract<K, V>, Answer<V>) {
    match op
    case InsertMulti(pairs, heapOk) =>
      var status := InsertStatus(|a.entries|, a.cap, |pairs|, maxCap, heapOk);
      if status != Ok then (a, Code(status))
      else
        (Abstract(PutAll(a.entries, Values(pairs)), BatchCapacity(|a.entries| + |pairs|, a.cap, minCap, maxCap)), Code(Ok))
    case Erase(key) =>
      if key.value in a.entries then (a.(entries := a.entries - {key.value}), Code(Ok)) else (a, Code(ItemNotFound))
    case Extract(key) =>
      if key.value in a.entries then (a.(entries := a.entries - {key.value}), Value(a.entries[key.value])) else (a, Code(ItemNotFound))
    case At(key) =>
      (a, if key.value in a.entries then Value(a.entries[key.value]) else Code(ItemNotFound))
    case Contains(key) =>
      (a, Flag(key.value in a.entries))
  }

  function RunOps<K(==), V>(a: Abstract<K, V>, ops: seq<Op<K, V>>, minCap: nat, maxCap: nat): (Abstract<K, V>, seq<Answer<V>>) {
    if ops == [] then (a, [])
    else
      var (before, answers) := RunOps(a, ops[..|ops| - 1], minCap, maxCap);
      var (after, answer) := StepOp(before, ops[|ops| - 1], minCap, maxCap);
      (after, answers + [answer])
  }

  predicate Names<K(==), V>(op: Op<K, V>, key: K) {
    op.InsertMulti? && exists i :: 0 <= i < |op.pairs| && op.pairs[i].0.value == key
  }

  /** A key that is not stored stays so until a batch names it. */
  lemma {:induction false} AbsentStaysAbsent<K, V>(a: Abstract<K, V>, ops: seq<Op<K, V>>, key: K, minCap: nat, maxCap: nat)
    requires key !in a.entries && forall i | 0 <= i < |ops| :: !Names(ops[i], key)
    ensures key !in RunOps(a, ops, minCap, maxCap).0.entries
  {
    if ops != [] {
      var n := |ops| - 1;
      AbsentStaysAbsent(a, ops[..n], key, minCap, maxCap);
      var before := RunOps(a, ops[..n], minCap, maxCap).0;
      if ops[n].InsertMulti? {
        assert !Names(ops[n], key);
        FirstValueWins(before.entries, Values(ops[n].pairs), key);
      }
    }
  }

  /** Main result on removal: after Erase or Extract of a key, a lookup of that key finds nothing
      until some batch names it. */
  lemma RemovedIsNotFound<K, V>(a: Abstract<K, V>, removal: Op<K, V>, ops: seq<Op<K, V>>, lookup: Op<K, V>, minCap: nat, maxCap: nat)
    requires (removal.Erase? || removal.Extract?) && (lookup.At? || lookup.Contains?)
    requires lookup.key.value == removal.key.value
    requires forall i | 0 <= i < |ops| :: !Names(ops[i], lookup.key.value)
    ensures var after := RunOps(StepOp(a, removal, minCap, maxCap).0, ops, minCap, maxCap).0;
            StepOp(after, lookup, minCap, maxCap) == (after, if lookup.At? then Code(ItemNotFound) else Flag(false))
    ensures StepOp(a, removal, minCap, maxCap).0.entries == a.entries - {removal.key.value}
  {
    hide RunOps, Names, PutAll, Values, InsertStatus, BatchCapacity;
    AbsentStaysAbsent(StepOp(a, removal, minCap, maxCap).0, ops, lookup.key.value, minCap, maxCap);
  }

  /** And the other way round: once a batch was accepted, a key it names is found. */
  lemma InsertedIsFound<K, V>(a: Abstract<K, V>, batch: Op<K, V>, key: Key<K>, minCap: nat, maxCap: nat)
    requires Names(batch, key.value) && |a.entries| + |batch.pairs| <= maxCap && |a.entries| + |batch.pairs| <= UINT32_MAX
    requires batch.heapOk
    ensures var (after, answer) := StepOp(a, batch, minCap, maxCap);
            answer == Code(Ok) && StepOp(after, Op.Contains(key), minCap, maxCap).1 == Flag(true)
  {
    BatchIsAdded(a.entries, batch.pairs);
  }

  /** What a batch does, in plain terms. */
  lemma BatchOutcome<K, V>(a: Abstract<K, V>, pairs: seq<(Key<K>, V)>, heapOk: bool, minCap: nat, maxCap: nat)
    ensures var (a', answer) := StepOp(a, Op.InsertMulti(pairs, heapOk), minCap, maxCap);
            var (count, m, m') := (|a.entries| + |pairs|, a.entries, a'.entries);
            && answer.Code? && answer.status in {Ok, CapLimitExceeded, MemoryAllocation}
            && (answer.status == CapLimitExceeded <==> count > maxCap || count > UINT32_MAX)
            && (answer.status == MemoryAllocation <==>
                 count <= maxCap && count <= UINT32_MAX && !heapOk && 4 * count >= 3 * a.cap)
            && (answer.status != Ok ==> a' == a)
            && (answer.status == Ok ==>
                 && (forall key <- m :: key in m' && m'[key] == m[key])
                 && (forall i | 0 <= i < |pairs| :: pairs[i].0.value in m')
                 && (forall i | 0 <= i < |pairs| && pairs[i].0.value !in m
                                && (forall j | 0 <= j < i :: pairs[j].0.value != pairs[i].0.value) ::
                       m'[pairs[i].0.value] == pairs[i].1)
                 && (forall key <- m' :: key in m || exists i :: 0 <= i < |pairs| && pairs[i].0.value == key))
            && (answer.status == Ok && 4 * count < 3 * a.cap ==> a'.cap == a.cap)
            && (answer.status == Ok && 4 * count >= 3 * a.cap && minCap <= maxCap ==>
                 && minCap <= a'.cap <= maxCap
                 && (a'.cap < maxCap ==> 20 * count < 7 * (a'.cap + 1))
                 && (a'.cap > minCap ==> 7 * a'.cap <= 20 * count))
  {
    BatchIsAdded(a.entries, pairs);
    if minCap <= maxCap {
      CapacityIsClamped(|a.entries| + |pairs|, minCap, maxCap);
    }
    hide PutAll, Values, NewCapacity;
  }

  /** Whether an operation leaves the slots in Robin Hood order: a rebuild restores the order, a
      removal gives it up. */
  predicate OrderAfterOp<K(==), V>(a: Abstract<K, V>, op: Op<K, V>, inOrder: bool, maxCap: nat) {
    match op
    case InsertMulti(pairs, heapOk) =>
      inOrder
      || (InsertStatus(|a.entries|, a.cap, |pairs|, maxCap, heapOk) == Ok && NeedsRebuild(|a.entries| + |pairs|, a.cap))
    case Erase(key) => inOrder && key.value !in a.entries
    case Extract(key) => inOrder && key.value !in a.entries
    case At(_) => inOrder
    case Contains(_) => inOrder
  }

  /** The same over a run: in order at first or rebuilt, and nothing removed since. */
  predicate OrderAfter<K(==), V>(a: Abstract<K, V>, ops: seq<Op<K, V>>, inOrder: bool, minCap: nat, maxCap: nat) {
    if ops == [] then inOrder
    else
      var n := |ops| - 1;
      OrderAfterOp(RunOps(a, ops[..n], minCap, maxCap).0, ops[n], OrderAfter(a, ops[..n], inOrder, minCap, maxCap), maxCap)
  }

  predicate Rebuilds<K(==), V>(a: Abstract<K, V>, op: Op<K, V>, maxCap: nat) {
    op.InsertMulti? && op.heapOk
    && |a.entries| + |op.pairs| <= maxCap && |a.entries| + |op.pairs| <= UINT32_MAX
    && 4 * (|a.entries| + |op.pairs|) >= 3 * a.cap
  }

  predicate Removes<K(==), V>(a: Abstract<K, V>, op: Op<K, V>) {
    (op.Erase? || op.Extract?) && op.key.value in a.entries
  }

  /** Operation `i` rebuilds, and none from it on and before `j` removes a key. */
  predicate OrderedSince<K(==), V>(a: Abstract<K, V>, ops: seq<Op<K, V>>, i: nat, j: nat, minCap: nat, maxCap: nat)
    requires i < j <= |ops|
  {
    Rebuilds(RunOps(a, ops[..i], minCap, maxCap).0, ops[i], maxCap)
    && forall k | i < k < j :: !Removes(RunOps(a, ops[..k], minCap, maxCap).0, ops[k])
  }

  predicate NothingRemoved<K(==), V>(a: Abstract<K, V>, ops: seq<Op<K, V>>, j: nat, minCap: nat, maxCap: nat)
    requires j <= |ops|
  {
    forall k | 0 <= k < j :: !Removes(RunOps(a, ops[..k], minCap, maxCap).0, ops[k])
  }

  /** The order is known exactly if it was there at first and nothing was removed, or some batch
      rebuilt the table and nothing was removed since. */
  lemma {:induction false} OrderAfterIff<K, V>(a: Abstract<K, V>, ops: seq<Op<K, V>>, j: nat, inOrder: bool, minCap: nat, maxCap: nat)
    requires j <= |ops|
    ensures OrderAfter(a, ops[..j], inOrder, minCap, maxCap)
       <==> (inOrder && NothingRemoved(a, ops, j, minCap, maxCap))
            || exists i | 0 <= i < j :: OrderedSince(a, ops, i, j, minCap, maxCap)
  {
    hide RunOps, Rebuilds, Removes, OrderAfterOp;
    if j > 0 {
      OrderAfterIff(a, ops, j - 1, inOrder, minCap, maxCap);
      assert ops[..j][..j - 1] == ops[..j - 1];
      var before := RunOps(a, ops[..j - 1], minCap, maxCap).0;
      OrderAfterOpIs(before, ops[j - 1], OrderAfter(a, ops[..j - 1], inOrder, minCap, maxCap), maxCap);
      if Rebuilds(before, ops[j - 1], maxCap) {
        assert OrderedSince(a, ops, j - 1, j, minCap, maxCap);
      } else if Removes(before, ops[j - 1]) {
        assert !NothingRemoved(a, ops, j, minCap, maxCap);
      } else {
        NothingChanges(a, ops, j - 1, j, minCap, maxCap);
      }
    }
  }

  lemma NothingChanges<K, V>(a: Abstract<K, V>, ops: seq<Op<K, V>>, p: nat, j: nat, minCap: nat, maxCap: nat)
    requires p + 1 == j <= |ops|
    requires !Rebuilds(RunOps(a, ops[..p], minCap, maxCap).0, ops[p], maxCap)
    requires !Removes(RunOps(a, ops[..p], minCap, maxCap).0, ops[p])
    ensures NothingRemoved(a, ops, j, minCap, maxCap) <==> NothingRemoved(a, ops, p, minCap, maxCap)
    ensures (exists i | 0 <= i < j :: OrderedSince(a, ops, i, j, minCap, maxCap))
       <==> exists i | 0 <= i < p :: OrderedSince(a, ops, i, p, minCap, maxCap)
  {
    hide RunOps, Rebuilds, Removes;
    assert !OrderedSince(a, ops, p, j, minCap, maxCap);
    forall i | 0 <= i < p
      ensures OrderedSince(a, ops, i, j, minCap, maxCap) <==> OrderedSince(a, ops, i, p, minCap, maxCap)
    {
    }
    if exists i | 0 <= i < j :: OrderedSince(a, ops, i, j, minCap, maxCap) {
      var i :| 0 <= i < j && OrderedSince(a, ops, i, j, minCap, maxCap);
      assert OrderedSince(a, ops, i, p, minCap, maxCap);
    }
    if exists i | 0 <= i < p :: OrderedSince(a, ops, i, p, minCap, maxCap) {
      var i :| 0 <= i < p && OrderedSince(a, ops, i, p, minCap, maxCap);
      assert OrderedSince(a, ops, i, j, minCap, maxCap);
    }
  }

  lemma OrderAfterOpIs<K, V>(a: Abstract<K, V>, op: Op<K, V>, inOrder: bool, maxCap: nat)
    ensures OrderAfterOp(a, op, inOrder, maxCap) <==> Rebuilds(a, op, maxCap) || (inOrder && !Removes(a, op))
    ensures !(Rebuilds(a, op, maxCap) && Removes(a, op))
  {
  }

  lemma OrderStep<K, V>(a: Abstract<K, V>, ops: seq<Op<K, V>>, n: nat, inOrder: bool, now: bool, minCap: nat, maxCap: nat)
    requires n < |ops| && (OrderAfter(a, ops[..n], inOrder, minCap, maxCap) ==> now)
    ensures OrderAfter(a, ops[..n + 1], inOrder, minCap, maxCap)
        ==> OrderAfterOp(RunOps(a, ops[..n], minCap, maxCap).0, ops[n], now, maxCap)
  {
    assert ops[..n + 1][..n] == ops[..n];
  }

  /** Operations that name the same key values, whatever the keys hash to. */
  predicate SameButForHashes<K(==), V(==)>(p: Op<K, V>, q: Op<K, V>) {
    match (p, q)
    case (InsertMulti(a, ok), InsertMulti(b, ok')) => Values(a) == Values(b) && ok == ok'
    case (Erase(a), Erase(b)) => a.value == b.value
    case (Extract(a), Extract(b)) => a.value == b.value
    case (At(a), At(b)) => a.value == b.value
    case (Contains(a), Contains(b)) => a.value == b.value
    case _ => false
  }

  /** What a run on the map answers, and the entries it leaves, do not depend on raw hashes. */
  lemma {:induction false} RunIgnoresHashes<K, V>(a: Abstract<K, V>, ops: seq<Op<K, V>>, ops': seq<Op<K, V>>, minCap: nat, maxCap: nat)
    requires |ops| == |ops'| && forall i | 0 <= i < |ops| :: SameButForHashes(ops[i], ops'[i])
    ensures RunOps(a, ops, minCap, maxCap) == RunOps(a, ops', minCap, maxCap)
  {
    if ops != [] {
      var n := |ops| - 1;
      RunIgnoresHashes(a, ops[..n], ops'[..n], minCap, maxCap);
      assert SameButForHashes(ops[n], ops'[n]);
      StepIgnoresHashes(RunOps(a, ops[..n], minCap, maxCap).0, ops[n], ops'[n], minCap, maxCap);
    }
  }

  lemma StepIgnoresHashes<K, V>(a: Abstract<K, V>, p: Op<K, V>, q: Op<K, V>, minCap: nat, maxCap: nat)
    requires SameButForHashes(p, q)
    ensures StepOp(a, p, minCap, maxCap) == StepOp(a, q, minCap, maxCap)
  {
    if p.InsertMulti? {
      assert |Values(p.pairs)| == |Values(q.pairs)|;
    }
  }

  // ----- the table

  class Hashtable<K(==), V> {
    const minCap: nat
    const maxCap: nat
    var slots: array<Slot<K, V>>
    var elemCount: nat
    ghost var contents: map<K, V>

    /** The slot array stands for the entries; `elemCount` aside. */
    ghost predicate Shape()
      reads this, slots
    {
      && slots.Length > 0
      && Placed(slots[..])
      && Represents(slots[..], contents)
    }

    ghost predicate Valid()
      reads this, slots
    {
      Shape() && elemCount == |contents|
    }

    /** The Robin Hood ordering of the slot array. */
    ghost predicate InOrder()
      reads this, slots
    {
      Ordered(slots[..])
    }

    ghost function View(): Abstract<K, V>
      reads this
    {
      Abstract(contents, slots.Length)
    }

    constructor (initCap: nat, minCap: nat, maxCap: nat)
      requires initCap > 0
      ensures Valid() && InOrder() && fresh(slots)
      ensures contents == map[] && slots.Length == initCap
      ensures this.minCap == minCap && this.maxCap == maxCap
    {
      this.minCap, this.maxCap := minCap, maxCap;
      slots := new Slot<K, V>[initCap](_ => Empty);
      elemCount := 0;
      contents := map[];
      new;
      PairsOfEmpty(slots[..]);
    }

    /** Index of a key. */
    method LocKey(key: Key<K>) returns (r: Option<nat>)
      requires slots.Length > 0
      ensures r == Locate(slots[..], key)
    {
      var i: nat := Home(key, slots.Length);
      for j := 0 to slots.Length
        invariant i < slots.Length
        invariant Locate(slots[..], key) == FullScan(slots[..], key, i, j)
      {
        if slots[i].Used? && slots[i].key.value == key.value {
          return Some(i);
        }
        i := if i >= slots.Length - 1 then 0 else i + 1;
      }
      return None;
    }

    method Contains(key: Key<K>) returns (found: bool)
      requires Shape()
      ensures found <==> key.value in contents
    {
      LocateRefinesMap(slots[..], contents, key);
      var r := LocKey(key);
      found := r.Some?;
    }

    method At(key: Key<K>) returns (r: Option<V>)
      requires Valid()
      ensures r == if key.value in contents then Some(contents[key.value]) else None
    {
      LocateRefinesMap(slots[..], contents, key);
      var where2Find := LocKey(key);
      if where2Find.None? {
        return None;
      }
      return Some(slots[where2Find.value].val);
    }

    /** Clears the used flag of the slot that holds `key`. Other slots are not moved, so the
        ordering is lost. */
    method RemoveAt(i: nat, ghost key: K)
      requires Valid() && i < slots.Length && slots[i].Used? && slots[i].key.value == key && key in contents
      requires slots[i].val == contents[key]
      modifies this`elemCount, this`contents, slots
      ensures Valid() && contents == old(contents) - {key}
    {
      hide Represents;
      ghost var s, none: Slot<K, V> := slots[..], Empty;
      RemovedSlot(s, contents, i);
      EntriesSize(contents);
      slots[i] := Empty;
      assert slots[..] == s[i := none];
      elemCount := elemCount - 1;
      contents := contents - {key};
      forall j | 0 <= j < |slots[..]| && slots[..][j].Used?
        ensures slots[..][j].offset == Distance(Home(slots[..][j].key, |slots[..]|), j, |slots[..]|)
      {
        assert s[j].Used?;
      }
    }

    method Erase(key: Key<K>) returns (status: Status)
      requires Valid()
      modifies this`elemCount, this`contents, slots
      ensures Valid()
      ensures contents == old(contents) - {key.value} && slots.Length == old(slots.Length)
      ensures status == if key.value in old(contents) then Ok else ItemNotFound
      ensures (View(), Code(status)) == StepOp(old(View()), Op.Erase(key), minCap, maxCap)
      ensures status != Ok ==> slots[..] == old(slots[..])
    {
      LocateRefinesMap(slots[..], contents, key);
      var where2Find := LocKey(key);
      if where2Find.None? {
        return ItemNotFound;
      }
      RemoveAt(where2Find.value, key.value);
      return Ok;
    }

    method Extract(key: Key<K>) returns (r: Option<V>)
      requires Valid()
      modifies this`elemCount, this`contents, slots
      ensures Valid()
      ensures contents == old(contents) - {key.value} && slots.Length == old(slots.Length)
      ensures r == if key.value in old(contents) then Some(old(contents)[key.value]) else None
      ensures (View(), if r.Some? then Value(r.value) else Code(ItemNotFound))
           == StepOp(old(View()), Op.Extract(key), minCap, maxCap)
      ensures r.None? ==> slots[..] == old(slots[..])
    {
      LocateRefinesMap(slots[..], contents, key);
      var where2Find := LocKey(key);
      if where2Find.None? {
        return None;
      }
      r := Some(slots[where2Find.value].val);
      RemoveAt(where2Find.value, key.value);
    }

    /** Rebuilds the table with a new capacity. `heapOk` is the answer of the system heap. */
    method AdjustCapacity(newCap: nat, heapOk: bool) returns (status: Status)
      requires Valid() && (heapOk ==> 0 < newCap && elemCount <= newCap)
      modifies this`slots
      ensures Valid()
      ensures status == if heapOk then Ok else MemoryAllocation
      ensures !heapOk ==> slots == old(slots) && slots[..] == old(slots[..])
      ensures heapOk ==> fresh(slots) && slots.Length == newCap && InOrder()
    {
      if !heapOk {
        return MemoryAllocation;
      }
      hide Represents, Placed, Ordered, Pairs;
      SizeOfPairs(slots[..], contents);
      var newSlots := Rebuilt(slots, elemCount, newCap);
      RepresentsSame(slots[..], newSlots[..], contents);
      slots := newSlots;
      return Ok;
    }

    /** Inserts one pair whose key is not stored yet; `elemCount` is left to the caller. */
    method Put(key: Key<K>, val: V)
      requires Shape() && key.value !in contents && |contents| < slots.Length
      modifies this`contents, slots
      ensures Shape() && contents == old(contents)[key.value := val]
      ensures old(InOrder()) ==> InOrder()
    {
      hide Represents, Placed, Ordered, Pairs, Insert;
      PutKeepsShape(slots[..], contents, key, val);
      var isInserted := RobinHoodInsertSingle(slots, key, val);
      contents := contents[key.value := val];
    }

    /** Checks the limits, rebuilds if needed and inserts; the contract is that of `StepOp`. */
    method InsertBatch(pairs: seq<(Key<K>, V)>, heapOk: bool) returns (status: Status)
      requires Valid()
      modifies this`elemCount, this`contents, this`slots, slots
      ensures Valid() && (slots == old(slots) || fresh(slots))
      ensures (View(), Code(status)) == StepOp(old(View()), Op.InsertMulti(pairs, heapOk), minCap, maxCap)
      ensures status != Ok ==> slots == old(slots) && slots[..] == old(slots[..])
      ensures old(InOrder()) || slots != old(slots) ==> InOrder()
      ensures status == Ok && NeedsRebuild(old(elemCount) + |pairs|, old(slots.Length)) ==> InOrder()
    {
      hide Represents, Placed, Ordered, PutAll, NewCapacity;
      var newElemCount := elemCount + |pairs|;
      if newElemCount > UINT32_MAX || newElemCount > maxCap {
        return CapLimitExceeded;
      }
      BatchFits(newElemCount, slots.Length, minCap, maxCap);
      if NeedsRebuild(newElemCount, slots.Length) {
        status := AdjustCapacity(NewCapacity(newElemCount, minCap, maxCap), heapOk);
        if status != Ok {
          return;
        }
      }
      var actAdded := PutEach(pairs);
      elemCount := elemCount + actAdded;
      return Ok;
    }

    /** Inserts a batch. A key already stored, also by the same batch, is skipped; the size the
        batch is rebuilt for counts such pairs all the same. */
    method InsertMulti(pairs: seq<(Key<K>, V)>, heapOk: bool) returns (status: Status)
      requires Valid()
      modifies this`elemCount, this`contents, this`slots, slots
      ensures Valid() && (slots == old(slots) || fresh(slots))
      ensures status == CapLimitExceeded <==> old(elemCount) + |pairs| > maxCap || old(elemCount) + |pairs| > UINT32_MAX
      ensures status == MemoryAllocation <==>
        && old(elemCount) + |pairs| <= maxCap && old(elemCount) + |pairs| <= UINT32_MAX
        && !heapOk && 4 * (old(elemCount) + |pairs|) >= 3 * old(slots.Length)
      ensures status in {Ok, CapLimitExceeded, MemoryAllocation}
      ensures status != Ok ==> contents == old(contents) && elemCount == old(elemCount)
      ensures status == Ok ==>
        && (forall key <- old(contents) :: key in contents && contents[key] == old(contents)[key])
        && (forall i | 0 <= i < |pairs| :: pairs[i].0.value in contents)
        && (forall i | 0 <= i < |pairs| && pairs[i].0.value !in old(contents)
                       && (forall j | 0 <= j < i :: pairs[j].0.value != pairs[i].0.value) ::
              contents[pairs[i].0.value] == pairs[i].1)
        && (forall key <- contents :: key in old(contents) || exists i :: 0 <= i < |pairs| && pairs[i].0.value == key)
      ensures status == Ok && 4 * (old(elemCount) + |pairs|) < 3 * old(slots.Length) ==> slots.Length == old(slots.Length)
      ensures status == Ok && 4 * (old(elemCount) + |pairs|) >= 3 * old(slots.Length) && minCap <= maxCap ==>
        && minCap <= slots.Length <= maxCap
        && (slots.Length < maxCap ==> 20 * (old(elemCount) + |pairs|) < 7 * (slots.Length + 1))
        && (slots.Length > minCap ==> 7 * slots.Length <= 20 * (old(elemCount) + |pairs|))
      ensures (View(), Code(status)) == StepOp(old(View()), Op.InsertMulti(pairs, heapOk), minCap, maxCap)
      ensures status != Ok ==> slots == old(slots) && slots[..] == old(slots[..])
      ensures old(InOrder()) || slots != old(slots) ==> InOrder()
      ensures status == Ok && NeedsRebuild(old(elemCount) + |pairs|, old(slots.Length)) ==> InOrder()
    {
      BatchOutcome(View(), pairs, heapOk, minCap, maxCap);
      hide Represents, Placed, Ordered, StepOp;
      status := InsertBatch(pairs, heapOk);
    }

    /** The insertion loop of a batch; returns how many pairs were added. */
    method PutEach(pairs: seq<(Key<K>, V)>) returns (actAdded: nat)
      requires Shape() && |contents| + |pairs| <= slots.Length
      modifies this`contents, slots
      ensures Shape() && contents == PutAll(old(contents), Values(pairs)) && |contents| == |old(contents)| + actAdded
      ensures old(InOrder()) ==> InOrder()
    {
      hide Shape, InOrder;
      actAdded := 0;
      for i := 0 to |pairs|
        invariant Shape() && contents == PutAll(old(contents), Values(pairs)[..i])
        invariant |contents| == |old(contents)| + actAdded && actAdded <= i
        invariant old(InOrder()) ==> InOrder()
      {
        assert Values(pairs)[..i + 1][..i] == Values(pairs)[..i];
        var found := Contains(pairs[i].0);
        if !found {
          Put(pairs[i].0, pairs[i].1);
          actAdded := actAdded + 1;
        }
      }
      assert Values(pairs)[..|pairs|] == Values(pairs);
    }

    /** Calls `visit` on the stored pairs in array order until it fails; returns what the last
        call returned, and the pairs visited. */
    method ForEach(visit: (Key<K>, V) -> Status) returns (status: Status, visited: seq<(Key<K>, V)>)
      requires Valid()
      ensures visited <= Listing(slots[..])
      ensures forall i | 0 <= i < |visited| - 1 :: visit(visited[i].0, visited[i].1) == Ok
      ensures status == if visited == [] then NoOperation else visit(visited[|visited| - 1].0, visited[|visited| - 1].1)
      ensures visited == Listing(slots[..]) || (visited != [] && status != Ok)
    {
      status, visited := NoOperation, [];
      ghost var s := slots[..];
      assert s[..0] == [];
      if elemCount == 0 {
        NoElements(s, contents);
        return;
      }
      for i := 0 to slots.Length
        invariant visited == Listing(s[..i])
        invariant forall m | 0 <= m < |visited| :: visit(visited[m].0, visited[m].1) == Ok
        invariant status == if visited == [] then NoOperation else Ok
      {
        ListingOfPrefix(s, i);
        if slots[i].Used? {
          status, visited := visit(slots[i].key, slots[i].val), visited + [(slots[i].key, slots[i].val)];
          if status != Ok {
            ListingIsMonotone(s, i + 1);
            return;
          }
        }
      }
      assert s[..|s|] == s;
    }

    /** The pairs handed to the destructor, in order. The scan ends once as many were passed as
        are stored. */
    method FreeElems() returns (freed: seq<(Key<K>, V)>)
      requires Valid()
      ensures freed == Listing(slots[..]) && multiset(Values(freed)) == multiset(Entries(contents))
    {
      freed := [];
      ghost var s := slots[..];
      SizeOfPairs(s, contents);
      ListingIsPairs(s);
      assert s[..0] == [];
      hide Pairs;
      var i, j := 0, 0;
      while i < slots.Length && j < elemCount
        invariant i <= slots.Length && freed == Listing(s[..i]) && j == |freed|
      {
        ListingOfPrefix(s, i);
        if slots[i].Used? {
          freed := freed + [(slots[i].key, slots[i].val)];
          j := j + 1;
        }
        i := i + 1;
      }
      ListingComplete(s, i);
    }

    /** Empties the table. The rebuild in between moves all elements first; it only ends if they
        fit the minimum capacity, see `RebuildEndsIff`. If the heap fails, the old array is
        kept and zeroed. */
    method Clear(heapOk: bool)
      requires Valid() && (heapOk ==> 0 < minCap && elemCount <= minCap)
      modifies this`elemCount, this`contents, this`slots, slots
      ensures Valid() && InOrder() && (slots == old(slots) || fresh(slots))
      ensures View() == Abstract(map[], if heapOk then minCap else old(slots.Length))
    {
      var status := AdjustCapacity(minCap, heapOk);
      forall i | 0 <= i < slots.Length {
        slots[i] := Empty;
      }
      elemCount := 0;
      contents := map[];
      EmptySlots(slots[..]);
    }

    /** In an ordered table, where equal keys hash equally, the lookup may stop early. */
    lemma OrderedLookup(key: Key<K>)
      requires Valid() && InOrder() && SameHome(slots[..], key)
      ensures EarlyScan(slots[..], key, Home(key, slots.Length), 0) == Locate(slots[..], key)
    {
      EarlyScanIsFullScan(slots[..], key);
    }

    /** Main result: every run of operations answers as the map does, and leaves the map's final
        entries; raw hashes have no influence. Unless a key was removed since the last rebuild, the
        table is ordered at the end; see `OrderedLookup`. */
    method Execute(ops: seq<Op<K, V>>) returns (answers: seq<Answer<V>>)
      requires Valid()
      modifies this`elemCount, this`contents, this`slots, slots
      ensures Valid() && (slots == old(slots) || fresh(slots))
      ensures (View(), answers) == RunOps(old(View()), ops, minCap, maxCap)
      ensures OrderAfter(old(View()), ops, old(InOrder()), minCap, maxCap) ==> InOrder()
    {
      ghost var start, inOrder := View(), InOrder();
      answers := [];
      assert OrderAfter(start, ops[..0], inOrder, minCap, maxCap) == inOrder;
      hide Represents, Placed, Ordered, StepOp, OrderAfterOp, OrderAfter;
      for n := 0 to |ops|
        invariant Valid() && (slots == old(slots) || fresh(slots))
        invariant (View(), answers) == RunOps(start, ops[..n], minCap, maxCap)
        invariant OrderAfter(start, ops[..n], inOrder, minCap, maxCap) ==> InOrder()
      {
        assert ops[..n + 1][..n] == ops[..n];
        OrderStep(start, ops, n, inOrder, InOrder(), minCap, maxCap);
        var answer := ExecuteOne(ops[n]);
        answers := answers + [answer];
      }
      assert ops[..|ops|] == ops;
    }

    method ExecuteOne(op: Op<K, V>) returns (answer: Answer<V>)
      requires Valid()
      modifies this`elemCount, this`contents, this`slots, slots
      ensures Valid() && (slots == old(slots) || fresh(slots))
      ensures (View(), answer) == StepOp(old(View()), op, minCap, maxCap)
      ensures OrderAfterOp(old(View()), op, old(InOrder()), maxCap) ==> InOrder()
      ensures op.At? || op.Extract? ==>
        answer == if op.key.value in old(contents) then Value(old(contents)[op.key.value]) else Code(ItemNotFound)
      ensures op.Contains? ==> answer == Flag(op.key.value in old(contents))
      ensures op.At? || op.Contains? ==> contents == old(contents)
      ensures op.Erase? ==> answer == Code(if op.key.value in old(contents) then Ok else ItemNotFound)
      ensures op.Erase? || op.Extract? ==> contents == old(contents) - {op.key.value}
    {
      hide Represents, Placed, Ordered, PutAll, NeedsRebuild;
      match op
      case InsertMulti(pairs, heapOk) =>
        var status := InsertMulti(pairs, heapOk);
        answer := Code(status);
      case Erase(key) =>
        var status := Erase(key);
        answer := Code(status);
      case Extract(key) =>
        var r := Extract(key);
        answer := if r.Some? then Value(r.value) else Code(ItemNotFound);
      case At(key) =>
        var r := At(key);
        answer := if r.Some? then Value(r.value) else Code(ItemNotFound);
      case Contains(key) =>
        var found := Contains(key);
        answer := Flag(found);
    }
  }

  /** Main result on hashing: two tables with the same entries and capacity, on which runs are
      executed that name the same key values, answer alike and end with the same entries and
      capacity, whatever the keys hash to and wherever the probing puts them. */
  method ExecuteBoth<K(==), V(==)>(one: Hashtable<K, V>, other: Hashtable<K, V>, ops: seq<Op<K, V>>, ops': seq<Op<K, V>>)
    returns (answers: seq<Answer<V>>, answers': seq<Answer<V>>)
    requires one.Valid() && other.Valid() && one != other && one.slots != other.slots
    requires one.View() == other.View() && one.minCap == other.minCap && one.maxCap == other.maxCap
    requires |ops| == |ops'| && forall i | 0 <= i < |ops| :: SameButForHashes(ops[i], ops'[i])
    modifies one, one.slots, other, other.slots
    ensures one.Valid() && other.Valid()
    ensures answers == answers' && one.View() == other.View()
  {
    RunIgnoresHashes(one.View(), ops, ops', one.minCap, one.maxCap);
    hide RunOps, SameButForHashes, Hashtable.Valid, Represents, Placed;
    answers := one.Execute(ops);
    answers' := other.Execute(ops');
  }

  /** A new array of `newCap` slots with the `count` pairs of an old one. */
  method Rebuilt<K, V>(source: array<Slot<K, V>>, count: nat, newCap: nat) returns (target: array<Slot<K, V>>)
    requires count == |Pairs(source[..])| <= newCap
    ensures fresh(target) && target.Length == newCap
    ensures Placed(target[..]) && Ordered(target[..]) && Pairs(target[..]) == Pairs(source[..])
  {
    hide Placed, Ordered, Pairs;
    ghost var s := source[..];
    target := new Slot<K, V>[newCap](_ => Empty);
    EmptySlots(target[..]);
    assert source[..] == s;
    MoveAll(source, count, target);
  }

  /** Inserts the `count` pairs of one slot array into an empty one. */
  method MoveAll<K, V>(source: array<Slot<K, V>>, count: nat, target: array<Slot<K, V>>)
    requires source != target && count == |Pairs(source[..])| <= target.Length
    requires Placed(target[..]) && Ordered(target[..]) && Pairs(target[..]) == multiset{}
    modifies target
    ensures Placed(target[..]) && Ordered(target[..]) && Pairs(target[..]) == Pairs(source[..])
  {
    ghost var s := source[..];
    var i, j := 0, 0;
    PairsOfNothing(s);
    assert Moved(s, 0, target[..]);
    hide Moved, Placed, Ordered, HasFree, Pairs, Insert;
    while i < source.Length && j < count
      invariant i <= source.Length
      invariant Moved(s, i, target[..]) && j == |Pairs(s[..i])|
    {
      MoveStep(s, i, target[..]);
      if source[i].Used? {
        var isInserted := RobinHoodInsertSingle(target, source[i].key, source[i].val);
        j := j + 1;
      }
      i := i + 1;
    }
    MovedAll(s, i, target[..]);
  }

  // ----- lemmas for the methods

  lemma SizeOfPairs<K, V>(s: Slots<K, V>, m: map<K, V>)
    requires Represents(s, m)
    ensures |Pairs(s)| == |m|
  {
    EntriesSize(m);
    assert |multiset(Entries(m))| == |Entries(m)|;
  }

  lemma RepresentsSame<K, V>(s: Slots<K, V>, s': Slots<K, V>, m: map<K, V>)
    requires Represents(s, m) && Pairs(s') == Pairs(s)
    ensures Represents(s', m)
  {
  }

  lemma EmptySlots<K, V>(s: Slots<K, V>)
    requires forall i :: 0 <= i < |s| ==> s[i].Empty?
    ensures Placed(s) && Ordered(s) && Pairs(s) == multiset{}
  {
    PairsOfEmpty(s);
  }

  /** The first `i` slots of `s` have been moved into `t`. */
  ghost predicate Moved<K, V>(s: Slots<K, V>, i: nat, t: Slots<K, V>)
    requires i <= |s|
  {
    Placed(t) && Ordered(t) && Pairs(t) == Pairs(s[..i])
  }

  lemma MoveStep<K, V>(s: Slots<K, V>, i: nat, t: Slots<K, V>)
    requires i < |s| && Moved(s, i, t) && |Pairs(s[..i])| < |t|
    ensures s[i].Empty? ==> Moved(s, i + 1, t) && |Pairs(s[..i + 1])| == |Pairs(s[..i])|
    ensures s[i].Used? ==>
      && HasFree(t) && Placed(t) && Moved(s, i + 1, Insert(t, s[i].key, s[i].val))
      && |Pairs(s[..i + 1])| == |Pairs(s[..i])| + 1
  {
    hide Placed, Ordered, Insert, HasFree;
    PairsOfPrefix(s, i);
    FullIff(t);
    if s[i].Used? {
      InsertIsCorrect(t, s[i].key, s[i].val);
    }
  }

  lemma PairsOfNothing<K, V>(s: Slots<K, V>)
    ensures Pairs(s[..0]) == multiset{}
  {
  }

  lemma PairsOfPrefix<K, V>(s: Slots<K, V>, i: nat)
    requires i < |s|
    ensures Pairs(s[..i + 1]) == Pairs(s[..i]) + One(s[i])
  {
    assert s[..i + 1][..i] == s[..i];
  }

  lemma {:induction false} PairsOfConcat<K, V>(a: Slots<K, V>, b: Slots<K, V>)
    ensures Pairs(a + b) == Pairs(a) + Pairs(b)
  {
    hide One;
    if b == [] {
      assert a + b == a;
    } else {
      var n := |b| - 1;
      PairsOfConcat(a, b[..n]);
      assert (a + b)[..|a + b| - 1] == a + b[..n];
    }
  }

  /** Once as many pairs were passed as are stored, no later slot is used. */
  lemma RestIsEmpty<K, V>(s: Slots<K, V>, i: nat)
    requires i <= |s| && (i == |s| || |Pairs(s[..i])| >= |Pairs(s)|)
    ensures Pairs(s[..i]) == Pairs(s)
  {
    assert s == s[..i] + s[i..];
    PairsOfConcat(s[..i], s[i..]);
  }

  lemma MovedAll<K, V>(s: Slots<K, V>, i: nat, t: Slots<K, V>)
    requires i <= |s| && Moved(s, i, t)
    requires i == |s| || |Pairs(s[..i])| >= |Pairs(s)|
    ensures Placed(t) && Ordered(t) && Pairs(t) == Pairs(s)
  {
    RestIsEmpty(s, i);
  }

  lemma PutKeepsShape<K, V>(s: Slots<K, V>, m: map<K, V>, key: Key<K>, val: V)
    requires |s| > |m| && Placed(s) && Represents(s, m) && key.value !in m
    ensures HasFree(s)
    ensures var r := Insert(s, key, val);
            Placed(r) && Represents(r, m[key.value := val]) && (Ordered(s) ==> Ordered(r))
  {
    hide Placed, Ordered, Insert, HasFree;
    SizeOfPairs(s, m);
    FullIff(s);
    InsertIsCorrect(s, key, val);
    EntriesAfterPut(m, key.value, val);
  }

  lemma NoElements<K, V>(s: Slots<K, V>, m: map<K, V>)
    requires Represents(s, m) && |m| == 0
    ensures Listing(s) == []
  {
    SizeOfPairs(s, m);
    ListingIsPairs(s);
    assert |multiset(Values(Listing(s)))| == |Values(Listing(s))|;
  }

  lemma ListingOfPrefix<K, V>(s: Slots<K, V>, i: nat)
    requires i < |s|
    ensures Listing(s[..i + 1]) == Listing(s[..i]) + if s[i].Used? then [(s[i].key, s[i].val)] else []
  {
    assert s[..i + 1][..i] == s[..i];
  }

  lemma {:induction false} ListingIsMonotone<K, V>(s: Slots<K, V>, i: nat)
    requires i <= |s|
    ensures Listing(s[..i]) <= Listing(s)
    decreases |s| - i
  {
    if i < |s| {
      ListingOfPrefix(s, i);
      ListingIsMonotone(s, i + 1);
    } else {
      assert s[..i] == s;
    }
  }

  lemma ListingComplete<K, V>(s: Slots<K, V>, i: nat)
    requires i <= |s| && (i == |s| || |Listing(s[..i])| >= |Listing(s)|)
    ensures Listing(s[..i]) == Listing(s)
  {
    ListingIsMonotone(s, i);
    assert s[..|s|] == s;
  }

  lemma RemovedSlot<K, V>(s: Slots<K, V>, m: map<K, V>, i: nat)
    requires i < |s| && s[i].Used? && s[i].key.value in m && m[s[i].key.value] == s[i].val && Represents(s, m)
    ensures Represents(s[i := Empty], m - {s[i].key.value})
  {
    var none: Slot<K, V> := Empty;
    PairsUpdate(s, i, none);
    EntriesAfterRemove(m, s[i].key.value);
    hide Pairs;
    assert One(s[i]) == multiset{(s[i].key.value, s[i].val)} && One(none) == multiset{};
    CancelBag(Pairs(s[i := none]), multiset(Entries(m - {s[i].key.value})), One(s[i]));
  }

  lemma CancelBag<T>(a: multiset<T>, b: multiset<T>, c: multiset<T>)
    requires a + c == b + c
    ensures a == b
  {
    forall x
      ensures a[x] == b[x]
    {
      assert (a + c)[x] == (b + c)[x];
    }
  }
}
