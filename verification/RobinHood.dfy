/** The probe sequences of the hash table, on slot arrays as values. */
module RobinHood {
  import opened Basics

  /** A key as passed by a caller: its value, by which keys are compared, and its raw hash. The
      two are independent: a UUID key is compared by the UUID it points to, but hashed by the
      bytes of the key union. */
  datatype Key<K> = Key(value: K, raw: nat)

  /** A slot in use carries its pair and the distance from the slot its key hashes to. */
  datatype Slot<K, V> = Empty | Used(key: Key<K>, val: V, offset: nat)

  type Slots<K, V> = seq<Slot<K, V>>

  // ----- circular positions

  function Next(i: nat, cap: nat): nat {
    if i >= cap - 1 then 0 else i + 1
  }

  function Prev(i: nat, cap: nat): nat
    requires i < cap
  {
    if i == 0 then cap - 1 else i - 1
  }

  /** Number of steps from one position to another. */
  function Distance(from: nat, to: nat, cap: nat): nat
    requires from < cap && to < cap
  {
    if to >= from then to - from else to + cap - from
  }

  /** Position after `d` steps. */
  function At(from: nat, d: nat, cap: nat): nat
    requires from < cap && d < cap
  {
    if from + d < cap then from + d else from + d - cap
  }

  function Home<K>(key: Key<K>, cap: nat): (h: nat)
    requires cap > 0
    ensures h < cap
  {
    key.raw % cap
  }

  // ----- contents

  ghost function One<K, V>(slot: Slot<K, V>): multiset<(K, V)> {
    if slot.Used? then multiset{(slot.key.value, slot.val)} else multiset{}
  }

  /** The pairs stored, as a bag. */
  ghost function Pairs<K, V>(s: Slots<K, V>): multiset<(K, V)> {
    if s == [] then multiset{} else Pairs(s[..|s| - 1]) + One(s[|s| - 1])
  }

  lemma {:induction false} PairsUpdate<K, V>(s: Slots<K, V>, i: nat, slot: Slot<K, V>)
    requires i < |s|
    ensures Pairs(s[i := slot]) + One(s[i]) == Pairs(s) + One(slot)
  {
    hide One;
    var n := |s| - 1;
    if i == n {
      assert s[i := slot][..n] == s[..n];
    } else {
      assert s[i := slot][..n] == s[..n][i := slot];
      PairsUpdate(s[..n], i, slot);
      AddBag(Pairs(s[..n][i := slot]), One(s[i]), Pairs(s[..n]), One(slot), One(s[n]));
    }
  }

  lemma AddBag<T>(x: multiset<T>, a: multiset<T>, y: multiset<T>, b: multiset<T>, c: multiset<T>)
    requires x + a == y + b
    ensures x + c + a == y + c + b
  {
    assert x + c + a == x + a + c && y + c + b == y + b + c;
  }

  lemma {:induction false} PairsMember<K, V>(s: Slots<K, V>, i: nat)
    requires i < |s| && s[i].Used?
    ensures (s[i].key.value, s[i].val) in Pairs(s)
  {
    if i < |s| - 1 {
      PairsMember(s[..|s| - 1], i);
    }
  }

  lemma {:induction false} MemberHasSlot<K, V>(s: Slots<K, V>, p: (K, V)) returns (i: nat)
    requires p in Pairs(s)
    ensures i < |s| && s[i].Used? && (s[i].key.value, s[i].val) == p
  {
    var n := |s| - 1;
    if s[n].Used? && (s[n].key.value, s[n].val) == p {
      i := n;
    } else {
      i := MemberHasSlot(s[..n], p);
    }
  }

  /** As many pairs as slots means that no slot is free. */
  lemma {:induction false} FullIff<K, V>(s: Slots<K, V>)
    ensures |Pairs(s)| <= |s|
    ensures |Pairs(s)| == |s| <==> !HasFree(s)
  {
    if s != [] {
      var n := |s| - 1;
      FullIff(s[..n]);
      if HasFree(s) && s[n].Used? {
        var i :| 0 <= i < |s| && s[i].Empty?;
        assert s[..n][i].Empty?;
      } else if HasFree(s[..n]) {
        var i :| 0 <= i < n && s[..n][i].Empty?;
        assert s[i].Empty?;
      }
    }
  }

  lemma {:induction false} PairsOfEmpty<K, V>(s: Slots<K, V>)
    requires forall i :: 0 <= i < |s| ==> s[i].Empty?
    ensures Pairs(s) == multiset{}
  {
    if s != [] {
      PairsOfEmpty(s[..|s| - 1]);
    }
  }

  predicate HasFree<K, V>(s: Slots<K, V>) {
    exists i :: 0 <= i < |s| && s[i].Empty?
  }

  // ----- invariants

  /** Every stored offset is the circular distance from the key's home slot; in particular it
      is below the capacity. */
  predicate Placed<K, V>(s: Slots<K, V>) {
    forall i | 0 <= i < |s| && s[i].Used? :: s[i].offset == Distance(Home(s[i].key, |s|), i, |s|)
  }

  /** The Robin Hood ordering at slot `i`. */
  predicate OrderedAt<K, V>(s: Slots<K, V>, i: nat)
    requires i < |s|
  {
    s[i].Used? && s[i].offset > 0 ==>
      s[Prev(i, |s|)].Used? && s[Prev(i, |s|)].offset >= s[i].offset - 1
  }

  /** A slot away from home has a used predecessor at least as far from its own home, less one. */
  predicate Ordered<K, V>(s: Slots<K, V>) {
    forall i | 0 <= i < |s| :: OrderedAt(s, i)
  }

  // ----- insertion, step by step

  /** The insertion loop between two iterations: position, distance and pair carried. */
  datatype Probe<K, V> =
    | Carrying(slots: Slots<K, V>, i: nat, psa: nat, key: Key<K>, val: V)
    | Inserted(slots: Slots<K, V>)
  {
    predicate InRange() {
      Carrying? ==> i < |slots|
    }
  }

  /** One iteration. */
  function Step<K, V>(p: Probe<K, V>): (r: Probe<K, V>)
    requires p.InRange()
    ensures r.InRange() && |r.slots| == |p.slots|
  {
    if p.Inserted? then p
    else match p.slots[p.i]
      case Empty =>
        Inserted(p.slots[p.i := Used(p.key, p.val, p.psa)])
      case Used(key, val, offset) =>
        if p.psa <= offset then p.(i := Next(p.i, |p.slots|), psa := p.psa + 1)
        else Carrying(p.slots[p.i := Used(p.key, p.val, p.psa)], Next(p.i, |p.slots|), offset + 1, key, val)
  }

  function Steps<K, V>(p: Probe<K, V>, n: nat): (r: Probe<K, V>)
    requires p.InRange()
    ensures r.InRange() && |r.slots| == |p.slots|
  {
    if n == 0 then p else Step(Steps(p, n - 1))
  }

  function Begin<K, V>(s: Slots<K, V>, key: Key<K>, val: V): (p: Probe<K, V>)
    requires |s| > 0
    ensures p.InRange()
  {
    Carrying(s, Home(key, |s|), 0, key, val)
  }

  /** Pairs in the slots together with the one carried. */
  ghost function AllPairs<K, V>(p: Probe<K, V>): multiset<(K, V)> {
    Pairs(p.slots) + if p.Carrying? then multiset{(p.key.value, p.val)} else multiset{}
  }

  /** What holds after `t` iterations of an insertion that began at slot `start`. */
  predicate ProbeInvariant<K, V>(p: Probe<K, V>, start: nat, t: nat) {
    && Placed(p.slots)
    && start < |p.slots|
    && (p.Carrying? ==>
          && p.i < |p.slots| && t < |p.slots|
          && Distance(start, p.i, |p.slots|) == t
          && p.psa <= t
          && p.psa == Distance(Home(p.key, |p.slots|), p.i, |p.slots|)
          && HasFree(p.slots)
          && (forall d | 0 <= d < t :: p.slots[At(start, d, |p.slots|)].Used?))
  }

  /** The ordering during an insertion. */
  predicate OrderInvariant<K, V>(p: Probe<K, V>) {
    && Ordered(p.slots)
    && (p.Carrying? && p.psa > 0 ==>
          && p.i < |p.slots|
          && p.slots[Prev(p.i, |p.slots|)].Used? && p.slots[Prev(p.i, |p.slots|)].offset >= p.psa - 1)
  }

  /** No pair is lost or added by an iteration. */
  lemma StepKeepsPairs<K, V>(p: Probe<K, V>)
    requires p.InRange()
    ensures AllPairs(Step(p)) == AllPairs(p)
  {
    if p.Carrying? {
      var carried := Used(p.key, p.val, p.psa);
      PairsUpdate(p.slots, p.i, carried);
      hide Pairs;
      assert One(carried) == multiset{(p.key.value, p.val)};
      match p.slots[p.i]
      case Empty =>
        assert One(p.slots[p.i]) == multiset{};
      case Used(key, val, offset) =>
        assert One(p.slots[p.i]) == multiset{(key.value, val)};
    }
  }

  lemma StepKeepsInvariant<K, V>(p: Probe<K, V>, start: nat, t: nat)
    requires ProbeInvariant(p, start, t) && p.Carrying?
    ensures ProbeInvariant(Step(p), start, t + 1)
    ensures t + 1 == |p.slots| ==> Step(p).Inserted?
  {
    var cap := |p.slots|;
    if p.slots[p.i].Used? {
      var f :| 0 <= f < cap && p.slots[f].Empty?;
      assert At(start, Distance(start, f, cap), cap) == f;
      assert At(start, t, cap) == p.i;
      assert Distance(start, f, cap) > t;
      assert Step(p).slots[f].Empty?;
    }
  }

  lemma StepKeepsOrder<K, V>(p: Probe<K, V>)
    requires p.InRange() && OrderInvariant(p)
    ensures OrderInvariant(Step(p))
  {
    if p.Carrying? {
      var s, s', cap := p.slots, Step(p).slots, |p.slots|;
      assert Prev(Next(p.i, cap), cap) == p.i;
      forall i | 0 <= i < cap
        ensures OrderedAt(s', i)
      {
        assert OrderedAt(s, i);
      }
    }
  }

  // ----- whole insertions

  lemma BeginHasInvariant<K, V>(s: Slots<K, V>, key: Key<K>, val: V)
    requires |s| > 0 && Placed(s) && HasFree(s)
    ensures ProbeInvariant(Begin(s, key, val), Home(key, |s|), 0)
    ensures Ordered(s) ==> OrderInvariant(Begin(s, key, val))
  {
  }

  /** The state after `n` iterations of an insertion into slots with a free slot. */
  lemma {:induction false} InsertionSteps<K, V>(s: Slots<K, V>, key: Key<K>, val: V, n: nat)
    requires |s| > 0 && Placed(s) && HasFree(s)
    ensures var p := Steps(Begin(s, key, val), n);
            && ProbeInvariant(p, Home(key, |s|), n)
            && AllPairs(p) == Pairs(s) + multiset{(key.value, val)}
            && (Ordered(s) ==> OrderInvariant(p))
            && (n >= |s| ==> p.Inserted?)
  {
    hide Pairs, Placed, Ordered;
    var start := Begin(s, key, val);
    BeginHasInvariant(s, key, val);
    if n > 0 {
      var p := Steps(start, n - 1);
      InsertionSteps(s, key, val, n - 1);
      StepKeepsPairs(p);
      if Ordered(s) {
        StepKeepsOrder(p);
      }
      if p.Carrying? {
        StepKeepsInvariant(p, Home(key, |s|), n - 1);
      }
    }
  }

  lemma CarryingMeansFewSteps<K, V>(s: Slots<K, V>, key: Key<K>, val: V, n: nat)
    requires |s| > 0 && Placed(s) && HasFree(s)
    requires Steps(Begin(s, key, val), n).Carrying?
    ensures n < |s|
  {
    InsertionSteps(s, key, val, n);
  }

  /** The slots after inserting a pair. */
  function Insert<K, V>(s: Slots<K, V>, key: Key<K>, val: V): (r: Slots<K, V>)
    requires |s| > 0
    ensures |r| == |s|
  {
    Steps(Begin(s, key, val), |s|).slots
  }

  /** Main result on the insertion: with a free slot, the loop ends within `capacity` iterations
      although it has no counter; it adds exactly the given pair, keeps every offset equal to
      the distance from home, and keeps the Robin Hood ordering. */
  lemma InsertIsCorrect<K, V>(s: Slots<K, V>, key: Key<K>, val: V)
    requires |s| > 0 && Placed(s) && HasFree(s)
    ensures Steps(Begin(s, key, val), |s|).Inserted?
    ensures var r := Insert(s, key, val);
            && Placed(r)
            && Pairs(r) == Pairs(s) + multiset{(key.value, val)}
            && (Ordered(s) ==> Ordered(r))
  {
    InsertionSteps(s, key, val, |s|);
  }

  /** Once inserted, further iterations change nothing. */
  lemma {:induction false} StepsAfterInserted<K, V>(p: Probe<K, V>, n: nat, m: nat)
    requires p.InRange() && n <= m && Steps(p, n).Inserted?
    ensures Steps(p, m) == Steps(p, n)
    decreases m
  {
    if n < m {
      StepsAfterInserted(p, n, m - 1);
    }
  }

  /** Without a free slot the loop never ends. */
  lemma {:induction false} FullTableNeverEnds<K, V>(s: Slots<K, V>, key: Key<K>, val: V, n: nat)
    requires |s| > 0 && !HasFree(s)
    ensures var p := Steps(Begin(s, key, val), n);
            p.Carrying? && !HasFree(p.slots)
  {
    if n > 0 {
      FullTableNeverEnds(s, key, val, n - 1);
    }
  }

  /** Main result on termination: the insertion ends if and only if a slot is free. */
  lemma InsertEndsIff<K, V>(s: Slots<K, V>, key: Key<K>, val: V)
    requires |s| > 0 && Placed(s)
    ensures (exists n: nat :: Steps(Begin(s, key, val), n).Inserted?) <==> HasFree(s)
  {
    if HasFree(s) {
      InsertIsCorrect(s, key, val);
    } else {
      forall n: nat
        ensures Steps(Begin(s, key, val), n).Carrying?
      {
        FullTableNeverEnds(s, key, val, n);
      }
    }
  }

  // ----- lookup

  predicate Matches<K(==), V>(slot: Slot<K, V>, key: Key<K>) {
    slot.Used? && slot.key.value == key.value
  }

  /** The lookup of the code: all slots in circular order from `i`, `d` of them done. */
  function FullScan<K(==), V>(s: Slots<K, V>, key: Key<K>, i: nat, d: nat): (r: Option<nat>)
    requires i < |s|
    ensures r.Some? ==> r.value < |s| && Matches(s[r.value], key)
    decreases |s| - d
  {
    if d >= |s| then None
    else if Matches(s[i], key) then Some(i)
    else FullScan(s, key, Next(i, |s|), d + 1)
  }

  /** A lookup that stops at a free slot, or at one whose entry is closer to its home than the
      key searched for would be. */
  function EarlyScan<K(==), V>(s: Slots<K, V>, key: Key<K>, i: nat, d: nat): (r: Option<nat>)
    requires i < |s|
    decreases |s| - d
  {
    if d >= |s| || s[i].Empty? || s[i].offset < d then None
    else if Matches(s[i], key) then Some(i)
    else EarlyScan(s, key, Next(i, |s|), d + 1)
  }

  /** Locates the key, as the code does. */
  function Locate<K(==), V>(s: Slots<K, V>, key: Key<K>): (r: Option<nat>)
    requires |s| > 0
    ensures r.Some? ==> r.value < |s| && Matches(s[r.value], key)
  {
    FullScan(s, key, Home(key, |s|), 0)
  }

  /** The full scan misses nothing. */
  lemma {:induction false} FullScanIsComplete<K, V>(s: Slots<K, V>, key: Key<K>, from: nat, i: nat, d: nat)
    requires from < |s| && i < |s| && d <= |s|
    requires d < |s| ==> i == At(from, d, |s|)
    requires FullScan(s, key, i, d).None?
    ensures forall j | 0 <= j < |s| && Distance(from, j, |s|) >= d :: !Matches(s[j], key)
    decreases |s| - d
  {
    if d < |s| {
      FullScanIsComplete(s, key, from, Next(i, |s|), d + 1);
      forall j | 0 <= j < |s| && Distance(from, j, |s|) >= d
        ensures !Matches(s[j], key)
      {
        if Distance(from, j, |s|) == d {
          assert j == i;
        }
      }
    }
  }

  /** In ordered slots every slot from the home of an entry up to the entry is used, with at
      least the distance gone so far. */
  lemma {:induction false} ChainToHome<K, V>(s: Slots<K, V>, i: nat, d: nat)
    requires Placed(s) && Ordered(s) && i < |s| && s[i].Used? && d <= s[i].offset < |s|
    ensures var j := At(Home(s[i].key, |s|), d, |s|);
            s[j].Used? && s[j].offset >= d
    decreases s[i].offset - d
  {
    var home := Home(s[i].key, |s|);
    if d == s[i].offset {
      assert At(home, d, |s|) == i;
    } else {
      ChainToHome(s, i, d + 1);
      var j := At(home, d + 1, |s|);
      assert OrderedAt(s, j);
      assert Prev(j, |s|) == At(home, d, |s|);
    }
  }

  /** Stored keys equal to `key` hash to the same home. */
  predicate SameHome<K(==), V>(s: Slots<K, V>, key: Key<K>) {
    forall i | 0 <= i < |s| && Matches(s[i], key) :: Home(s[i].key, |s|) == Home(key, |s|)
  }

  /** Main result on the ordering: if equal keys hash equally, stopping early finds exactly what
      the full scan finds. */
  lemma EarlyScanIsFullScan<K, V>(s: Slots<K, V>, key: Key<K>)
    requires |s| > 0 && Placed(s) && Ordered(s) && SameHome(s, key)
    ensures EarlyScan(s, key, Home(key, |s|), 0) == Locate(s, key)
  {
    ScansAgree(s, key, Home(key, |s|), 0);
  }

  lemma {:induction false} ScansAgree<K, V>(s: Slots<K, V>, key: Key<K>, i: nat, d: nat)
    requires i < |s| && d <= |s| && Placed(s) && Ordered(s) && SameHome(s, key)
    requires d < |s| ==> i == At(Home(key, |s|), d, |s|)
    ensures EarlyScan(s, key, i, d) == FullScan(s, key, i, d)
    decreases |s| - d
  {
    if d < |s| {
      if s[i].Empty? || s[i].offset < d {
        if FullScan(s, key, i, d).Some? {
          ScanGoesForward(s, key, i, d);
          ChainToHome(s, FullScan(s, key, i, d).value, d);
        }
      } else if !Matches(s[i], key) {
        ScansAgree(s, key, Next(i, |s|), d + 1);
      }
    }
  }

  /** What the scan finds after `d` slots is at least `d` away from home. */
  lemma {:induction false} ScanGoesForward<K, V>(s: Slots<K, V>, key: Key<K>, i: nat, d: nat)
    requires i < |s| && d < |s| && Placed(s) && SameHome(s, key)
    requires i == At(Home(key, |s|), d, |s|)
    requires FullScan(s, key, i, d).Some?
    ensures d <= s[FullScan(s, key, i, d).value].offset < |s|
    decreases |s| - d
  {
    if !Matches(s[i], key) {
      ScanGoesForward(s, key, Next(i, |s|), d + 1);
    }
  }

  /** Erasing breaks the ordering: with two keys of the same home, erasing the first hides the
      second from the early scan, but not from the full scan. */
  lemma EraseHidesFromEarlyScan(a: Key<nat>, b: Key<nat>)
    requires a.value != b.value && a.raw % 3 == b.raw % 3 == 0
    ensures var s: Slots<nat, nat> := [Used(a, 10, 0), Used(b, 20, 1), Empty];
            var erased := s[0 := Empty];
            && Placed(s) && Ordered(s) && Placed(erased) && !Ordered(erased)
            && Locate(erased, b) == Some(1)
            && EarlyScan(erased, b, Home(b, 3), 0) == None
  {
    var s: Slots<nat, nat> := [Used(a, 10, 0), Used(b, 20, 1), Empty];
    var erased := s[0 := Empty];
    assert OrderedAt(s, 0) && OrderedAt(s, 1) && OrderedAt(s, 2);
    assert !OrderedAt(erased, 1);
    assert FullScan(erased, b, 1, 1) == Some(1);
  }

  // ----- rebuilding

  /** Keys by value. */
  function Values<K, V>(pairs: seq<(Key<K>, V)>): (r: seq<(K, V)>)
    ensures |r| == |pairs| && forall i :: 0 <= i < |r| ==> r[i] == (pairs[i].0.value, pairs[i].1)
  {
    seq(|pairs|, i requires 0 <= i < |pairs| => (pairs[i].0.value, pairs[i].1))
  }

  /** The used pairs in array order. */
  function Listing<K, V>(s: Slots<K, V>): seq<(Key<K>, V)> {
    if s == [] then []
    else Listing(s[..|s| - 1]) + if s[|s| - 1].Used? then [(s[|s| - 1].key, s[|s| - 1].val)] else []
  }

  /** The listing is in array order: the pair of a used slot comes after those of the used slots
      before it. */
  lemma {:induction false} ListingInOrder<K, V>(s: Slots<K, V>, i: nat)
    requires i < |s| && s[i].Used?
    ensures |Listing(s[..i])| < |Listing(s)| && Listing(s)[|Listing(s[..i])|] == (s[i].key, s[i].val)
    ensures Listing(s[..i]) <= Listing(s)
  {
    var n := |s| - 1;
    if i < n {
      assert s[..n][..i] == s[..i];
      ListingInOrder(s[..n], i);
    }
  }

  lemma ValuesOfAppend<K, V>(pairs: seq<(Key<K>, V)>, key: Key<K>, val: V)
    ensures Values(pairs + [(key, val)]) == Values(pairs) + [(key.value, val)]
  {
  }

  lemma {:induction false} ListingIsPairs<K, V>(s: Slots<K, V>)
    ensures multiset(Values(Listing(s))) == Pairs(s)
  {
    if s != [] {
      var n := |s| - 1;
      ListingIsPairs(s[..n]);
      if s[n].Used? {
        ValuesOfAppend(Listing(s[..n]), s[n].key, s[n].val);
      } else {
        assert Listing(s) == Listing(s[..n]);
      }
    }
  }

  /** Inserts pairs one after the other into slots; `None` if one of the insertions never ends. */
  function InsertInTurn<K, V>(s: Slots<K, V>, pairs: seq<(Key<K>, V)>): (r: Option<Slots<K, V>>)
    requires |s| > 0
    ensures r.Some? ==> |r.value| == |s|
  {
    if pairs == [] then Some(s)
    else
      var before := InsertInTurn(s, pairs[..|pairs| - 1]);
      if before.None? || !HasFree(before.value) then None
      else
        var (key, val) := pairs[|pairs| - 1];
        Some(Insert(before.value, key, val))
  }

  lemma {:induction false} InsertInTurnIsCorrect<K, V>(cap: nat, pairs: seq<(Key<K>, V)>)
    requires cap > 0
    ensures InsertInTurn(seq(cap, _ => Empty), pairs).Some? <==> |pairs| <= cap
    ensures |pairs| <= cap ==>
      var r := InsertInTurn(seq(cap, _ => Empty), pairs).value;
      Placed(r) && Ordered(r) && Pairs(r) == multiset(Values(pairs))
  {
    var none: Slots<K, V> := seq(cap, _ => Empty);
    if pairs == [] {
      PairsOfEmpty(none);
    } else {
      hide Placed, Ordered, Pairs, HasFree, Insert, Values;
      var n := |pairs| - 1;
      InsertInTurnIsCorrect(cap, pairs[..n]);
      assert pairs == pairs[..n] + [pairs[n]];
      ValuesOfAppend(pairs[..n], pairs[n].0, pairs[n].1);
      if n <= cap {
        var before := InsertInTurn(none, pairs[..n]).value;
        FullIff(before);
        if n < cap {
          InsertIsCorrect(before, pairs[n].0, pairs[n].1);
        }
      }
    }
  }

  /** Main result on rebuilding: moving the pairs of a table into an empty array of `cap` slots
      ends if and only if there are at most `cap` of them. */
  lemma RebuildEndsIff<K, V>(s: Slots<K, V>, cap: nat)
    requires cap > 0
    ensures InsertInTurn(seq(cap, _ => Empty), Listing(s)).Some? <==> |Pairs(s)| <= cap
  {
    ListingIsPairs(s);
    assert |multiset(Values(Listing(s)))| == |Values(Listing(s))|;
    InsertInTurnIsCorrect(cap, Listing(s));
  }

  /** A table that cannot be cleared: moving two elements into a minimum capacity of one, the
      first insertion fills it, and the second never ends. */
  lemma ClearOfTwoNeverEnds(a: Key<nat>, b: Key<nat>, n: nat)
    ensures var s: Slots<nat, nat> := [Used(a, 10, 0), Used(b, 20, 0)]; InsertInTurn([Empty], Listing(s)).None?
    ensures Insert<nat, nat>([Empty], a, 10) == [Used(a, 10, 0)]
    ensures Steps(Begin([Used(a, 10, 0)], b, 20), n).Carrying?
  {
    var s: Slots<nat, nat> := [Used(a, 10, 0), Used(b, 20, 0)];
    TwoAreTooMany(s);
    FullTableNeverEnds([Used(a, 10, 0)], b, 20, n);
    hide Pairs, Listing, InsertInTurn;
    assert Steps(Begin<nat, nat>([Empty], a, 10), 0) == Carrying([Empty], 0, 0, a, 10);
  }

  lemma TwoAreTooMany<K, V>(s: Slots<K, V>)
    requires |s| == 2 && s[0].Used? && s[1].Used?
    ensures InsertInTurn([Empty], Listing(s)).None?
  {
    var one: Slots<K, V> := seq(1, _ => Empty);
    assert one == [Empty];
    hide Pairs, Listing, InsertInTurn;
    FullIff(s);
    RebuildEndsIff(s, 1);
  }
}
