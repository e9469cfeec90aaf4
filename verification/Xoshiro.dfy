/** The pseudo-random number generator: state update, and what it implies for whole runs. */
module Xoshiro {

  /** The 32-byte seed array as four 64-bit words. */
  datatype State = State(s0: bv64, s1: bv64, s2: bv64, s3: bv64)

  const ZERO := State(0, 0, 0, 0)

  // The word operations are named so that proofs can go by their laws.

  function Xor(x: bv64, y: bv64): bv64 {
    x ^ y
  }

  /** Sum modulo 2^64. */
  function Sum(x: bv64, y: bv64): bv64 {
    x + y
  }

  function Shift17(x: bv64): bv64 {
    x << 17
  }

  function RotateLeft45(x: bv64): bv64 {
    (x << 45) | (x >> 19)
  }

  function RotateRight45(x: bv64): bv64 {
    (x >> 45) | (x << 19)
  }

  /** Undoes `x ^ (x << 17)`: four shifted copies of `y`, of which a fifth would be empty. */
  function UnshiftXor17(y: bv64): bv64 {
    Xor(y, Shift17(Xor(y, Shift17(Xor(y, Shift17(y))))))
  }

  /** The state update. */
  function Step(s: State): State {
    var t := Shift17(s.s1);
    var s2 := Xor(s.s2, s.s0);
    var s3 := Xor(s.s3, s.s1);
    State(Xor(s.s0, s3), Xor(s.s1, s2), Xor(s2, t), RotateLeft45(s3))
  }

  /** The number a state yields. */
  function Output(s: State): bv64 {
    Sum(s.s0, s.s3)
  }

  /** Steps back. */
  function Unstep(s: State): State {
    var s3 := RotateRight45(s.s3);
    var s1 := UnshiftXor17(Xor(s.s1, s.s2));
    var s0 := Xor(s.s0, s3);
    var s2 := Xor(s.s1, s1);
    State(s0, s1, Xor(s2, s0), Xor(s3, s1))
  }

  /** The sum in 65 bits, cut off to 64. */
  lemma SumIsModular(x: bv64, y: bv64)
    ensures Sum(x, y) == x + y
    ensures Sum(x, y) as bv65 == ((x as bv65) + (y as bv65)) & 0xFFFF_FFFF_FFFF_FFFF
  {
  }

  lemma XorOfThree(x: bv64, y: bv64, z: bv64)
    ensures Xor(Xor(x, y), z) == x ^ y ^ z
  {
  }

  lemma XorAndShift(x: bv64, y: bv64, z: bv64)
    ensures Xor(Xor(x, y), Shift17(z)) == x ^ y ^ (z << 17)
  {
  }

  lemma XorAndRotate(x: bv64, y: bv64)
    ensures RotateLeft45(Xor(x, y)) == ((x ^ y) << 45) | ((x ^ y) >> 19)
  {
  }

  /** The new words and the number yielded, in closed form of the old words. */
  lemma StepInFull(s: State)
    ensures Output(s) == Sum(s.s0, s.s3)
    ensures Step(s) == State(Xor(Xor(s.s0, s.s3), s.s1), Xor(Xor(s.s1, s.s2), s.s0),
                             Xor(Xor(s.s2, s.s0), Shift17(s.s1)), RotateLeft45(Xor(s.s3, s.s1)))
  {
    hide Xor, Sum, Shift17, RotateLeft45;
    XorIsAssociative(s.s0, s.s3, s.s1);
    XorIsAssociative(s.s1, s.s2, s.s0);
  }

  /** The number a state yields, and the words after it, as bits: the sum of the outer words modulo
      2^64, and the mixture of the four words. */
  lemma StepInBits(a: bv64, b: bv64, c: bv64, d: bv64)
    ensures Output(State(a, b, c, d)) == a + d
    ensures Output(State(a, b, c, d)) as bv65 == ((a as bv65) + (d as bv65)) & 0xFFFF_FFFF_FFFF_FFFF
    ensures Step(State(a, b, c, d)).s0 == a ^ d ^ b && Step(State(a, b, c, d)).s1 == b ^ c ^ a
    ensures Step(State(a, b, c, d)).s2 == c ^ a ^ (b << 17)
    ensures Step(State(a, b, c, d)).s3 == ((d ^ b) << 45) | ((d ^ b) >> 19)
  {
    StepInFull(State(a, b, c, d));
    SumIsModular(a, d);
    XorOfThree(a, d, b);
    XorOfThree(b, c, a);
    XorAndShift(c, a, b);
    XorAndRotate(d, b);
    hide *;
  }

  lemma RotationsCancel(x: bv64)
    ensures RotateRight45(RotateLeft45(x)) == x
    ensures RotateLeft45(RotateRight45(x)) == x
  {
  }

  lemma XorLaws(x: bv64, y: bv64)
    ensures Xor(Xor(x, y), y) == x && Xor(Xor(x, y), x) == y && Xor(x, Xor(x, y)) == y
    ensures Xor(x, y) == Xor(y, x) && Xor(x, 0) == x
  {
  }

  lemma XorIsAssociative(x: bv64, y: bv64, z: bv64)
    ensures Xor(Xor(x, y), z) == Xor(x, Xor(y, z))
  {
  }

  lemma ShiftDistributes(x: bv64, y: bv64)
    ensures Shift17(Xor(x, y)) == Xor(Shift17(x), Shift17(y))
  {
  }

  lemma FourShiftsEmpty(x: bv64)
    ensures Shift17(Shift17(Shift17(Shift17(x)))) == 0
  {
  }

  /** With `f(y) = x0 ^ (y << 17)`, starting anywhere, four rounds of `f` give the solution. */
  lemma UnshiftSolves(y: bv64)
    ensures Xor(UnshiftXor17(y), Shift17(UnshiftXor17(y))) == y
  {
    hide Xor, Shift17;
    // The copies y, a, b, c and the empty fifth.
    var a := Shift17(y);
    var b := Shift17(a);
    var c := Shift17(b);
    FourShiftsEmpty(y);
    ShiftDistributes(y, a);
    ShiftDistributes(y, Xor(a, b));
    ShiftDistributes(a, b);
    ShiftDistributes(y, Xor(a, Xor(b, c)));
    ShiftDistributes(a, Xor(b, c));
    ShiftDistributes(b, c);
    XorLaws(c, 0);
    XorLaws(y, Xor(a, Xor(b, c)));
  }

  /** The equation `x ^ (x << 17) == y` has no second solution. */
  lemma ShiftXorCancels(x: bv64)
    ensures UnshiftXor17(Xor(x, Shift17(x))) == x
  {
    hide Xor, Shift17;
    var a := Shift17(x);
    var b := Shift17(a);
    var c := Shift17(b);
    FourShiftsEmpty(x);
    ShiftDistributes(x, a);
    ShiftDistributes(a, b);
    ShiftDistributes(b, c);
    UnshiftRound(x, a, b);
    UnshiftRound(x, a, c);
    UnshiftRound(x, a, 0);
    ShiftDistributes(x, b);
    ShiftDistributes(x, c);
    XorLaws(c, 0);
  }

  /** `(x ^ a) ^ (a ^ r) == x ^ r` */
  lemma UnshiftRound(x: bv64, a: bv64, r: bv64)
    ensures Xor(Xor(x, a), Xor(a, r)) == Xor(x, r)
    ensures Xor(x, 0) == x
  {
  }

  lemma UnstepOfStep(s: State)
    ensures Unstep(Step(s)) == s
  {
    hide Xor, Shift17, RotateLeft45, RotateRight45, UnshiftXor17;
    var s2, s3 := Xor(s.s2, s.s0), Xor(s.s3, s.s1);
    RotationsCancel(s3);
    UnshiftRound(s.s1, s2, Shift17(s.s1));
    ShiftXorCancels(s.s1);
    XorLaws(s.s0, s3);
    XorLaws(s.s1, s2);
    XorLaws(s.s2, s.s0);
    XorLaws(s.s3, s.s1);
  }

  lemma StepOfUnstep(s: State)
    ensures Step(Unstep(s)) == s
  {
    hide Xor, Shift17, RotateLeft45, RotateRight45, UnshiftXor17;
    var u := Unstep(s);
    var s3, s2 := RotateRight45(s.s3), Xor(s.s1, u.s1);
    RotationsCancel(s.s3);
    UnshiftSolves(Xor(s.s1, s.s2));
    XorLaws(s2, u.s0);
    XorLaws(s3, u.s1);
    XorLaws(s.s0, s3);
    XorLaws(s.s1, u.s1);
    XorLaws(u.s1, s.s1);
    XorLaws(u.s1, Shift17(u.s1));
    XorIsAssociative(s.s1, u.s1, Shift17(u.s1));
    XorLaws(s.s1, s.s2);
  }

  /** Main result: the update is a bijection on states; `Unstep` is its inverse. */
  lemma StepIsBijective(s: State)
    ensures Unstep(Step(s)) == s
    ensures Step(Unstep(s)) == s
  {
    UnstepOfStep(s);
    StepOfUnstep(s);
  }

  /** State after `n` numbers were drawn. */
  function After(s: State, n: nat): State {
    if n == 0 then s else Step(After(s, n - 1))
  }

  /** Numbers drawn one after the other. */
  function Outputs(s: State, n: nat): seq<bv64> {
    if n == 0 then [] else Outputs(s, n - 1) + [Output(After(s, n - 1))]
  }

  lemma StepOfZero()
    ensures Step(ZERO) == ZERO
  {
  }

  /** Main result: a run never reaches the all-zero state, in which it would stay for ever,
      exactly if it does not start there. */
  lemma {:induction false} NeverZeroIff(s: State, n: nat)
    ensures After(s, n) == ZERO <==> s == ZERO
  {
    if n > 0 {
      NeverZeroIff(s, n - 1);
      StepOfZero();
      StepIsBijective(After(s, n - 1));
      StepIsBijective(ZERO);
    }
  }

  /** Different states stay different. */
  lemma {:induction false} RunsNeverMerge(s: State, t: State, n: nat)
    requires s != t
    ensures After(s, n) != After(t, n)
  {
    if n > 0 {
      RunsNeverMerge(s, t, n - 1);
      StepIsBijective(After(s, n - 1));
      StepIsBijective(After(t, n - 1));
    }
  }

  lemma {:induction false} AfterAdds(s: State, m: nat, n: nat)
    ensures After(s, m + n) == After(After(s, m), n)
  {
    if n > 0 {
      AfterAdds(s, m, n - 1);
    }
  }

  /** Main result: if a run ever repeats a state, the first state to come back is the one it
      started from, so a run is a pure cycle. */
  lemma {:induction false} FirstRepeatIsStart(s: State, m: nat, n: nat)
    requires After(s, m) == After(s, m + n)
    ensures After(s, n) == s
  {
    if m > 0 {
      StepIsBijective(After(s, m - 1));
      StepIsBijective(After(s, m + n - 1));
      FirstRepeatIsStart(s, m - 1, n);
    }
  }

  class Generator {
    var s0: bv64
    var s1: bv64
    var s2: bv64
    var s3: bv64

    function Current(): State
      reads this
    {
      State(s0, s1, s2, s3)
    }

    constructor (seed: State)
      ensures Current() == seed
    {
      s0, s1, s2, s3 := seed.s0, seed.s1, seed.s2, seed.s3;
    }

    /** The next number; the words are updated in place, each from its updated neighbours. The
        words as bits are in `StepInBits`. */
    method Next() returns (dst: bv64)
      modifies this
      ensures dst == Sum(old(s0), old(s3))
      ensures s0 == Xor(Xor(old(s0), old(s3)), old(s1)) && s1 == Xor(Xor(old(s1), old(s2)), old(s0))
      ensures s2 == Xor(Xor(old(s2), old(s0)), Shift17(old(s1))) && s3 == RotateLeft45(Xor(old(s3), old(s1)))
      ensures dst == old(Output(Current())) && Current() == old(Step(Current()))
    {
      hide Xor, Sum, Shift17, RotateLeft45;
      StepInFull(Current());
      dst := Sum(s0, s3);
      var t := Shift17(s1);
      s2 := Xor(s2, s0);
      s3 := Xor(s3, s1);
      s1 := Xor(s1, s2);
      s0 := Xor(s0, s3);
      s2 := Xor(s2, t);
      s3 := RotateLeft45(s3);
    }

    /** Draws `n` numbers. */
    method Draw(n: nat) returns (numbers: seq<bv64>)
      modifies this
      ensures numbers == Outputs(old(Current()), n) && Current() == After(old(Current()), n)
      ensures old(Current()) != ZERO ==> Current() != ZERO
    {
      numbers := [];
      for i := 0 to n
        invariant numbers == Outputs(old(Current()), i) && Current() == After(old(Current()), i)
      {
        var x := Next();
        numbers := numbers + [x];
      }
      NeverZeroIff(old(Current()), n);
    }
  }
}
