/** The known-bits transfer functions of the Z3 harness and the theorems its
    checks ask the solver for, at `WIDTH = 8`. An abstract operand is an
    `AbsValue(zeros, ones)`; a transfer function maps abstract operands to an
    abstract result, and its concrete counterpart maps instances to a value. */
module Checks {
  import opened Oracle
  import PyInt

  // ---------------------------------------------------------------------------
  // Concrete operations

  function OR(x: bv8, y: bv8): bv8 { x | y }

  function AND(x: bv8, y: bv8): bv8 { x & y }

  function XOR(x: bv8, y: bv8): bv8 { x ^ y }

  function ADD(x: bv8, y: bv8): bv8 { x + y }

  function SUB(x: bv8, y: bv8): bv8 { x - y }

  /** `1 << n` on an 8-bit Z3 value: a shift by 8 or more gives 0. */
  function Shl1(n: bv8): (r: bv8)
    ensures n < 8 ==> r as int == PyInt.Pow2(n as int)
    ensures n < 8 ==> r != 0 && r & (r - 1) == 0
    ensures n >= 8 ==> r == 0
  {
    if n < 8 then Shl1Value(n); (1 as bv8) << n else 0
  }

  /** `1 << n` on eight bits is `2^n` below the width. */
  lemma Shl1Value(n: bv8)
    requires n < 8
    ensures ((1 as bv8) << n) as int == PyInt.Pow2(n as int)
  {
    assert PyInt.Pow2(7) == 128;
    if n == 0 {} else if n == 1 {} else if n == 2 {} else if n == 3 {}
    else if n == 4 {} else if n == 5 {} else if n == 6 {} else {}
  }

  /** `TRUNC`: `x & ((1 << n) - 1)`. */
  function TRUNC(x: bv8, n: bv8): bv8 {
    x & (Shl1(n) - 1)
  }

  // ---------------------------------------------------------------------------
  // Transfer functions

  /** `orImpl`: a bit is known zero when zero in both, known one when one in either. */
  function OrImpl(a: AbsValue, b: AbsValue): AbsValue {
    AbsValue(a.zeros & b.zeros, a.ones | b.ones)
  }

  /** `AndImpl` as written: `(op0.zeros | op0.zeros, op1.ones & op1.ones)`. */
  function AndImpl(a: AbsValue, b: AbsValue): AbsValue {
    AbsValue(a.zeros | a.zeros, b.ones & b.ones)
  }

  /** The AND rule `AndImpl` is evidently meant to be: zero when zero in
      either, one when one in both. */
  function AndImplCorrected(a: AbsValue, b: AbsValue): AbsValue {
    AbsValue(a.zeros | b.zeros, a.ones & b.ones)
  }

  /** `XorImpl`: known when known in both; zero when equal, one when different. */
  function XorImpl(a: AbsValue, b: AbsValue): AbsValue {
    AbsValue((a.zeros & b.zeros) | (a.ones & b.ones), (a.zeros & b.ones) | (a.ones & b.zeros))
  }

  /** The masks `TruncImpl` returns: both masks truncated to `n` bits. */
  function TruncImpl(a: AbsValue, n: bv8): AbsValue {
    AbsValue(TRUNC(a.zeros, n), TRUNC(a.ones, n))
  }

  /** The constraint `TruncImpl` adds: `n < (1 << WIDTH)`. The Python int 256
      becomes the 8-bit Z3 value 0, and the comparison is signed. */
  predicate TruncImplConstraint(n: bv8) {
    SignedLess(n, 0)
  }

  /** `AddImpl`: LLVM's carry-propagation rule with no carry in. The largest
      and smallest possible sums fix the carries where both agree. */
  function AddImpl(a: AbsValue, b: AbsValue): AbsValue {
    var possibleSumZero := GetMax(a) + GetMax(b);
    var possibleSumOne := GetMin(a) + GetMin(b);
    var carryKnownZero := !(possibleSumZero ^ a.zeros ^ b.zeros);
    var carryKnownOne := possibleSumOne ^ a.ones ^ b.ones;
    var lhsKnownUnion := a.zeros | a.ones;
    var rhsKnownUnion := b.zeros | b.ones;
    var known := (carryKnownZero | carryKnownOne) & lhsKnownUnion & rhsKnownUnion;
    AbsValue(!possibleSumZero & known, possibleSumOne & known)
  }

  /** The carry-propagation rule with a carry in of `carry` (LLVM's
      `computeForAddCarry`), which `SubImpl` computes with a carry of 1. */
  function AddCarry(a: AbsValue, b: AbsValue, carry: bv8): AbsValue {
    var possibleSumZero := GetMax(a) + GetMax(b) + carry;
    var possibleSumOne := GetMin(a) + GetMin(b) + carry;
    var carryKnownZero := !(possibleSumZero ^ a.zeros ^ b.zeros);
    var carryKnownOne := possibleSumOne ^ a.ones ^ b.ones;
    var lhsKnownUnion := a.zeros | a.ones;
    var rhsKnownUnion := b.zeros | b.ones;
    var known := (carryKnownZero | carryKnownOne) & lhsKnownUnion & rhsKnownUnion;
    AbsValue(!possibleSumZero & known, possibleSumOne & known)
  }

  /** `AddImpl` is the carry rule with no carry in: the ADD and SUB rules are
      one rule. */
  lemma AddImplIsAddCarry(a: AbsValue, b: AbsValue)
    ensures AddImpl(a, b) == AddCarry(a, b, 0)
  {
  }

  /** The masks of `~y` for an instance `y`: `(ones, zeros)`. */
  function Swap(b: AbsValue): AbsValue {
    AbsValue(b.ones, b.zeros)
  }

  /** What `SubImpl` returns: the carry rule on `a` and the subtrahend with its
      masks swapped, with a carry in of 1. */
  function SubTransfer(a: AbsValue, b: AbsValue): AbsValue {
    AddCarry(a, Swap(b), 1)
  }

  /** `SubImpl(opList)`: swaps the masks of `opList[1]` in place, computes the
      rule, and swaps them back, so the operand list is unchanged on return. */
  method SubImpl(opList: array<AbsValue>) returns (r: AbsValue)
    requires opList.Length >= 2
    modifies opList
    ensures r == SubTransfer(old(opList[0]), old(opList[1]))
    ensures opList[..] == old(opList[..])
  {
    opList[1] := Swap(opList[1]);
    r := AddCarry(opList[0], opList[1], 1);
    opList[1] := Swap(opList[1]);
  }

  // ---------------------------------------------------------------------------
  // What the checks ask the solver

  /** The result of `impl` on valid operands is valid (`zeros & ones == 0`). */
  ghost predicate ValidPreserving(impl: (AbsValue, AbsValue) -> AbsValue) {
    forall a, b :: IsValid(a) && IsValid(b) ==> IsValid(impl(a, b))
  }

  /** `soundnessCheck(op, impl)` succeeds: for valid operands and any of their
      instances, the concrete result is an instance of the abstract result. */
  ghost predicate SoundBinary(op: (bv8, bv8) -> bv8, impl: (AbsValue, AbsValue) -> AbsValue) {
    forall a, b, x, y :: IsValid(a) && IsValid(b) && IsInstance(x, a) && IsInstance(y, b) ==>
      IsInstance(op(x, y), impl(a, b))
  }

  /** `precisionCheck(op, impl)` succeeds: every instance of the abstract result
      is the concrete result of some instances of the operands. */
  ghost predicate PreciseBinary(op: (bv8, bv8) -> bv8, impl: (AbsValue, AbsValue) -> AbsValue) {
    forall a, b, g :: IsValid(a) && IsValid(b) && IsInstance(g, impl(a, b)) ==>
      exists x, y :: IsInstance(x, a) && IsInstance(y, b) && op(x, y) == g
  }

  // ---------------------------------------------------------------------------
  // OR

  lemma OrImplValid(a: AbsValue, b: AbsValue)
    requires IsValid(a) && IsValid(b)
    ensures IsValid(OrImpl(a, b))
  {
  }

  lemma OrImplSound(a: AbsValue, b: AbsValue, x: bv8, y: bv8)
    requires IsValid(a) && IsValid(b) && IsInstance(x, a) && IsInstance(y, b)
    ensures IsInstance(OR(x, y), OrImpl(a, b))
  {
  }

  lemma OrWitnessLeft(a: AbsValue, b: AbsValue, g: bv8)
    requires IsValid(a) && IsValid(b) && IsInstance(g, OrImpl(a, b))
    ensures IsInstance(g & !a.zeros, a)
  {
  }

  lemma OrWitnessRight(a: AbsValue, b: AbsValue, g: bv8)
    requires IsValid(a) && IsValid(b) && IsInstance(g, OrImpl(a, b))
    ensures IsInstance(g & !b.zeros, b)
  {
  }

  lemma OrWitnessResult(a: AbsValue, b: AbsValue, g: bv8)
    requires IsInstance(g, OrImpl(a, b))
    ensures OR(g & !a.zeros, g & !b.zeros) == g
  {
  }

  /** Every instance `g` of the result is `x | y` for `x = g & ~zeros0` and
      `y = g & ~zeros1`. */
  lemma OrImplPreciseAt(a: AbsValue, b: AbsValue, g: bv8)
    requires IsValid(a) && IsValid(b) && IsInstance(g, OrImpl(a, b))
    ensures exists x, y :: IsInstance(x, a) && IsInstance(y, b) && OR(x, y) == g
  {
    OrWitnessLeft(a, b, g);
    OrWitnessRight(a, b, g);
    OrWitnessResult(a, b, g);
    var x, y := g & !a.zeros, g & !b.zeros;
    assert IsInstance(x, a) && IsInstance(y, b) && OR(x, y) == g;
  }

  lemma OrImplChecks()
    ensures ValidPreserving(OrImpl)
    ensures SoundBinary(OR, OrImpl)
    ensures PreciseBinary(OR, OrImpl)
  {
    forall a, b, x, y | IsValid(a) && IsValid(b) && IsInstance(x, a) && IsInstance(y, b)
      ensures IsInstance(OR(x, y), OrImpl(a, b))
    {
      OrImplSound(a, b, x, y);
    }
    forall a, b | IsValid(a) && IsValid(b)
      ensures IsValid(OrImpl(a, b))
    {
      OrImplValid(a, b);
    }
    forall a, b, g | IsValid(a) && IsValid(b) && IsInstance(g, OrImpl(a, b))
      ensures exists x, y :: IsInstance(x, a) && IsInstance(y, b) && OR(x, y) == g
    {
      OrImplPreciseAt(a, b, g);
    }
  }

  // ---------------------------------------------------------------------------
  // XOR

  lemma XorImplValid(a: AbsValue, b: AbsValue)
    requires IsValid(a) && IsValid(b)
    ensures IsValid(XorImpl(a, b))
  {
  }

  lemma XorImplSound(a: AbsValue, b: AbsValue, x: bv8, y: bv8)
    requires IsValid(a) && IsValid(b) && IsInstance(x, a) && IsInstance(y, b)
    ensures IsInstance(XOR(x, y), XorImpl(a, b))
  {
  }

  /** The right witness of XOR's precision: `b`'s known ones, and where only
      `a` is known, the bit that makes `g ^ y` agree with `a`. */
  function XorWitness(a: AbsValue, b: AbsValue, g: bv8): bv8 {
    b.ones | ((g ^ a.ones) & !(b.zeros | b.ones) & (a.zeros | a.ones))
  }

  lemma XorWitnessLeft(a: AbsValue, b: AbsValue, g: bv8)
    requires IsValid(a) && IsValid(b) && IsInstance(g, XorImpl(a, b))
    ensures IsInstance(g ^ XorWitness(a, b, g), a)
  {
  }

  lemma XorWitnessRight(a: AbsValue, b: AbsValue, g: bv8)
    requires IsValid(b)
    ensures IsInstance(XorWitness(a, b, g), b)
  {
  }

  lemma XorWitnessResult(a: AbsValue, b: AbsValue, g: bv8)
    ensures XOR(g ^ XorWitness(a, b, g), XorWitness(a, b, g)) == g
  {
  }

  lemma XorImplPreciseAt(a: AbsValue, b: AbsValue, g: bv8)
    requires IsValid(a) && IsValid(b) && IsInstance(g, XorImpl(a, b))
    ensures exists x, y :: IsInstance(x, a) && IsInstance(y, b) && XOR(x, y) == g
  {
    XorWitnessLeft(a, b, g);
    XorWitnessRight(a, b, g);
    XorWitnessResult(a, b, g);
    var y := XorWitness(a, b, g);
    var x := g ^ y;
    assert IsInstance(x, a) && IsInstance(y, b) && XOR(x, y) == g;
  }

  lemma XorImplChecks()
    ensures ValidPreserving(XorImpl)
    ensures SoundBinary(XOR, XorImpl)
    ensures PreciseBinary(XOR, XorImpl)
  {
    forall a, b, x, y | IsValid(a) && IsValid(b) && IsInstance(x, a) && IsInstance(y, b)
      ensures IsInstance(XOR(x, y), XorImpl(a, b))
    {
      XorImplSound(a, b, x, y);
    }
    forall a, b | IsValid(a) && IsValid(b)
      ensures IsValid(XorImpl(a, b))
    {
      XorImplValid(a, b);
    }
    forall a, b, g | IsValid(a) && IsValid(b) && IsInstance(g, XorImpl(a, b))
      ensures exists x, y :: IsInstance(x, a) && IsInstance(y, b) && XOR(x, y) == g
    {
      XorImplPreciseAt(a, b, g);
    }
  }

  // ---------------------------------------------------------------------------
  // AND

  /** `AndImpl` as written fails the checks: with operands `(0, 0)` and
      `(0, 0xFF)` and instances `0` and `0xFF`, `0 & 0xFF == 0` while the result
      claims every bit is one; with `(0xFF, 0)` and `(0, 0xFF)` the result is
      `(0xFF, 0xFF)`, every bit claimed both ways. */
  lemma AndImplUnsound()
    ensures !SoundBinary(AND, AndImpl)
    ensures !ValidPreserving(AndImpl)
  {
    var a, b := AbsValue(0, 0), AbsValue(0, 0xFF);
    assert IsValid(a) && IsValid(b) && IsInstance(0, a) && IsInstance(0xFF, b);
    assert !IsInstance(AND(0, 0xFF), AndImpl(a, b));
    var c := AbsValue(0xFF, 0);
    assert IsValid(c) && !IsValid(AndImpl(c, b));
  }

  lemma AndImplCorrectedValid(a: AbsValue, b: AbsValue)
    requires IsValid(a) && IsValid(b)
    ensures IsValid(AndImplCorrected(a, b))
  {
  }

  lemma AndImplCorrectedSound(a: AbsValue, b: AbsValue, x: bv8, y: bv8)
    requires IsValid(a) && IsValid(b) && IsInstance(x, a) && IsInstance(y, b)
    ensures IsInstance(AND(x, y), AndImplCorrected(a, b))
  {
  }

  lemma AndWitnessLeft(a: AbsValue, b: AbsValue, g: bv8)
    requires IsValid(a) && IsInstance(g, AndImplCorrected(a, b))
    ensures IsInstance(g | a.ones, a)
  {
  }

  lemma AndWitnessRight(a: AbsValue, b: AbsValue, g: bv8)
    requires IsValid(b) && IsInstance(g, AndImplCorrected(a, b))
    ensures IsInstance(g | b.ones, b)
  {
  }

  lemma AndWitnessResult(a: AbsValue, b: AbsValue, g: bv8)
    requires IsInstance(g, AndImplCorrected(a, b))
    ensures AND(g | a.ones, g | b.ones) == g
  {
  }

  /** Every instance `g` of the corrected result is `x & y` for `x = g | ones0`
      and `y = g | ones1`. */
  lemma AndImplCorrectedPreciseAt(a: AbsValue, b: AbsValue, g: bv8)
    requires IsValid(a) && IsValid(b) && IsInstance(g, AndImplCorrected(a, b))
    ensures exists x, y :: IsInstance(x, a) && IsInstance(y, b) && AND(x, y) == g
  {
    AndWitnessLeft(a, b, g);
    AndWitnessRight(a, b, g);
    AndWitnessResult(a, b, g);
    var x, y := g | a.ones, g | b.ones;
    assert IsInstance(x, a) && IsInstance(y, b) && AND(x, y) == g;
  }

  lemma AndImplCorrectedChecks()
    ensures ValidPreserving(AndImplCorrected)
    ensures SoundBinary(AND, AndImplCorrected)
    ensures PreciseBinary(AND, AndImplCorrected)
  {
    forall a, b, x, y | IsValid(a) && IsValid(b) && IsInstance(x, a) && IsInstance(y, b)
      ensures IsInstance(AND(x, y), AndImplCorrected(a, b))
    {
      AndImplCorrectedSound(a, b, x, y);
    }
    forall a, b | IsValid(a) && IsValid(b)
      ensures IsValid(AndImplCorrected(a, b))
    {
      AndImplCorrectedValid(a, b);
    }
    forall a, b, g | IsValid(a) && IsValid(b) && IsInstance(g, AndImplCorrected(a, b))
      ensures exists x, y :: IsInstance(x, a) && IsInstance(y, b) && AND(x, y) == g
    {
      AndImplCorrectedPreciseAt(a, b, g);
    }
  }

  // ---------------------------------------------------------------------------
  // ADD and SUB

  lemma AddImplValid(a: AbsValue, b: AbsValue)
    requires IsValid(a) && IsValid(b)
    ensures IsValid(AddImpl(a, b))
  {
  }

  lemma AddImplOnesSound(a: AbsValue, b: AbsValue, x: bv8, y: bv8)
    requires IsValid(a) && IsValid(b) && IsInstance(x, a) && IsInstance(y, b)
    ensures Contains(ADD(x, y), AddImpl(a, b).ones)
  {
  }

  lemma AddImplZerosSound(a: AbsValue, b: AbsValue, x: bv8, y: bv8)
    requires IsValid(a) && IsValid(b) && IsInstance(x, a) && IsInstance(y, b)
    ensures Contains(!ADD(x, y), AddImpl(a, b).zeros)
  {
  }

  lemma AddImplSound(a: AbsValue, b: AbsValue, x: bv8, y: bv8)
    requires IsValid(a) && IsValid(b) && IsInstance(x, a) && IsInstance(y, b)
    ensures IsInstance(ADD(x, y), AddImpl(a, b))
  {
    AddImplOnesSound(a, b, x, y);
    AddImplZerosSound(a, b, x, y);
  }

  /** Fully known operands give the fully known wrapped sum. */
  lemma AddImplFullyKnownOnes(a: AbsValue, b: AbsValue)
    requires a.zeros == !a.ones && b.zeros == !b.ones
    ensures AddImpl(a, b).ones == ADD(a.ones, b.ones)
  {
  }

  lemma AddImplFullyKnownZeros(a: AbsValue, b: AbsValue)
    requires a.zeros == !a.ones && b.zeros == !b.ones
    ensures AddImpl(a, b).zeros == !ADD(a.ones, b.ones)
  {
  }

  lemma AddImplFullyKnown(a: AbsValue, b: AbsValue)
    requires a.zeros == !a.ones && b.zeros == !b.ones
    ensures AddImpl(a, b) == AbsValue(!ADD(a.ones, b.ones), ADD(a.ones, b.ones))
  {
    AddImplFullyKnownOnes(a, b);
    AddImplFullyKnownZeros(a, b);
  }

  lemma AddImplChecks()
    ensures ValidPreserving(AddImpl)
    ensures SoundBinary(ADD, AddImpl)
  {
    forall a, b, x, y | IsValid(a) && IsValid(b) && IsInstance(x, a) && IsInstance(y, b)
      ensures IsInstance(ADD(x, y), AddImpl(a, b))
    {
      AddImplSound(a, b, x, y);
    }
    forall a, b | IsValid(a) && IsValid(b)
      ensures IsValid(AddImpl(a, b))
    {
      AddImplValid(a, b);
    }
  }

  /** `AddImpl` is not precise: with two operands that are each 0 or 1, the
      result admits 3, which is no sum of instances. */
  lemma AddImplImprecise()
    ensures var a := AbsValue(0xFE, 0);
            && IsValid(a) && IsInstance(3, AddImpl(a, a))
            && forall x, y :: IsInstance(x, a) && IsInstance(y, a) ==> ADD(x, y) != 3
  {
  }

  lemma SubTransferValid(a: AbsValue, b: AbsValue)
    requires IsValid(a) && IsValid(b)
    ensures IsValid(SubTransfer(a, b))
  {
  }

  lemma SubTransferOnesSound(a: AbsValue, b: AbsValue, x: bv8, y: bv8)
    requires IsValid(a) && IsValid(b) && IsInstance(x, a) && IsInstance(y, b)
    ensures Contains(x - y, SubTransfer(a, b).ones)
  {
  }

  lemma SubTransferZerosSound(a: AbsValue, b: AbsValue, x: bv8, y: bv8)
    requires IsValid(a) && IsValid(b) && IsInstance(x, a) && IsInstance(y, b)
    ensures Contains(!(x - y), SubTransfer(a, b).zeros)
  {
  }

  lemma SubTransferSound(a: AbsValue, b: AbsValue, x: bv8, y: bv8)
    requires IsValid(a) && IsValid(b) && IsInstance(x, a) && IsInstance(y, b)
    ensures IsInstance(SUB(x, y), SubTransfer(a, b))
  {
    SubTransferOnesSound(a, b, x, y);
    SubTransferZerosSound(a, b, x, y);
  }

  /** Fully known operands give the fully known wrapped difference. */
  lemma SubTransferFullyKnownOnes(a: AbsValue, b: AbsValue)
    requires a.zeros == !a.ones && b.zeros == !b.ones
    ensures SubTransfer(a, b).ones == SUB(a.ones, b.ones)
  {
  }

  lemma SubTransferFullyKnownZeros(a: AbsValue, b: AbsValue)
    requires a.zeros == !a.ones && b.zeros == !b.ones
    ensures SubTransfer(a, b).zeros == !SUB(a.ones, b.ones)
  {
  }

  lemma SubTransferFullyKnown(a: AbsValue, b: AbsValue)
    requires a.zeros == !a.ones && b.zeros == !b.ones
    ensures SubTransfer(a, b) == AbsValue(!SUB(a.ones, b.ones), SUB(a.ones, b.ones))
  {
    SubTransferFullyKnownOnes(a, b);
    SubTransferFullyKnownZeros(a, b);
  }

  lemma SubTransferChecks()
    ensures ValidPreserving(SubTransfer)
    ensures SoundBinary(SUB, SubTransfer)
  {
    forall a, b, x, y | IsValid(a) && IsValid(b) && IsInstance(x, a) && IsInstance(y, b)
      ensures IsInstance(SUB(x, y), SubTransfer(a, b))
    {
      SubTransferSound(a, b, x, y);
    }
    forall a, b | IsValid(a) && IsValid(b)
      ensures IsValid(SubTransfer(a, b))
    {
      SubTransferValid(a, b);
    }
  }

  // ---------------------------------------------------------------------------
  // TRUNC

  /** `TRUNC(x, n)` keeps the low `n` bits: below `2^n`, and truncating twice is
      truncating once; with `n >= 8` it is the identity. */
  lemma TruncBits(x: bv8, n: bv8)
    ensures n < 8 ==> TRUNC(x, n) < Shl1(n)
    ensures n >= 8 ==> TRUNC(x, n) == x
    ensures TRUNC(TRUNC(x, n), n) == TRUNC(x, n)
    ensures Contains(x, TRUNC(x, n))
  {
  }

  /** `TruncImpl` is sound for every new width. */
  lemma TruncImplSound(a: AbsValue, n: bv8, x: bv8)
    requires IsValid(a) && IsInstance(x, a)
    ensures IsValid(TruncImpl(a, n))
    ensures IsInstance(TRUNC(x, n), TruncImpl(a, n))
  {
  }

  /** Together, the oracle's constraint on the new width and the one
      `TruncImpl` adds leave only widths 128..255, where `TRUNC` is the
      identity: the TRUNC checks never see a real truncation. */
  lemma TruncCheckAdmitsOnlyIdentity(a: AbsValue, n: bv8)
    ensures Admissible("TRUNC", [Abstract(a), Width(n)]) && TruncImplConstraint(n) <==>
      IsValid(a) && n >= 128
    ensures TruncImplConstraint(n) ==> forall x :: TRUNC(x, n) == x
  {
  }

  /** The widths the TRUNC check evidently means: `0 <= n < WIDTH`, unsigned. */
  predicate TruncWidthIntended(n: bv8) {
    n < WIDTH
  }

  /** On the intended widths, TRUNC really truncates, and `TruncImpl` is sound
      and keeps no known bit at or above `n`. */
  lemma TruncImplSoundIntended(a: AbsValue, n: bv8, x: bv8)
    requires TruncWidthIntended(n)
    requires IsValid(a) && IsInstance(x, a)
    ensures IsInstance(TRUNC(x, n), TruncImpl(a, n))
    ensures TruncImpl(a, n).zeros < Shl1(n) && TruncImpl(a, n).ones < Shl1(n)
    ensures TRUNC(0xFF, n) == Shl1(n) - 1
  {
    TruncBits(a.zeros, n);
    TruncBits(a.ones, n);
  }
}
