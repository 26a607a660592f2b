/** The arithmetic of the IR known-bits analysis: each rule reads its operands'
    `knownBits` strings, computes the result masks on Python integers and
    writes the result as a string of `width` characters. The `Addi` rule is the
    carry rule of the 8-bit harness on unbounded integers with an explicit
    `allOnes` mask; `AndI`, `OrI` and `XOrI` call the harness's transfer
    functions on the operands' integer masks. */
module KnownBitsAnalysis {
  import opened PyInt
  import opened Outcomes
  import opened KnownBitsDomain
  import opened Bv8Bridge
  import Oracle
  import Checks

  /** Every character is 'X': nothing known. */
  predicate AllUnknown(s: string) {
    forall i :: 0 <= i < |s| ==> s[i] == 'X'
  }

  /** Every character is '0' or '1': fully known. */
  predicate AllKnown(s: string) {
    forall i :: 0 <= i < |s| ==> s[i] == '0' || s[i] == '1'
  }

  /** `getBitsAnalysis(op, width)`: the operand's `knownBits` attribute if it
      has one (`attr`), otherwise `'X' * width`. */
  function GetBitsAnalysis(attr: Option<string>, width: nat): (r: string)
    ensures attr.Some? ==> r == attr.value
    ensures attr.None? ==> |r| == width && AllUnknown(r)
  {
    if attr.Some? then attr.value else seq(width, _ => 'X')
  }

  /** An operand with no attribute reads as `width` bits, none of them known. */
  lemma UnknownOperand(width: nat)
    ensures Parse(GetBitsAnalysis(None, width)) == KnownBits(width, 0, 0)
  {
    MaskOfAbsent(GetBitsAnalysis(None, width), '0');
    MaskOfAbsent(GetBitsAnalysis(None, width), '1');
  }

  // ---------------------------------------------------------------------------
  // Addi

  /** The bits of the sum the `Addi` rule knows: known in both operands and
      with a known carry in, read off the two extreme sums. */
  function AddiKnown(l: KnownBits, r: KnownBits, possibleSumZero: int, possibleSumOne: int): int {
    var carryKnownZero := Not(Xor(Xor(possibleSumZero, l.knownZeros), r.knownZeros));
    var carryKnownOne := Xor(Xor(possibleSumOne, l.knownOnes), r.knownOnes);
    var lhsKnownUnion := Or(l.knownZeros, l.knownOnes);
    var rhsKnownUnion := Or(r.knownZeros, r.knownOnes);
    var caryKnownUnion := Or(carryKnownZero, carryKnownOne);
    And(And(caryKnownUnion, lhsKnownUnion), rhsKnownUnion)
  }

  /** The masks the `Addi` rule computes from its operands' known bits. */
  function AddiMasks(width: nat, l: KnownBits, r: KnownBits): KnownBits {
    var possibleSumZero := GetMaxValue(l) + GetMaxValue(r);
    var possibleSumOne := GetMinValue(l) + GetMinValue(r);
    AddiFromSums(width, l, r, possibleSumZero, possibleSumOne)
  }

  /** The rest of `Addi` once the two extreme sums are known. */
  function AddiFromSums(width: nat, l: KnownBits, r: KnownBits, possibleSumZero: int, possibleSumOne: int): KnownBits {
    var known := AddiKnown(l, r, possibleSumZero, possibleSumOne);
    var allOnes := LowMask(width);
    var zero := And(Xor(allOnes, possibleSumZero), known);
    var one := And(possibleSumOne, known);
    KnownBits(width, zero, one)
  }

  /** The `Addi` rule: parse both operand strings, compute the masks, write the text form. */
  method AddiRule(width: nat, lhs: Option<string>, rhs: Option<string>) returns (s: string)
    ensures s == Render(AddiMasks(width, Parse(GetBitsAnalysis(lhs, width)), Parse(GetBitsAnalysis(rhs, width))))
  {
    var lBits := FromString(GetBitsAnalysis(lhs, width));
    var rBits := FromString(GetBitsAnalysis(rhs, width));
    s := ToString(AddiMasks(width, lBits, rBits));
  }

  /** If either operand string is all 'X', nothing is known of the sum: the
      result is `'X' * width`. */
  lemma AddiAllUnknown(width: nat, ls: string, rs: string)
    requires AllUnknown(ls) || AllUnknown(rs)
    ensures Render(AddiMasks(width, Parse(ls), Parse(rs))) == seq(width, _ => 'X')
  {
    if AllUnknown(ls) {
      MaskOfAbsent(ls, '0');
      MaskOfAbsent(ls, '1');
    } else {
      MaskOfAbsent(rs, '0');
      MaskOfAbsent(rs, '1');
    }
    var kb := AddiMasks(width, Parse(ls), Parse(rs));
    assert kb.knownZeros == 0 && kb.knownOnes == 0;
    forall i | 0 <= i < width
      ensures Render(kb)[i] == 'X'
    {
      ZeroBit(i);
    }
  }

  /** A bit the `Addi` rule knows is known in both operands. */
  lemma KnownInOperands(l: KnownBits, r: KnownBits, psz: int, pso: int, i: nat)
    requires Bit(AddiKnown(l, r, psz, pso), i)
    ensures Bit(l.knownZeros, i) || Bit(l.knownOnes, i)
    ensures Bit(r.knownZeros, i) || Bit(r.knownOnes, i)
  {
    var carry := Or(Not(Xor(Xor(psz, l.knownZeros), r.knownZeros)), Xor(Xor(pso, l.knownOnes), r.knownOnes));
    AndBit(And(carry, Or(l.knownZeros, l.knownOnes)), Or(r.knownZeros, r.knownOnes), i);
    AndBit(carry, Or(l.knownZeros, l.knownOnes), i);
    OrBit(l.knownZeros, l.knownOnes, i);
    OrBit(r.knownZeros, r.knownOnes, i);
  }

  /** The result string has `width` characters, and when the left operand's
      masks fit in `width` bits so do the result masks. */
  lemma AddiMasksBound(width: nat, l: KnownBits, r: KnownBits)
    requires 0 <= l.knownZeros < Pow2(width) && 0 <= l.knownOnes < Pow2(width)
    ensures |Render(AddiMasks(width, l, r))| == width
    ensures 0 <= AddiMasks(width, l, r).knownZeros < Pow2(width)
    ensures 0 <= AddiMasks(width, l, r).knownOnes < Pow2(width)
  {
    var kb := AddiMasks(width, l, r);
    forall i: nat | i >= width
      ensures !Bit(kb.knownZeros, i) && !Bit(kb.knownOnes, i)
    {
      AddiBitAbove(width, l, r, i);
    }
    FromBits(kb.knownZeros, width);
    FromBits(kb.knownOnes, width);
  }

  /** Above the width of the left operand's masks the `Addi` result knows nothing. */
  lemma AddiBitAbove(width: nat, l: KnownBits, r: KnownBits, i: nat)
    requires 0 <= l.knownZeros < Pow2(width) && 0 <= l.knownOnes < Pow2(width) && i >= width
    ensures !Bit(AddiMasks(width, l, r).knownZeros, i) && !Bit(AddiMasks(width, l, r).knownOnes, i)
  {
    var psz := GetMaxValue(l) + GetMaxValue(r);
    var pso := GetMinValue(l) + GetMinValue(r);
    var known := AddiKnown(l, r, psz, pso);
    ToBits(l.knownZeros, width, i);
    ToBits(l.knownOnes, width, i);
    AndBit(Xor(LowMask(width), psz), known, i);
    AndBit(pso, known, i);
    if Bit(known, i) {
      KnownInOperands(l, r, psz, pso, i);
    }
  }

  /** In a fully known string, bit `i` is known zero exactly when it is not
      known one. */
  lemma AllKnownBit(s: string, i: nat)
    requires AllKnown(s) && i < |s|
    ensures Bit(MaskOf(s, '0'), i) == !Bit(MaskOf(s, '1'), i)
  {
    MaskOfBit(s, '0', i);
    MaskOfBit(s, '1', i);
  }

  /** For a fully known string, `getMaxValue()` is its value. */
  lemma AllKnownMax(s: string)
    requires AllKnown(s)
    ensures GetMaxValue(Parse(s)) == MaskOf(s, '1')
  {
    forall i: nat
      ensures Bit(GetMaxValue(Parse(s)), i) == Bit(MaskOf(s, '1'), i)
    {
      XorBit(LowMask(|s|), MaskOf(s, '0'), i);
      LowMaskBit(|s|, i);
      MaskOfBit(s, '0', i);
      MaskOfBit(s, '1', i);
    }
    BitsEqual(GetMaxValue(Parse(s)), MaskOf(s, '1'));
  }

  /** Where both operands are known, the carry-known mask of two equal
      extreme sums has the bit set. */
  lemma KnownWhereOperandsKnown(l: KnownBits, r: KnownBits, sum: int, i: nat)
    requires Bit(l.knownZeros, i) != Bit(l.knownOnes, i) && Bit(r.knownZeros, i) != Bit(r.knownOnes, i)
    ensures Bit(AddiKnown(l, r, sum, sum), i)
  {
    var ckz := Not(Xor(Xor(sum, l.knownZeros), r.knownZeros));
    var cko := Xor(Xor(sum, l.knownOnes), r.knownOnes);
    NotBit(Xor(Xor(sum, l.knownZeros), r.knownZeros), i);
    XorBit(Xor(sum, l.knownZeros), r.knownZeros, i);
    XorBit(sum, l.knownZeros, i);
    XorBit(Xor(sum, l.knownOnes), r.knownOnes, i);
    XorBit(sum, l.knownOnes, i);
    OrBit(ckz, cko, i);
    OrBit(l.knownZeros, l.knownOnes, i);
    OrBit(r.knownZeros, r.knownOnes, i);
    AndBit(And(Or(ckz, cko), Or(l.knownZeros, l.knownOnes)), Or(r.knownZeros, r.knownOnes), i);
    AndBit(Or(ckz, cko), Or(l.knownZeros, l.knownOnes), i);
  }

  /** When both extreme sums are the same value, character `i` of the result
      is bit `i` of that value wherever both operands are known. */
  lemma EqualSumsAt(width: nat, l: KnownBits, r: KnownBits, sum: int, i: nat)
    requires i < width
    requires Bit(l.knownZeros, i) != Bit(l.knownOnes, i) && Bit(r.knownZeros, i) != Bit(r.knownOnes, i)
    ensures CharAt(AddiFromSums(width, l, r, sum, sum), i) == if Bit(sum, i) then '1' else '0'
  {
    var known := AddiKnown(l, r, sum, sum);
    KnownWhereOperandsKnown(l, r, sum, i);
    AndBit(Xor(LowMask(width), sum), known, i);
    XorBit(LowMask(width), sum, i);
    LowMaskBit(width, i);
    AndBit(sum, known, i);
  }

  /** Two fully known operands of `width` characters give the fully known sum:
      character `i` of the result is bit `i` of `l + r`. */
  lemma AddiFullyKnown(width: nat, ls: string, rs: string)
    requires |ls| == width && |rs| == width && AllKnown(ls) && AllKnown(rs)
    ensures |Render(AddiMasks(width, Parse(ls), Parse(rs)))| == width
    ensures forall i :: 0 <= i < width ==>
      Render(AddiMasks(width, Parse(ls), Parse(rs)))[i] ==
        if Bit(MaskOf(ls, '1') + MaskOf(rs, '1'), i) then '1' else '0'
  {
    var l, r := Parse(ls), Parse(rs);
    AllKnownMax(ls);
    AllKnownMax(rs);
    var sum := l.knownOnes + r.knownOnes;
    assert AddiMasks(width, l, r) == AddiFromSums(width, l, r, sum, sum);
    forall i | 0 <= i < width
      ensures Render(AddiMasks(width, l, r))[i] == if Bit(sum, i) then '1' else '0'
    {
      AllKnownBit(ls, i);
      AllKnownBit(rs, i);
      EqualSumsAt(width, l, r, sum, i);
    }
  }

  /** The harness's 8-bit view of a known-bits value. */
  function ToAbs(kb: KnownBits): Oracle.AbsValue {
    Oracle.AbsValue(ToBv8(kb.knownZeros), ToBv8(kb.knownOnes))
  }

  lemma MaxToBv8(kb: KnownBits)
    requires kb.width == 8
    ensures ToBv8(GetMaxValue(kb)) == Oracle.GetMax(ToAbs(kb))
  {
    ToBv8Xor(LowMask(8), kb.knownZeros);
    ToBv8LowMask();
  }

  lemma Xor3ToBv8(p: int, x: int, y: int)
    ensures ToBv8(Xor(Xor(p, x), y)) == ToBv8(p) ^ ToBv8(x) ^ ToBv8(y)
  {
    ToBv8Xor(Xor(p, x), y);
    ToBv8Xor(p, x);
  }

  lemma CarryToBv8(l: KnownBits, r: KnownBits, psz: int, pso: int)
    ensures ToBv8(Or(Not(Xor(Xor(psz, l.knownZeros), r.knownZeros)), Xor(Xor(pso, l.knownOnes), r.knownOnes)))
         == !(ToBv8(psz) ^ ToBv8(l.knownZeros) ^ ToBv8(r.knownZeros)) | (ToBv8(pso) ^ ToBv8(l.knownOnes) ^ ToBv8(r.knownOnes))
  {
    Xor3ToBv8(psz, l.knownZeros, r.knownZeros);
    Xor3ToBv8(pso, l.knownOnes, r.knownOnes);
    ToBv8Not(Xor(Xor(psz, l.knownZeros), r.knownZeros));
    ToBv8Or(Not(Xor(Xor(psz, l.knownZeros), r.knownZeros)), Xor(Xor(pso, l.knownOnes), r.knownOnes));
  }

  /** The `Addi` known mask on eight bits, from the two extreme sums. */
  function AddiKnown8(a: Oracle.AbsValue, b: Oracle.AbsValue, possibleSumZero: bv8, possibleSumOne: bv8): bv8 {
    var carryKnownZero := !(possibleSumZero ^ a.zeros ^ b.zeros);
    var carryKnownOne := possibleSumOne ^ a.ones ^ b.ones;
    (carryKnownZero | carryKnownOne) & (a.zeros | a.ones) & (b.zeros | b.ones)
  }

  /** The `Addi` known-zeros mask on eight bits, `allOnes` being 0xFF. */
  function ZerosFrom8(a: Oracle.AbsValue, b: Oracle.AbsValue, possibleSumZero: bv8, possibleSumOne: bv8): bv8 {
    (0xFF ^ possibleSumZero) & AddiKnown8(a, b, possibleSumZero, possibleSumOne)
  }

  /** The `Addi` known-ones mask on eight bits. */
  function OnesFrom8(a: Oracle.AbsValue, b: Oracle.AbsValue, possibleSumZero: bv8, possibleSumOne: bv8): bv8 {
    possibleSumOne & AddiKnown8(a, b, possibleSumZero, possibleSumOne)
  }

  function AddiZeros8(a: Oracle.AbsValue, b: Oracle.AbsValue): bv8 {
    ZerosFrom8(a, b, Oracle.GetMax(a) + Oracle.GetMax(b), Oracle.GetMin(a) + Oracle.GetMin(b))
  }

  function AddiOnes8(a: Oracle.AbsValue, b: Oracle.AbsValue): bv8 {
    OnesFrom8(a, b, Oracle.GetMax(a) + Oracle.GetMax(b), Oracle.GetMin(a) + Oracle.GetMin(b))
  }

  /** The carry-known mask keeps its meaning on eight bits, given the 8-bit
      images `u` and `v` of the two extreme sums. */
  lemma KnownToBv8(l: KnownBits, r: KnownBits, psz: int, pso: int, u: bv8, v: bv8)
    requires ToBv8(psz) == u && ToBv8(pso) == v
    ensures ToBv8(AddiKnown(l, r, psz, pso)) == AddiKnown8(ToAbs(l), ToAbs(r), u, v)
  {
    var carry := Or(Not(Xor(Xor(psz, l.knownZeros), r.knownZeros)), Xor(Xor(pso, l.knownOnes), r.knownOnes));
    CarryToBv8(l, r, psz, pso);
    ToBv8Or(l.knownZeros, l.knownOnes);
    ToBv8Or(r.knownZeros, r.knownOnes);
    ToBv8And(And(carry, Or(l.knownZeros, l.knownOnes)), Or(r.knownZeros, r.knownOnes));
    ToBv8And(carry, Or(l.knownZeros, l.knownOnes));
  }

  /** The integer `Addi` masks cut to eight bits are the 8-bit masks computed
      from the 8-bit images of the two extreme sums. */
  lemma ZerosFromSums(l: KnownBits, r: KnownBits, psz: int, pso: int)
    ensures ToBv8(AddiFromSums(8, l, r, psz, pso).knownZeros)
         == ZerosFrom8(ToAbs(l), ToAbs(r), ToBv8(psz), ToBv8(pso))
  {
    KnownToBv8(l, r, psz, pso, ToBv8(psz), ToBv8(pso));
    ToBv8Xor(LowMask(8), psz);
    ToBv8LowMask();
    ToBv8And(Xor(LowMask(8), psz), AddiKnown(l, r, psz, pso));
  }

  lemma OnesFromSums(l: KnownBits, r: KnownBits, psz: int, pso: int)
    ensures ToBv8(AddiFromSums(8, l, r, psz, pso).knownOnes)
         == OnesFrom8(ToAbs(l), ToAbs(r), ToBv8(psz), ToBv8(pso))
  {
    KnownToBv8(l, r, psz, pso, ToBv8(psz), ToBv8(pso));
    ToBv8And(pso, AddiKnown(l, r, psz, pso));
  }

  lemma AddToBv8(x: int, y: int, u: bv8, v: bv8)
    requires ToBv8(x) == u && ToBv8(y) == v
    ensures ToBv8(x + y) == u + v
  {
    ToBv8Add(x, y);
  }

  lemma MaxSumToBv8(l: KnownBits, r: KnownBits)
    requires l.width == 8 && r.width == 8
    ensures ToBv8(GetMaxValue(l) + GetMaxValue(r)) == Oracle.GetMax(ToAbs(l)) + Oracle.GetMax(ToAbs(r))
  {
    MaxToBv8(l);
    MaxToBv8(r);
    AddToBv8(GetMaxValue(l), GetMaxValue(r), Oracle.GetMax(ToAbs(l)), Oracle.GetMax(ToAbs(r)));
  }

  lemma MinSumToBv8(l: KnownBits, r: KnownBits)
    ensures ToBv8(GetMinValue(l) + GetMinValue(r)) == Oracle.GetMin(ToAbs(l)) + Oracle.GetMin(ToAbs(r))
  {
    AddToBv8(l.knownOnes, r.knownOnes, ToBv8(l.knownOnes), ToBv8(r.knownOnes));
  }

  lemma AddiZerosToBv8(l: KnownBits, r: KnownBits)
    requires l.width == 8 && r.width == 8
    ensures ToBv8(AddiMasks(8, l, r).knownZeros)
         == ZerosFrom8(ToAbs(l), ToAbs(r), ToBv8(GetMaxValue(l) + GetMaxValue(r)), ToBv8(GetMinValue(l) + GetMinValue(r)))
  {
    ZerosFromSums(l, r, GetMaxValue(l) + GetMaxValue(r), GetMinValue(l) + GetMinValue(r));
  }

  lemma AddiOnesToBv8(l: KnownBits, r: KnownBits)
    requires l.width == 8 && r.width == 8
    ensures ToBv8(AddiMasks(8, l, r).knownOnes)
         == OnesFrom8(ToAbs(l), ToAbs(r), ToBv8(GetMaxValue(l) + GetMaxValue(r)), ToBv8(GetMinValue(l) + GetMinValue(r)))
  {
    OnesFromSums(l, r, GetMaxValue(l) + GetMaxValue(r), GetMinValue(l) + GetMinValue(r));
  }

  /** With operands of width 8 the extreme sums cut to eight bits are the
      harness's sums. */
  lemma SumsAgreeZeros(l: KnownBits, r: KnownBits)
    requires l.width == 8 && r.width == 8
    ensures ZerosFrom8(ToAbs(l), ToAbs(r), ToBv8(GetMaxValue(l) + GetMaxValue(r)), ToBv8(GetMinValue(l) + GetMinValue(r)))
         == AddiZeros8(ToAbs(l), ToAbs(r))
  {
    MaxSumToBv8(l, r);
    MinSumToBv8(l, r);
  }

  lemma SumsAgreeOnes(l: KnownBits, r: KnownBits)
    requires l.width == 8 && r.width == 8
    ensures OnesFrom8(ToAbs(l), ToAbs(r), ToBv8(GetMaxValue(l) + GetMaxValue(r)), ToBv8(GetMinValue(l) + GetMinValue(r)))
         == AddiOnes8(ToAbs(l), ToAbs(r))
  {
    MaxSumToBv8(l, r);
    MinSumToBv8(l, r);
  }

  lemma SameBv8(x: bv8, y: bv8)
    requires x & !y == 0 && y & !x == 0
    ensures x == y
  {
  }

  lemma AddiZeros8Within(a: Oracle.AbsValue, b: Oracle.AbsValue)
    ensures AddiZeros8(a, b) & !Checks.AddImpl(a, b).zeros == 0
  {
  }

  lemma AddImplZerosWithin(a: Oracle.AbsValue, b: Oracle.AbsValue)
    ensures Checks.AddImpl(a, b).zeros & !AddiZeros8(a, b) == 0
  {
  }

  lemma AddiOnes8Within(a: Oracle.AbsValue, b: Oracle.AbsValue)
    ensures AddiOnes8(a, b) & !Checks.AddImpl(a, b).ones == 0
  {
  }

  lemma AddImplOnesWithin(a: Oracle.AbsValue, b: Oracle.AbsValue)
    ensures Checks.AddImpl(a, b).ones & !AddiOnes8(a, b) == 0
  {
  }

  /** At width 8 the `Addi` known-zeros mask is `AddImpl`'s:
      `allOnes ^ possibleSumZero` is `~possibleSumZero` on eight bits. */
  lemma AddiZerosAgree(l: KnownBits, r: KnownBits)
    requires l.width == 8 && r.width == 8
    ensures ToAbs(AddiMasks(8, l, r)).zeros == Checks.AddImpl(ToAbs(l), ToAbs(r)).zeros
  {
    AddiZerosToBv8(l, r);
    SumsAgreeZeros(l, r);
    AddiZeros8Within(ToAbs(l), ToAbs(r));
    AddImplZerosWithin(ToAbs(l), ToAbs(r));
    SameBv8(AddiZeros8(ToAbs(l), ToAbs(r)), Checks.AddImpl(ToAbs(l), ToAbs(r)).zeros);
  }

  /** At width 8 the `Addi` known-ones mask is `AddImpl`'s. */
  lemma AddiOnesAgree(l: KnownBits, r: KnownBits)
    requires l.width == 8 && r.width == 8
    ensures ToAbs(AddiMasks(8, l, r)).ones == Checks.AddImpl(ToAbs(l), ToAbs(r)).ones
  {
    AddiOnesToBv8(l, r);
    SumsAgreeOnes(l, r);
    AddiOnes8Within(ToAbs(l), ToAbs(r));
    AddImplOnesWithin(ToAbs(l), ToAbs(r));
    SameBv8(AddiOnes8(ToAbs(l), ToAbs(r)), Checks.AddImpl(ToAbs(l), ToAbs(r)).ones);
  }

  // ---------------------------------------------------------------------------
  // Constant

  /** The `Constant` rule: one character per character of the operation's
      current string, '1' where the value's bit is set and '0' elsewhere. */
  method ConstantRule(width: nat, value: int, prior: Option<string>) returns (s: string)
    ensures |s| == |GetBitsAnalysis(prior, width)|
    ensures forall i :: 0 <= i < |s| ==> s[i] == if Bit(value, i) then '1' else '0'
  {
    var analysisStr := GetBitsAnalysis(prior, width);
    s := "";
    for i := 0 to |analysisStr|
      invariant |s| == i
      invariant forall j :: 0 <= j < i ==> s[j] == if Bit(value, j) then '1' else '0'
    {
      TestBit(value, i);
      if And(value, Pow2(i)) != 0 {
        s := s + "1";
      } else {
        s := s + "0";
      }
    }
  }

  /** The string the `Constant` rule writes parses to the fully known value
      `from_constant` is meant to build. */
  lemma ConstantStringParse(s: string, value: int)
    requires forall i :: 0 <= i < |s| ==> s[i] == if Bit(value, i) then '1' else '0'
    ensures Parse(s) == FromConstantIntended(|s|, value)
  {
    var w := |s|;
    forall i: nat
      ensures Bit(MaskOf(s, '1'), i) == Bit(And(value, LowMask(w)), i)
      ensures Bit(MaskOf(s, '0'), i) == Bit(And(Not(value), LowMask(w)), i)
    {
      MaskOfBit(s, '0', i);
      MaskOfBit(s, '1', i);
      AndBit(value, LowMask(w), i);
      AndBit(Not(value), LowMask(w), i);
      NotBit(value, i);
      LowMaskBit(w, i);
    }
    BitsEqual(MaskOf(s, '1'), And(value, LowMask(w)));
    BitsEqual(MaskOf(s, '0'), And(Not(value), LowMask(w)));
  }

  // ---------------------------------------------------------------------------
  // AndI, OrI, XOrI

  datatype BitwiseOp = AndI | OrI | XOrI

  /** The masks the `AndI`, `OrI` and `XOrI` rules get from the harness's
      `AndImpl`, `orImpl` and `XorImpl` applied to Python-int masks. */
  function BitwiseMasks(op: BitwiseOp, width: nat, l: KnownBits, r: KnownBits): KnownBits {
    match op
    case AndI => KnownBits(width, Or(l.knownZeros, l.knownZeros), And(r.knownOnes, r.knownOnes))
    case OrI => KnownBits(width, And(l.knownZeros, r.knownZeros), Or(l.knownOnes, r.knownOnes))
    case XOrI =>
      KnownBits(width, Or(And(l.knownZeros, r.knownZeros), And(l.knownOnes, r.knownOnes)),
                       Or(And(l.knownZeros, r.knownOnes), And(l.knownOnes, r.knownZeros)))
  }

  /** The `AndI`, `OrI` and `XOrI` rules. */
  method BitwiseRule(op: BitwiseOp, width: nat, lhs: Option<string>, rhs: Option<string>) returns (s: string)
    ensures s == Render(BitwiseMasks(op, width, Parse(GetBitsAnalysis(lhs, width)), Parse(GetBitsAnalysis(rhs, width))))
  {
    var lBits := FromString(GetBitsAnalysis(lhs, width));
    var rBits := FromString(GetBitsAnalysis(rhs, width));
    s := ToString(BitwiseMasks(op, width, lBits, rBits));
  }

  /** The harness function each rule delegates to. */
  function ChecksImpl(op: BitwiseOp, a: Oracle.AbsValue, b: Oracle.AbsValue): Oracle.AbsValue {
    match op
    case AndI => Checks.AndImpl(a, b)
    case OrI => Checks.OrImpl(a, b)
    case XOrI => Checks.XorImpl(a, b)
  }

  lemma AndIAgree(l: KnownBits, r: KnownBits)
    ensures ToAbs(BitwiseMasks(AndI, 8, l, r)).zeros == Checks.AndImpl(ToAbs(l), ToAbs(r)).zeros
    ensures ToAbs(BitwiseMasks(AndI, 8, l, r)).ones == Checks.AndImpl(ToAbs(l), ToAbs(r)).ones
  {
    ToBv8Or(l.knownZeros, l.knownZeros);
    ToBv8And(r.knownOnes, r.knownOnes);
  }

  lemma OrIAgree(l: KnownBits, r: KnownBits)
    ensures ToAbs(BitwiseMasks(OrI, 8, l, r)).zeros == Checks.OrImpl(ToAbs(l), ToAbs(r)).zeros
    ensures ToAbs(BitwiseMasks(OrI, 8, l, r)).ones == Checks.OrImpl(ToAbs(l), ToAbs(r)).ones
  {
    ToBv8And(l.knownZeros, r.knownZeros);
    ToBv8Or(l.knownOnes, r.knownOnes);
  }

  /** `(a & b) | (c & d)` cut to eight bits. */
  lemma OrOfAndsToBv8(a: int, b: int, c: int, d: int)
    ensures ToBv8(Or(And(a, b), And(c, d))) == (ToBv8(a) & ToBv8(b)) | (ToBv8(c) & ToBv8(d))
  {
    ToBv8And(a, b);
    ToBv8And(c, d);
    ToBv8Or(And(a, b), And(c, d));
  }

  lemma XOrIZerosAgree(l: KnownBits, r: KnownBits)
    ensures ToAbs(BitwiseMasks(XOrI, 8, l, r)).zeros == Checks.XorImpl(ToAbs(l), ToAbs(r)).zeros
  {
    OrOfAndsToBv8(l.knownZeros, r.knownZeros, l.knownOnes, r.knownOnes);
  }

  lemma XOrIOnesAgree(l: KnownBits, r: KnownBits)
    ensures ToAbs(BitwiseMasks(XOrI, 8, l, r)).ones == Checks.XorImpl(ToAbs(l), ToAbs(r)).ones
  {
    OrOfAndsToBv8(l.knownZeros, r.knownOnes, l.knownOnes, r.knownZeros);
  }

  /** On eight bits the rules' masks are the harness functions' masks. */
  lemma BitwiseAgree(op: BitwiseOp, l: KnownBits, r: KnownBits)
    ensures ToAbs(BitwiseMasks(op, 8, l, r)).zeros == ChecksImpl(op, ToAbs(l), ToAbs(r)).zeros
    ensures ToAbs(BitwiseMasks(op, 8, l, r)).ones == ChecksImpl(op, ToAbs(l), ToAbs(r)).ones
  {
    match op
    case AndI => AndIAgree(l, r);
    case OrI => OrIAgree(l, r);
    case XOrI =>
      XOrIZerosAgree(l, r);
      XOrIOnesAgree(l, r);
  }

  /** `OrI` is sound at every width: `x | y` is an instance of the result. */
  lemma OrIMasksSound(width: nat, l: KnownBits, r: KnownBits, x: int, y: int)
    requires IsInstance(l, x) && IsInstance(r, y)
    ensures IsInstance(BitwiseMasks(OrI, width, l, r), Or(x, y))
  {
    InstanceBits(l, x);
    InstanceBits(r, y);
    var kb := BitwiseMasks(OrI, width, l, r);
    forall i: nat
      ensures (Bit(kb.knownOnes, i) ==> Bit(Or(x, y), i)) && (Bit(kb.knownZeros, i) ==> !Bit(Or(x, y), i))
    {
      OrBit(l.knownOnes, r.knownOnes, i);
      AndBit(l.knownZeros, r.knownZeros, i);
      OrBit(x, y, i);
    }
    InstanceBits(kb, Or(x, y));
  }

  /** `XOrI` is sound at every width: `x ^ y` is an instance of the result. */
  lemma XOrIMasksSound(width: nat, l: KnownBits, r: KnownBits, x: int, y: int)
    requires IsInstance(l, x) && IsInstance(r, y)
    ensures IsInstance(BitwiseMasks(XOrI, width, l, r), Xor(x, y))
  {
    InstanceBits(l, x);
    InstanceBits(r, y);
    var kb := BitwiseMasks(XOrI, width, l, r);
    forall i: nat
      ensures (Bit(kb.knownOnes, i) ==> Bit(Xor(x, y), i)) && (Bit(kb.knownZeros, i) ==> !Bit(Xor(x, y), i))
    {
      OrBit(And(l.knownZeros, r.knownZeros), And(l.knownOnes, r.knownOnes), i);
      OrBit(And(l.knownZeros, r.knownOnes), And(l.knownOnes, r.knownZeros), i);
      AndBit(l.knownZeros, r.knownZeros, i);
      AndBit(l.knownOnes, r.knownOnes, i);
      AndBit(l.knownZeros, r.knownOnes, i);
      AndBit(l.knownOnes, r.knownZeros, i);
      XorBit(x, y, i);
    }
    InstanceBits(kb, Xor(x, y));
  }

  /** `AndI` inherits `AndImpl`'s defect: with `lhs` unknown and `rhs` all
      ones over 8 bits, `0 & 255 == 0` is not an instance of the result. */
  lemma AndIMasksUnsound()
    ensures IsInstance(Parse("XXXXXXXX"), 0) && IsInstance(Parse("11111111"), 255)
    ensures !IsInstance(BitwiseMasks(AndI, 8, Parse("XXXXXXXX"), Parse("11111111")), And(0, 255))
  {
    var l, r := Parse("XXXXXXXX"), Parse("11111111");
    assert l == KnownBits(8, 0, 0);
    assert r == KnownBits(8, 0, 255);
    InstanceBits(l, 0);
    InstanceBits(r, 255);
    forall i: nat ensures !Bit(0, i) {
      ZeroBit(i);
    }
    var kb := BitwiseMasks(AndI, 8, l, r);
    assert kb.knownOnes == 255;
    InstanceBits(kb, 0);
    assert Bit(255, 0);
  }
}
