/** `KnownBits`: a partially known integer of `width` bits, as a pair of
    masks. Bit `i` set in `knownZeros` means bit `i` is known to be 0, set in
    `knownOnes` known to be 1, set in neither unknown. Its text form has one
    character per bit, least significant bit first: '0', '1' or 'X'. */
module KnownBitsDomain {
  import opened PyInt
  import opened Outcomes

  datatype KnownBits = KnownBits(width: nat, knownZeros: int, knownOnes: int)

  /** `hasConflict()`: some bit is claimed both 0 and 1. */
  predicate HasConflict(kb: KnownBits) {
    0 != And(kb.knownOnes, kb.knownZeros)
  }

  /** Masks within `width` bits and no conflict. */
  predicate Valid(kb: KnownBits) {
    0 <= kb.knownZeros < Pow2(kb.width) && 0 <= kb.knownOnes < Pow2(kb.width) && !HasConflict(kb)
  }

  lemma HasConflictBits(kb: KnownBits)
    ensures HasConflict(kb) <==> exists i: nat :: Bit(kb.knownOnes, i) && Bit(kb.knownZeros, i)
  {
    if exists i: nat :: Bit(kb.knownOnes, i) && Bit(kb.knownZeros, i) {
      var i: nat :| Bit(kb.knownOnes, i) && Bit(kb.knownZeros, i);
      AndBit(kb.knownOnes, kb.knownZeros, i);
      ZeroBit(i);
    } else {
      DisjointFromBits(kb.knownOnes, kb.knownZeros);
    }
  }

  // ---------------------------------------------------------------------------
  // Text form

  /** The mask of the positions of `s` holding `c`; position 0 is bit 0. */
  function MaskOf(s: string, c: char): nat {
    if |s| == 0 then 0 else (if s[0] == c then 1 else 0) + 2 * MaskOf(s[1..], c)
  }

  lemma {:induction false} MaskOfBit(s: string, c: char, i: nat)
    ensures Bit(MaskOf(s, c), i) == (i < |s| && s[i] == c)
    decreases s
  {
    if |s| == 0 {
      ZeroBit(i);
    } else if i > 0 {
      MaskOfBit(s[1..], c, i - 1);
    }
  }

  lemma {:induction false} MaskOfBound(s: string, c: char)
    ensures MaskOf(s, c) < Pow2(|s|)
    decreases s
  {
    if |s| > 0 {
      MaskOfBound(s[1..], c);
    }
  }

  /** Appending a character at the top adds its bit. */
  lemma {:induction false} MaskOfSnoc(s: string, c: char, d: char)
    ensures MaskOf(s + [d], c) == MaskOf(s, c) + (if d == c then Pow2(|s|) else 0)
    decreases s
  {
    if |s| > 0 {
      assert (s + [d])[1..] == s[1..] + [d];
      MaskOfSnoc(s[1..], c, d);
    }
  }

  /** A character that does not occur in `s` contributes no bit. */
  lemma {:induction false} MaskOfAbsent(s: string, c: char)
    requires forall i :: 0 <= i < |s| ==> s[i] != c
    ensures MaskOf(s, c) == 0
    decreases s
  {
    if |s| > 0 {
      MaskOfAbsent(s[1..], c);
    }
  }

  /** What `from_string(s)` builds. */
  function Parse(s: string): KnownBits {
    KnownBits(|s|, MaskOf(s, '0'), MaskOf(s, '1'))
  }

  /** Character `i` of `to_string()`: a known one wins over a known zero. */
  function CharAt(kb: KnownBits, i: nat): char {
    if Bit(kb.knownOnes, i) then '1' else if Bit(kb.knownZeros, i) then '0' else 'X'
  }

  /** What `to_string()` builds. */
  function Render(kb: KnownBits): string {
    seq(kb.width, i requires 0 <= i < kb.width => CharAt(kb, i))
  }

  /** On a value below `2^i`, `| (1 << i)` adds `2^i`. */
  lemma OrNextBit(x: int, i: nat)
    requires 0 <= x < Pow2(i)
    ensures Or(x, Pow2(i)) == x + Pow2(i)
  {
    forall j: nat
      ensures !(Bit(x, j) && Bit(Pow2(i), j))
    {
      Pow2Bit(i, j);
      if j >= i {
        ToBits(x, i, j);
      }
    }
    DisjointFromBits(x, Pow2(i));
    OrDisjointIsAdd(x, Pow2(i));
  }

  /** `from_string(s)` */
  method FromString(s: string) returns (kb: KnownBits)
    ensures kb == Parse(s)
  {
    var knownOnes := 0;
    var knownZeros := 0;
    for i := 0 to |s|
      invariant knownZeros == MaskOf(s[..i], '0')
      invariant knownOnes == MaskOf(s[..i], '1')
    {
      assert s[..i + 1] == s[..i] + [s[i]];
      MaskOfSnoc(s[..i], '0', s[i]);
      MaskOfSnoc(s[..i], '1', s[i]);
      MaskOfBound(s[..i], '0');
      MaskOfBound(s[..i], '1');
      if s[i] == '0' {
        OrNextBit(knownZeros, i);
        knownZeros := Or(knownZeros, Pow2(i));
      } else if s[i] == '1' {
        OrNextBit(knownOnes, i);
        knownOnes := Or(knownOnes, Pow2(i));
      }
    }
    assert s[..|s|] == s;
    kb := KnownBits(|s|, knownZeros, knownOnes);
  }

  /** `to_string()` */
  method ToString(kb: KnownBits) returns (s: string)
    ensures s == Render(kb)
  {
    s := "";
    for i := 0 to kb.width
      invariant |s| == i
      invariant forall j :: 0 <= j < i ==> s[j] == CharAt(kb, j)
    {
      TestBit(kb.knownOnes, i);
      TestBit(kb.knownZeros, i);
      if And(kb.knownOnes, Pow2(i)) != 0 {
        s := s + "1";
      } else if And(kb.knownZeros, Pow2(i)) != 0 {
        s := s + "0";
      } else {
        s := s + "X";
      }
    }
  }

  /** `from_string(s)` has width `len(s)`, masks below `2^len(s)` and no conflict. */
  lemma ParseValid(s: string)
    ensures Parse(s).width == |s|
    ensures Valid(Parse(s))
  {
    MaskOfBound(s, '0');
    MaskOfBound(s, '1');
    forall i: nat
      ensures !(Bit(MaskOf(s, '1'), i) && Bit(MaskOf(s, '0'), i))
    {
      MaskOfBit(s, '0', i);
      MaskOfBit(s, '1', i);
    }
    HasConflictBits(Parse(s));
  }

  /** `to_string(from_string(s))` keeps every '0' and '1' and turns any other
      character into 'X'; on strings over '0', '1', 'X' it gives `s` back. */
  lemma RenderParse(s: string)
    ensures |Render(Parse(s))| == |s|
    ensures forall i :: 0 <= i < |s| ==>
      Render(Parse(s))[i] == if s[i] == '0' || s[i] == '1' then s[i] else 'X'
    ensures (forall i :: 0 <= i < |s| ==> s[i] in "01X") ==> Render(Parse(s)) == s
  {
    forall i | 0 <= i < |s|
      ensures Render(Parse(s))[i] == if s[i] == '0' || s[i] == '1' then s[i] else 'X'
    {
      MaskOfBit(s, '0', i);
      MaskOfBit(s, '1', i);
    }
  }

  /** Parsing the text form back: a bit claimed both ways comes back as a one. */
  lemma ParseRender(kb: KnownBits)
    requires 0 <= kb.knownZeros < Pow2(kb.width) && 0 <= kb.knownOnes < Pow2(kb.width)
    ensures Parse(Render(kb)) == KnownBits(kb.width, And(kb.knownZeros, Not(kb.knownOnes)), kb.knownOnes)
    ensures Valid(kb) ==> Parse(Render(kb)) == kb
  {
    var s := Render(kb);
    forall i: nat
      ensures Bit(MaskOf(s, '1'), i) == Bit(kb.knownOnes, i)
      ensures Bit(MaskOf(s, '0'), i) == Bit(And(kb.knownZeros, Not(kb.knownOnes)), i)
    {
      MaskOfBit(s, '0', i);
      MaskOfBit(s, '1', i);
      AndBit(kb.knownZeros, Not(kb.knownOnes), i);
      NotBit(kb.knownOnes, i);
      if i >= kb.width {
        ToBits(kb.knownZeros, kb.width, i);
        ToBits(kb.knownOnes, kb.width, i);
      }
    }
    BitsEqual(MaskOf(s, '1'), kb.knownOnes);
    BitsEqual(MaskOf(s, '0'), And(kb.knownZeros, Not(kb.knownOnes)));
    if Valid(kb) {
      forall i: nat
        ensures Bit(And(kb.knownZeros, Not(kb.knownOnes)), i) == Bit(kb.knownZeros, i)
      {
        AndBit(kb.knownZeros, Not(kb.knownOnes), i);
        NotBit(kb.knownOnes, i);
        DisjointBit(kb.knownOnes, kb.knownZeros, i);
      }
      BitsEqual(And(kb.knownZeros, Not(kb.knownOnes)), kb.knownZeros);
    }
  }

  // ---------------------------------------------------------------------------
  // Instances, bounds

  /** `contains(x, y)`: every set bit of `y` is set in `x`. */
  predicate Contains(x: int, y: int) {
    Or(x, y) == x
  }

  lemma ContainsBits(x: int, y: int)
    ensures Contains(x, y) <==> forall i: nat :: Bit(y, i) ==> Bit(x, i)
  {
    if forall i: nat :: Bit(y, i) ==> Bit(x, i) {
      forall i: nat
        ensures Bit(Or(x, y), i) == Bit(x, i)
      {
        OrBit(x, y, i);
      }
      BitsEqual(Or(x, y), x);
    } else {
      var i: nat :| Bit(y, i) && !Bit(x, i);
      OrBit(x, y, i);
    }
  }

  /** `v` is one of the integers `kb` describes. */
  predicate IsInstance(kb: KnownBits, v: int) {
    Contains(v, kb.knownOnes) && Contains(Not(v), kb.knownZeros)
  }

  lemma InstanceBits(kb: KnownBits, v: int)
    ensures IsInstance(kb, v) <==>
      forall i: nat :: (Bit(kb.knownOnes, i) ==> Bit(v, i)) && (Bit(kb.knownZeros, i) ==> !Bit(v, i))
  {
    ContainsBits(v, kb.knownOnes);
    ContainsBits(Not(v), kb.knownZeros);
    forall i: nat {
      NotBit(v, i);
    }
  }

  /** `getMaxValue()`: every bit not known to be zero. */
  function GetMaxValue(kb: KnownBits): int {
    Xor(LowMask(kb.width), kb.knownZeros)
  }

  /** `getMinValue()`: the known ones. */
  function GetMinValue(kb: KnownBits): int {
    kb.knownOnes
  }

  /** A submask of a non-negative value is not larger than it. */
  lemma {:induction false} SubmaskLe(x: int, y: int)
    requires x >= 0 && y >= 0
    requires Contains(x, y)
    ensures y <= x
    decreases x
  {
    if x != 0 && y != 0 {
      OrStep(x, y);
      Halve(x);
      Halve(y);
      SubmaskLe(x / 2, y / 2);
    } else if x == 0 {
      assert Or(0, y) == y;
    }
  }

  /** For valid masks, `getMinValue()` and `getMaxValue()` are instances, every
      instance in `[0, 2^width)` lies bitwise between them, and so min <= max. */
  lemma MinMaxBound(kb: KnownBits, v: int)
    requires Valid(kb)
    ensures GetMaxValue(kb) == LowMask(kb.width) - kb.knownZeros
    ensures IsInstance(kb, GetMinValue(kb)) && IsInstance(kb, GetMaxValue(kb))
    ensures Contains(GetMaxValue(kb), GetMinValue(kb))
    ensures GetMinValue(kb) <= GetMaxValue(kb)
    ensures 0 <= v < Pow2(kb.width) && IsInstance(kb, v) ==>
      Contains(v, GetMinValue(kb)) && Contains(GetMaxValue(kb), v) &&
      GetMinValue(kb) <= v <= GetMaxValue(kb)
  {
    var z, o, w := kb.knownZeros, kb.knownOnes, kb.width;
    var hi := GetMaxValue(kb);
    XorLowMask(w, z);
    forall i: nat
      ensures Bit(hi, i) == (i < w && !Bit(z, i))
      ensures !(Bit(o, i) && Bit(z, i))
      ensures i >= w ==> !Bit(o, i) && !Bit(z, i)
    {
      XorBit(LowMask(w), z, i);
      LowMaskBit(w, i);
      DisjointBit(o, z, i);
      if i >= w {
        ToBits(z, w, i);
        ToBits(o, w, i);
      }
    }
    InstanceBits(kb, o);
    InstanceBits(kb, hi);
    ContainsBits(hi, o);
    SubmaskLe(hi, o);
    if 0 <= v < Pow2(w) && IsInstance(kb, v) {
      InstanceBits(kb, v);
      ContainsBits(v, o);
      ContainsBits(hi, v);
      forall i: nat | i >= w
        ensures !Bit(v, i)
      {
        ToBits(v, w, i);
      }
      SubmaskLe(v, o);
      SubmaskLe(hi, v);
    }
  }

  // ---------------------------------------------------------------------------
  // from_constant

  /** What `from_constant(width, val)` builds as written: `val & (1 << i)` is
      never 1 for `i >= 1`, so only bit 0 can come out known-one. */
  function FromConstantAsWritten(width: nat, val: int): KnownBits {
    var one := if width >= 1 && Bit(val, 0) then 1 else 0;
    KnownBits(width, LowMask(width) - one, one)
  }

  /** What `from_constant(width, val)` is evidently meant to build: the low
      `width` bits of `val` known exactly. */
  function FromConstantIntended(width: nat, val: int): KnownBits {
    KnownBits(width, And(Not(val), LowMask(width)), And(val, LowMask(width)))
  }

  /** `from_constant(width, val)`, as written. */
  method FromConstant(width: nat, val: int) returns (kb: KnownBits)
    ensures kb == FromConstantAsWritten(width, val)
  {
    var zero := 0;
    var one := 0;
    for i := 0 to width
      invariant one == if i >= 1 && Bit(val, 0) then 1 else 0
      invariant zero == LowMask(i) - one
    {
      TestBit(val, i);
      if And(val, Pow2(i)) == 1 {
        OrNextBit(one, i);
        one := Or(one, Pow2(i));
      } else {
        OrNextBit(zero, i);
        zero := Or(zero, Pow2(i));
      }
    }
    kb := KnownBits(width, zero, one);
  }

  /** `x & ((1 << (i + 1)) - 1)` from `x & ((1 << i) - 1)`: bit `i` joins. */
  lemma AndLowMaskNext(x: int, i: nat)
    ensures And(x, LowMask(i + 1)) ==
      if Bit(x, i) then Or(And(x, LowMask(i)), Pow2(i)) else And(x, LowMask(i))
  {
    var r := if Bit(x, i) then Or(And(x, LowMask(i)), Pow2(i)) else And(x, LowMask(i));
    forall j: nat
      ensures Bit(And(x, LowMask(i + 1)), j) == Bit(r, j)
    {
      AndBit(x, LowMask(i + 1), j);
      AndBit(x, LowMask(i), j);
      OrBit(And(x, LowMask(i)), Pow2(i), j);
      LowMaskBit(i + 1, j);
      LowMaskBit(i, j);
      Pow2Bit(i, j);
    }
    BitsEqual(And(x, LowMask(i + 1)), r);
  }

  /** `from_constant(width, val)` with the bit test corrected to `!= 0`. */
  method FromConstantCorrected(width: nat, val: int) returns (kb: KnownBits)
    ensures kb == FromConstantIntended(width, val)
  {
    var zero := 0;
    var one := 0;
    for i := 0 to width
      invariant one == And(val, LowMask(i))
      invariant zero == And(Not(val), LowMask(i))
    {
      TestBit(val, i);
      AndLowMaskNext(val, i);
      AndLowMaskNext(Not(val), i);
      NotBit(val, i);
      if And(val, Pow2(i)) != 0 {
        one := Or(one, Pow2(i));
      } else {
        zero := Or(zero, Pow2(i));
      }
    }
    assert LowMask(0) == 0;
    kb := KnownBits(width, zero, one);
  }

  /** Both versions are fully known and conflict-free: `zero | one` is the
      whole width and `zero & one == 0`. */
  lemma FromConstantFullyKnown(width: nat, val: int)
    ensures Valid(FromConstantAsWritten(width, val))
    ensures Or(FromConstantAsWritten(width, val).knownZeros, FromConstantAsWritten(width, val).knownOnes) == LowMask(width)
    ensures Valid(FromConstantIntended(width, val))
    ensures Or(FromConstantIntended(width, val).knownZeros, FromConstantIntended(width, val).knownOnes) == LowMask(width)
  {
    var a := FromConstantAsWritten(width, val);
    var c := FromConstantIntended(width, val);
    forall i: nat
      ensures Bit(a.knownOnes, i) == (i == 0 && width >= 1 && Bit(val, 0))
      ensures Bit(a.knownZeros, i) == (i < width && !(i == 0 && Bit(val, 0)))
      ensures Bit(c.knownOnes, i) == (i < width && Bit(val, i))
      ensures Bit(c.knownZeros, i) == (i < width && !Bit(val, i))
      ensures Bit(Or(a.knownZeros, a.knownOnes), i) == Bit(LowMask(width), i)
      ensures Bit(Or(c.knownZeros, c.knownOnes), i) == Bit(LowMask(width), i)
    {
      LowMaskBit(width, i);
      ZeroBit(i);
      if width >= 1 && Bit(val, 0) {
        FlipLowBit(width, i);
      }
      AndBit(val, LowMask(width), i);
      AndBit(Not(val), LowMask(width), i);
      NotBit(val, i);
      OrBit(a.knownZeros, a.knownOnes, i);
      OrBit(c.knownZeros, c.knownOnes, i);
    }
    forall i: nat | i >= width
      ensures !Bit(a.knownOnes, i) && !Bit(a.knownZeros, i)
      ensures !Bit(c.knownOnes, i) && !Bit(c.knownZeros, i)
    {
    }
    FromBits(a.knownOnes, width);
    FromBits(a.knownZeros, width);
    FromBits(c.knownOnes, width);
    FromBits(c.knownZeros, width);
    HasConflictBits(a);
    HasConflictBits(c);
    BitsEqual(Or(a.knownZeros, a.knownOnes), LowMask(width));
    BitsEqual(Or(c.knownZeros, c.knownOnes), LowMask(width));
  }

  /** `2^w - 1 - 1` is the low `w` bits without bit 0. */
  lemma FlipLowBit(w: nat, i: nat)
    requires w >= 1
    ensures Bit(LowMask(w) - 1, i) == (0 < i < w)
  {
    assert (LowMask(w) - 1) / 2 == LowMask(w - 1);
    if i > 0 {
      LowMaskBit(w - 1, i - 1);
    }
  }

  /** The corrected `from_constant(width, val)` describes exactly one value
      below `2^width`: the low `width` bits of `val`. */
  lemma FromConstantIntendedExact(width: nat, val: int, v: int)
    requires 0 <= v < Pow2(width)
    ensures IsInstance(FromConstantIntended(width, val), v) <==> v == And(val, LowMask(width))
  {
    var c := FromConstantIntended(width, val);
    var k := And(val, LowMask(width));
    InstanceBits(c, v);
    forall i: nat
      ensures Bit(c.knownOnes, i) == (i < width && Bit(val, i))
      ensures Bit(c.knownZeros, i) == (i < width && !Bit(val, i))
      ensures Bit(k, i) == (i < width && Bit(val, i))
      ensures i >= width ==> !Bit(v, i)
    {
      LowMaskBit(width, i);
      AndBit(val, LowMask(width), i);
      AndBit(Not(val), LowMask(width), i);
      NotBit(val, i);
      if i >= width {
        ToBits(v, width, i);
      }
    }
    if IsInstance(c, v) {
      forall i: nat
        ensures Bit(v, i) == Bit(k, i)
      {
      }
      BitsEqual(v, k);
    }
  }

  /** With width 8 and value 2, `from_constant` as written describes a value
      set that leaves out 2: bit 1 comes out known-zero. */
  lemma FromConstantAsWrittenMissesValue()
    ensures Valid(FromConstantAsWritten(8, 2))
    ensures !IsInstance(FromConstantAsWritten(8, 2), 2)
    ensures IsInstance(FromConstantIntended(8, 2), 2)
  {
    var a := FromConstantAsWritten(8, 2);
    FromConstantFullyKnown(8, 2);
    assert a.knownZeros == LowMask(8);
    InstanceBits(a, 2);
    LowMaskBit(8, 1);
    assert Bit(2, 1);
    FromConstantIntendedExact(8, 2, 2);
    assert And(2, LowMask(8)) == 2 by {
      forall i: nat
        ensures Bit(And(2, LowMask(8)), i) == Bit(2, i)
      {
        AndBit(2, LowMask(8), i);
        LowMaskBit(8, i);
        if i >= 8 {
          ToBits(2, 8, i);
        }
      }
      BitsEqual(And(2, LowMask(8)), 2);
    }
  }

  // ---------------------------------------------------------------------------
  // getIthBit

  /** `getIthBit(i)` as written: both tests read `knownZeros`, so a known-zero
      bit answers 1 and every other bit -1; 0 never comes back. */
  function GetIthBitAsWritten(kb: KnownBits, i: int): (r: Result<int>)
    ensures r.Ok? <==> 0 <= i < kb.width
    ensures r.Ok? ==> r.value != 0
    ensures r.Ok? ==> (r.value == 1 <==> Bit(kb.knownZeros, i))
    ensures r.Ok? ==> r.value == (if Bit(kb.knownZeros, i) then 1 else -1)
  {
    if i >= kb.width then Err(IndexOutOfRange)
    else if i < 0 then Err(NegativeShift)
    else
      var zero := And(kb.knownZeros, Pow2(i));
      var one := And(kb.knownZeros, Pow2(i));
      TestBit(kb.knownZeros, i);
      if one != 0 then Ok(1) else if zero != 0 then Ok(0) else Ok(-1)
  }

  /** `getIthBit(i)` with `one` read from `knownOnes`. */
  function GetIthBit(kb: KnownBits, i: int): (r: Result<int>)
    ensures r.Ok? <==> 0 <= i < kb.width
    ensures r.Ok? ==> r.value == (match CharAt(kb, i) case '1' => 1 case '0' => 0 case _ => -1)
  {
    if i >= kb.width then Err(IndexOutOfRange)
    else if i < 0 then Err(NegativeShift)
    else
      var zero := And(kb.knownZeros, Pow2(i));
      var one := And(kb.knownOnes, Pow2(i));
      TestBit(kb.knownZeros, i);
      TestBit(kb.knownOnes, i);
      if one != 0 then Ok(1) else if zero != 0 then Ok(0) else Ok(-1)
  }

  /** On every known-one bit of a valid value the two versions disagree:
      the version as written answers -1, the intended one 1. */
  lemma GetIthBitDiffers(kb: KnownBits, i: nat)
    requires Valid(kb) && i < kb.width && Bit(kb.knownOnes, i)
    ensures GetIthBitAsWritten(kb, i) == Ok(-1)
    ensures GetIthBit(kb, i) == Ok(1)
  {
    AndBit(kb.knownOnes, kb.knownZeros, i);
    ZeroBit(i);
  }
}
