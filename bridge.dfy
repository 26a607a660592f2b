/** The low eight bits of a Python integer as a `bv8`: what a value computed
    on unbounded integers looks like to the 8-bit Z3 harness. Each lemma says
    that an integer operation, cut to eight bits, is the `bv8` operation. */
module Bv8Bridge {
  import opened PyInt

  /** The low `k` bits of `x` (k <= 8), least significant bit last shifted in. */
  function LowBits(x: int, k: nat): bv8
    requires k <= 8
    decreases k
  {
    if k == 0 then 0 else (LowBits(x / 2, k - 1) << 1) | Lsb(x)
  }

  /** The least significant bit of `x` as a bit-vector 0 or 1. */
  function Lsb(x: int): (r: bv8)
    ensures r <= 1
  {
    if x % 2 == 1 then 1 else 0
  }

  /** `x mod 2^8` as a bit-vector. */
  function ToBv8(x: int): bv8 {
    (x % 256) as bv8
  }

  /** The mask of the low `k` bits. */
  function Ones(k: nat): bv8
    requires k <= 8
  {
    LowBits(-1, k)
  }

  lemma OnesEight()
    ensures Ones(8) == 0xFF
  {
    assert Ones(1) == 1;
    assert Ones(2) == 3;
    assert Ones(3) == 7;
    assert Ones(4) == 15;
    assert Ones(5) == 31;
    assert Ones(6) == 63;
    assert Ones(7) == 127;
  }

  lemma {:induction false} LowBitsNot(x: int, k: nat)
    requires k <= 8
    ensures LowBits(Not(x), k) == LowBits(x, k) ^ Ones(k)
    decreases k
  {
    if k > 0 {
      NotStep(x);
      LowBitsNot(x / 2, k - 1);
    }
  }

  lemma {:induction false} LowBitsAnd(x: int, y: int, k: nat)
    requires k <= 8
    ensures LowBits(And(x, y), k) == LowBits(x, k) & LowBits(y, k)
    decreases k
  {
    if k > 0 {
      AndStep(x, y);
      Halve(x);
      Halve(y);
      LowBitsAnd(x / 2, y / 2, k - 1);
    }
  }

  lemma {:induction false} LowBitsOr(x: int, y: int, k: nat)
    requires k <= 8
    ensures LowBits(Or(x, y), k) == LowBits(x, k) | LowBits(y, k)
    decreases k
  {
    if k > 0 {
      OrStep(x, y);
      Halve(x);
      Halve(y);
      LowBitsOr(x / 2, y / 2, k - 1);
    }
  }

  lemma LsbXor(x: int, y: int)
    ensures Lsb(Xor(x, y)) == Lsb(x) ^ Lsb(y)
  {
    XorStep(x, y);
    Halve(x);
    Halve(y);
  }

  /** Shifting in one bit below each operand commutes with `^`. */
  lemma ShiftInXor(a: bv8, b: bv8, p: bv8, q: bv8)
    requires p <= 1 && q <= 1
    ensures ((a ^ b) << 1) | (p ^ q) == ((a << 1) | p) ^ ((b << 1) | q)
  {
  }

  lemma {:induction false} LowBitsXor(x: int, y: int, k: nat)
    requires k <= 8
    ensures LowBits(Xor(x, y), k) == LowBits(x, k) ^ LowBits(y, k)
    decreases k
  {
    if k > 0 {
      XorStep(x, y);
      LsbXor(x, y);
      LowBitsXor(x / 2, y / 2, k - 1);
      ShiftInXor(LowBits(x / 2, k - 1), LowBits(y / 2, k - 1), Lsb(x), Lsb(y));
    }
  }

  /** `u + v + carry`, cut by the mask `m`. */
  function AddCut(u: bv8, v: bv8, carry: bv8, m: bv8): bv8 {
    (u + v + carry) & m
  }

  /** One full-adder stage: the sum of two values with a bit shifted in below
      each, plus a carry in, cut to one more bit, is the sum of the two values
      plus the carry out, cut and shifted, with the sum bit shifted in. */
  lemma FullAdderStage(a: bv8, b: bv8, m: bv8, p: bv8, q: bv8, cin: bv8, cout: bv8, sum: bv8)
    requires p <= 1 && q <= 1 && cin <= 1
    requires cout == (p & q) | (p & cin) | (q & cin) && sum == p ^ q ^ cin
    ensures (AddCut(a, b, cout, m) << 1) | sum == AddCut((a << 1) | p, (b << 1) | q, cin, (m << 1) | 1)
  {
  }

  lemma Unfold(x: int, k: nat)
    requires 0 < k <= 8
    ensures LowBits(x, k) == (LowBits(x / 2, k - 1) << 1) | Lsb(x)
  {
  }

  /** The integer side of one full-adder stage. */
  lemma AddHalves(x: int, y: int, c: int)
    requires 0 <= c <= 1
    ensures var c' := (x % 2 + y % 2 + c) / 2;
            && 0 <= c' <= 1
            && (x + y + c) / 2 == x / 2 + y / 2 + c'
            && Lsb(x + y + c) == Lsb(x) ^ Lsb(y) ^ Lsb(c)
            && Lsb(c') == (Lsb(x) & Lsb(y)) | (Lsb(x) & Lsb(c)) | (Lsb(y) & Lsb(c))
  {
    Halve(x);
    Halve(y);
  }

  /** The low `k` bits of `x + y + c` are the `bv8` sum cut to `k` bits. */
  predicate SumCut(x: int, y: int, c: int, k: nat)
    requires k <= 8
  {
    LowBits(x + y + c, k) == AddCut(LowBits(x, k), LowBits(y, k), Lsb(c), Ones(k))
  }

  /** The integer side of one stage: the low `k` bits of `x + y + c` are the
      sum of the halves, cut to `k - 1` bits, with the sum bit shifted in. */
  lemma AddStageSum(x: int, y: int, c: int, k: nat)
    requires 0 < k <= 8
    requires 0 <= c <= 1
    requires SumCut(x / 2, y / 2, (x % 2 + y % 2 + c) / 2, k - 1)
    ensures LowBits(x + y + c, k)
         == (AddCut(LowBits(x / 2, k - 1), LowBits(y / 2, k - 1), Lsb((x % 2 + y % 2 + c) / 2), Ones(k - 1)) << 1)
            | Lsb(x + y + c)
  {
    AddHalves(x, y, c);
    Unfold(x + y + c, k);
  }

  /** One stage of the ripple-carry induction, given the claim for the halves. */
  lemma AddStage(x: int, y: int, c: int, k: nat)
    requires 0 < k <= 8
    requires 0 <= c <= 1
    requires SumCut(x / 2, y / 2, (x % 2 + y % 2 + c) / 2, k - 1)
    ensures SumCut(x, y, c, k)
  {
    AddHalves(x, y, c);
    AddStageSum(x, y, c, k);
    Unfold(x, k);
    Unfold(y, k);
    Unfold(-1, k);
    FullAdderStage(
      LowBits(x / 2, k - 1), LowBits(y / 2, k - 1), Ones(k - 1),
      Lsb(x), Lsb(y), Lsb(c), Lsb((x % 2 + y % 2 + c) / 2), Lsb(x + y + c));
  }

  /** Ripple-carry addition, by induction on the number of bits. */
  lemma {:induction false} LowBitsAdd(x: int, y: int, c: int, k: nat)
    requires k <= 8
    requires 0 <= c <= 1
    ensures SumCut(x, y, c, k)
    decreases k
  {
    if k > 0 {
      AddHalves(x, y, c);
      LowBitsAdd(x / 2, y / 2, (x % 2 + y % 2 + c) / 2, k - 1);
      AddStage(x, y, c, k);
    }
  }

  /** Shifting a 7-bit value left and putting a bit in below doubles it and
      adds the bit. */
  lemma ShiftInValue(b: bv8, p: bv8)
    requires b < 128 && p <= 1
    ensures ((b << 1) | p) as int == 2 * (b as int) + p as int
  {
  }

  lemma {:induction false} Pow2Below(k: nat)
    requires k <= 7
    ensures Pow2(k) <= 128
    decreases 7 - k
  {
    if k < 7 {
      Pow2Below(k + 1);
    }
  }

  /** `x >> k` on a Python integer. */
  function Shr(x: int, k: nat): int
    decreases k
  {
    if k == 0 then x else Shr(x / 2, k - 1)
  }

  lemma DoubleProduct(p: int, q: int)
    ensures 2 * (p * q) == (2 * p) * q
  {
  }

  /** `LowBits(x, k)` read as a number is what is left of `x` below `2^k`. */
  lemma {:induction false} LowBitsValue(x: int, k: nat)
    requires k <= 8
    ensures x == Pow2(k) * Shr(x, k) + LowBits(x, k) as int
    ensures LowBits(x, k) as int < Pow2(k)
    decreases k
  {
    if k > 0 {
      var lo := LowBits(x / 2, k - 1);
      LowBitsValue(x / 2, k - 1);
      Pow2Below(k - 1);
      ShiftInValue(lo, Lsb(x));
      Halve(x);
      var p, q := Pow2(k - 1), Shr(x / 2, k - 1);
      assert x == 2 * (p * q) + 2 * (lo as int) + x % 2;
      DoubleProduct(p, q);
    }
  }

  /** The cut of an integer to eight bits is its low eight bits. */
  lemma ToBv8IsLowBits(x: int)
    ensures ToBv8(x) == LowBits(x, 8)
  {
    LowBitsValue(x, 8);
    assert Pow2(8) == 256;
    ModOfSplit(x, Shr(x, 8), LowBits(x, 8) as int);
  }

  lemma ModOfSplit(x: int, q: int, r: int)
    requires x == 256 * q + r && 0 <= r < 256
    ensures x % 256 == r
  {
  }

  lemma ToBv8Not(x: int)
    ensures ToBv8(Not(x)) == !ToBv8(x)
  {
    ToBv8IsLowBits(x);
    ToBv8IsLowBits(Not(x));
    LowBitsNot(x, 8);
    OnesEight();
  }

  lemma ToBv8And(x: int, y: int)
    ensures ToBv8(And(x, y)) == ToBv8(x) & ToBv8(y)
  {
    ToBv8IsLowBits(x);
    ToBv8IsLowBits(y);
    ToBv8IsLowBits(And(x, y));
    LowBitsAnd(x, y, 8);
  }

  lemma ToBv8Or(x: int, y: int)
    ensures ToBv8(Or(x, y)) == ToBv8(x) | ToBv8(y)
  {
    ToBv8IsLowBits(x);
    ToBv8IsLowBits(y);
    ToBv8IsLowBits(Or(x, y));
    LowBitsOr(x, y, 8);
  }

  lemma ToBv8Xor(x: int, y: int)
    ensures ToBv8(Xor(x, y)) == ToBv8(x) ^ ToBv8(y)
  {
    ToBv8IsLowBits(x);
    ToBv8IsLowBits(y);
    ToBv8IsLowBits(Xor(x, y));
    LowBitsXor(x, y, 8);
  }

  lemma ToBv8Add(x: int, y: int)
    ensures ToBv8(x + y) == ToBv8(x) + ToBv8(y)
  {
    ToBv8IsLowBits(x);
    ToBv8IsLowBits(y);
    ToBv8IsLowBits(x + y);
    LowBitsAdd(x, y, 0, 8);
    OnesEight();
  }

  lemma ToBv8LowMask()
    ensures ToBv8(LowMask(8)) == 0xFF
  {
    assert LowMask(8) == 255;
  }
}
