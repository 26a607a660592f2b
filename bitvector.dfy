/** `BitVector`: an integer of a declared width, reduced modulo 2^width when it
    is built. Values are immutable: every operator builds a new one through the
    constructor. A failed `assert` of the source is an `Err` result here. */
module BitVectors {
  import opened PyInt
  import opened Outcomes

  datatype BitVector = BitVector(width: nat, bits: nat)

  /** What construction guarantees: a positive width and `0 <= bits < 2^width`. */
  predicate Valid(v: BitVector) {
    v.width >= 1 && v.bits < Pow2(v.width)
  }

  /** `BitVector(width, bits)`: asserts `width >= 1`, then stores `bits mod 2^width`:
      the one value below `2^width` that differs from `bits` by a multiple of it. */
  function New(width: int, bits: int): (r: Result<BitVector>)
    ensures r.Ok? <==> width >= 1
    ensures r.Ok? ==> Valid(r.value) && r.value.width == width
    ensures r.Ok? ==> (bits - r.value.bits) % Pow2(width) == 0
  {
    if width < 1 then Err(NonPositiveWidth)
    else
      ModCongruent(bits, Pow2(width));
      Ok(BitVector(width, bits % Pow2(width)))
  }

  /** `x` and `x % p` differ by a multiple of `p`. */
  lemma ModCongruent(x: int, p: int)
    requires p >= 1
    ensures (x - x % p) % p == 0
  {
    var y := x - x % p;
    var d, r := y / p, y % p;
    assert y == p * (x / p);
    MultipleBelow(p, x / p - d, r);
  }

  /** Arithmetic helper of `ModCongruent`: a multiple of `p` in `[0, p)` is 0. */
  lemma MultipleBelow(p: int, c: int, r: int)
    requires p >= 1 && r == p * c && 0 <= r < p
    ensures r == 0
  {
    MulBounds(p, c);
  }

  /** Arithmetic helper of `NewUnique`: a nonzero multiple of `p` is at least `p` away from 0. */
  lemma MulBounds(p: int, c: int)
    requires p >= 1
    ensures c >= 1 ==> p * c >= p
    ensures c <= -1 ==> p * c <= -p
  {
  }

  /** Only one value below `p` is congruent to `x` modulo `p`, so the stored
      value is determined by the contract of `New`. */
  lemma NewUnique(width: nat, bits: int, v: nat)
    requires width >= 1 && v < Pow2(width) && (bits - v) % Pow2(width) == 0
    ensures New(width, bits).value.bits == v
  {
    CongruentUnique(bits, New(width, bits).value.bits, v, Pow2(width));
  }

  /** Helper of `NewUnique`: two residues below `p` congruent to one `x` are equal. */
  lemma CongruentUnique(x: int, u: int, v: int, p: int)
    requires p >= 1 && 0 <= u < p && 0 <= v < p
    requires (x - u) % p == 0 && (x - v) % p == 0
    ensures u == v
  {
    var a, b := (x - u) / p, (x - v) / p;
    assert x - u == p * a;
    assert x - v == p * b;
    DiffOfMultiples(p, a, b);
    MulBounds(p, b - a);
  }

  /** Arithmetic helper of `NewUnique`: factoring `p` out of a difference. */
  lemma DiffOfMultiples(p: int, a: int, b: int)
    ensures p * b - p * a == p * (b - a)
  {
  }

  lemma ModBelow(x: int, p: int)
    requires p >= 1 && 0 <= x < 2 * p
    ensures x % p == if x < p then x else x - p
  {
    if x < p {
      assert x == p * 0 + x;
    } else {
      assert x == p * 1 + (x - p);
    }
  }

  /** Construction keeps a value below 2^width and wraps one below 2^(width+1) once. */
  lemma NewWraps(width: nat, bits: int)
    requires width >= 1 && 0 <= bits < 2 * Pow2(width)
    ensures New(width, bits).Ok?
    ensures New(width, bits).value.bits == if bits < Pow2(width) then bits else bits - Pow2(width)
  {
    ModBelow(bits, Pow2(width));
  }

  /** `a + b`: same widths required; the sum wraps once at 2^width. */
  function Add(a: BitVector, b: BitVector): (r: Result<BitVector>)
    requires Valid(a) && Valid(b)
    ensures r.Ok? <==> a.width == b.width
    ensures r.Ok? ==> Valid(r.value) && r.value.width == a.width
    ensures r.Ok? ==> r.value.bits == if a.bits + b.bits < Pow2(a.width) then a.bits + b.bits
                                      else a.bits + b.bits - Pow2(a.width)
  {
    if a.width != b.width then Err(WidthMismatch)
    else NewWraps(a.width, a.bits + b.bits); New(a.width, a.bits + b.bits)
  }

  /** `a - b` as written: after the width check it calls `self.width(...)`,
      and `self.width` is an int, so every call raises. */
  function SubAsWritten(a: BitVector, b: BitVector): (r: Result<BitVector>)
    ensures r.Err?
    ensures r.error == (if a.width == b.width then NotCallable else WidthMismatch)
  {
    if a.width != b.width then Err(WidthMismatch) else Err(NotCallable)
  }

  /** `a - b` as evidently intended: `BitVector(width, a + 2^width - b)`. */
  function Sub(a: BitVector, b: BitVector): (r: Result<BitVector>)
    requires Valid(a) && Valid(b)
    ensures r.Ok? <==> a.width == b.width
    ensures r.Ok? ==> Valid(r.value) && r.value.width == a.width
    ensures r.Ok? ==> r.value.bits == if a.bits >= b.bits then a.bits - b.bits
                                      else a.bits + Pow2(a.width) - b.bits
  {
    if a.width != b.width then Err(WidthMismatch)
    else
      NewWraps(a.width, a.bits + Pow2(a.width) - b.bits);
      New(a.width, a.bits + Pow2(a.width) - b.bits)
  }

  /** Subtracting and adding back the same value gives the original. */
  lemma SubThenAdd(a: BitVector, b: BitVector)
    requires Valid(a) && Valid(b) && a.width == b.width
    ensures Sub(a, b).Ok? && Add(Sub(a, b).value, b) == Ok(a)
  {
  }

  /** The result of a bitwise operator, bit by bit, is `f` of the operand bits. */
  ghost predicate Bitwise(r: BitVector, a: BitVector, b: BitVector, f: (bool, bool) -> bool) {
    forall i: nat :: Bit(r.bits, i) == f(Bit(a.bits, i), Bit(b.bits, i))
  }

  /** A bitwise combination of two `w`-bit values that keeps 0-bits 0 stays
      within `w` bits. */
  lemma BitwiseInRange(x: int, w: nat, a: int, b: int, f: (bool, bool) -> bool)
    requires 0 <= a < Pow2(w) && 0 <= b < Pow2(w)
    requires !f(false, false)
    requires forall i: nat :: Bit(x, i) == f(Bit(a, i), Bit(b, i))
    ensures 0 <= x < Pow2(w)
  {
    forall i: nat | i >= w
      ensures !Bit(x, i)
    {
      ToBits(a, w, i);
      ToBits(b, w, i);
    }
    FromBits(x, w);
  }

  /** `a & b` */
  function BitAnd(a: BitVector, b: BitVector): (r: Result<BitVector>)
    requires Valid(a) && Valid(b)
    ensures r.Ok? <==> a.width == b.width
    ensures r.Ok? ==> Valid(r.value) && r.value.width == a.width
    ensures r.Ok? ==> Bitwise(r.value, a, b, (p, q) => p && q)
  {
    if a.width != b.width then Err(WidthMismatch)
    else
      var x := And(a.bits, b.bits);
      assert forall i: nat :: Bit(x, i) == (Bit(a.bits, i) && Bit(b.bits, i)) by {
        forall i: nat { AndBit(a.bits, b.bits, i); }
      }
      BitwiseInRange(x, a.width, a.bits, b.bits, (p, q) => p && q);
      NewWraps(a.width, x);
      New(a.width, x)
  }

  /** `a | b` */
  function BitOr(a: BitVector, b: BitVector): (r: Result<BitVector>)
    requires Valid(a) && Valid(b)
    ensures r.Ok? <==> a.width == b.width
    ensures r.Ok? ==> Valid(r.value) && r.value.width == a.width
    ensures r.Ok? ==> Bitwise(r.value, a, b, (p, q) => p || q)
  {
    if a.width != b.width then Err(WidthMismatch)
    else
      var x := Or(a.bits, b.bits);
      assert forall i: nat :: Bit(x, i) == (Bit(a.bits, i) || Bit(b.bits, i)) by {
        forall i: nat { OrBit(a.bits, b.bits, i); }
      }
      BitwiseInRange(x, a.width, a.bits, b.bits, (p, q) => p || q);
      NewWraps(a.width, x);
      New(a.width, x)
  }

  /** `a ^ b` */
  function BitXor(a: BitVector, b: BitVector): (r: Result<BitVector>)
    requires Valid(a) && Valid(b)
    ensures r.Ok? <==> a.width == b.width
    ensures r.Ok? ==> Valid(r.value) && r.value.width == a.width
    ensures r.Ok? ==> Bitwise(r.value, a, b, (p, q) => p != q)
  {
    if a.width != b.width then Err(WidthMismatch)
    else
      var x := Xor(a.bits, b.bits);
      assert forall i: nat :: Bit(x, i) == (Bit(a.bits, i) != Bit(b.bits, i)) by {
        forall i: nat { XorBit(a.bits, b.bits, i); }
      }
      BitwiseInRange(x, a.width, a.bits, b.bits, (p, q) => p != q);
      NewWraps(a.width, x);
      New(a.width, x)
  }

  /** Flipping bit `i` of a mask of the low `i` bits gives the low `i + 1` bits. */
  lemma FlipNextBit(x: int, i: nat)
    ensures Xor(Xor(x, LowMask(i)), Pow2(i)) == Xor(x, LowMask(i + 1))
  {
    forall j: nat
      ensures Bit(Xor(Xor(x, LowMask(i)), Pow2(i)), j) == Bit(Xor(x, LowMask(i + 1)), j)
    {
      XorBit(Xor(x, LowMask(i)), Pow2(i), j);
      XorBit(x, LowMask(i), j);
      XorBit(x, LowMask(i + 1), j);
      LowMaskBit(i, j);
      LowMaskBit(i + 1, j);
      Pow2Bit(i, j);
    }
    BitsEqual(Xor(Xor(x, LowMask(i)), Pow2(i)), Xor(x, LowMask(i + 1)));
  }

  /** `~a`: flips bits `0 .. width-1` one at a time. */
  method Invert(a: BitVector) returns (r: BitVector)
    requires Valid(a)
    ensures Valid(r) && r.width == a.width
    ensures r.bits == LowMask(a.width) - a.bits
    ensures forall i: nat :: Bit(r.bits, i) == (i < a.width && !Bit(a.bits, i))
  {
    var bits := a.bits;
    for i := 0 to a.width
      invariant bits == Xor(a.bits, LowMask(i))
    {
      FlipNextBit(a.bits, i);
      bits := Xor(bits, Pow2(i));
    }
    XorBitsSwap(a.bits, LowMask(a.width));
    XorLowMask(a.width, a.bits);
    forall i: nat
      ensures Bit(bits, i) == (i < a.width && !Bit(a.bits, i))
    {
      XorBit(a.bits, LowMask(a.width), i);
      LowMaskBit(a.width, i);
      if i >= a.width {
        ToBits(a.bits, a.width, i);
      }
    }
    NewWraps(a.width, bits);
    var res := New(a.width, bits);
    r := res.value;
  }

  lemma XorBitsSwap(x: int, y: int)
    ensures Xor(x, y) == Xor(y, x)
  {
    forall i: nat
      ensures Bit(Xor(x, y), i) == Bit(Xor(y, x), i)
    {
      XorBit(x, y, i);
      XorBit(y, x, i);
    }
    BitsEqual(Xor(x, y), Xor(y, x));
  }

  /** `~~a == a`. */
  method InvertTwice(a: BitVector) returns (r: BitVector)
    requires Valid(a)
    ensures r == a
  {
    var once := Invert(a);
    r := Invert(once);
  }

  /** `size()` */
  function Size(a: BitVector): nat {
    a.width
  }

  /** `size()` of a constructed vector is the width it was built with, and the
      operators keep it. */
  lemma SizeKept(width: int, bits: int, b: BitVector)
    requires width >= 1 && Valid(b) && b.width == width
    ensures Size(New(width, bits).value) == width
    ensures Size(Add(New(width, bits).value, b).value) == width
    ensures Size(BitXor(New(width, bits).value, b).value) == width
  {
  }
}
