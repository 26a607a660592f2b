/** Python's unbounded integers read as infinite two's-complement bit strings:
    the semantics of `~`, `&`, `|`, `^` and `1 << i` that the modelled library
    relies on. Division by 2 is Euclidean in Dafny, which for a positive divisor
    is Python's floor division, so `x / 2` and `x % 2` below are Python's `x >> 1`
    and `x & 1` for negative `x` too. */
module PyInt {

  /** `1 << n` */
  function Pow2(n: nat): (r: nat)
    ensures r >= 1
  {
    if n == 0 then 1 else 2 * Pow2(n - 1)
  }

  /** `(1 << w) - 1`: the low `w` bits set. */
  function LowMask(w: nat): nat {
    Pow2(w) - 1
  }

  /** Python's `~x`. */
  function Not(x: int): int {
    -x - 1
  }

  /** Bit `i` of `x`, that is `(x >> i) & 1 == 1`. */
  function Bit(x: int, i: nat): bool
    decreases i
  {
    if i == 0 then x % 2 == 1 else Bit(x / 2, i - 1)
  }

  /** Distance from the fixed points 0 and -1 of halving; recursion measure. */
  function Size(x: int): nat {
    if x >= 0 then x else -x - 1
  }

  /** Python's `x & y`. */
  function And(x: int, y: int): int
    decreases Size(x) + Size(y)
  {
    if x == 0 || y == 0 then 0
    else if x == -1 then y
    else if y == -1 then x
    else 2 * And(x / 2, y / 2) + (x % 2) * (y % 2)
  }

  /** Python's `x | y`. */
  function Or(x: int, y: int): int
    decreases Size(x) + Size(y)
  {
    if x == 0 then y
    else if y == 0 then x
    else if x == -1 || y == -1 then -1
    else 2 * Or(x / 2, y / 2) + (if x % 2 == 1 || y % 2 == 1 then 1 else 0)
  }

  /** Python's `x ^ y`. */
  function Xor(x: int, y: int): int
    decreases Size(x) + Size(y)
  {
    if x == 0 then y
    else if y == 0 then x
    else if x == -1 then Not(y)
    else if y == -1 then Not(x)
    else 2 * Xor(x / 2, y / 2) + (x % 2 + y % 2) % 2
  }

  // ---------------------------------------------------------------------------
  // One halving step of each operation: the low bit and the rest.

  lemma Halve(x: int)
    ensures x == 2 * (x / 2) + x % 2
    ensures 0 <= x % 2 < 2
  {
  }

  lemma NotStep(x: int)
    ensures Not(x) / 2 == Not(x / 2)
    ensures Not(x) % 2 == 1 - x % 2
  {
  }

  lemma AndStep(x: int, y: int)
    ensures And(x, y) / 2 == And(x / 2, y / 2)
    ensures And(x, y) % 2 == (x % 2) * (y % 2)
  {
    if x == 0 || y == 0 {
    } else if x == -1 {
      assert And(x / 2, y / 2) == y / 2;
    } else if y == -1 {
      assert And(x / 2, y / 2) == x / 2;
    }
  }

  lemma OrStep(x: int, y: int)
    ensures Or(x, y) / 2 == Or(x / 2, y / 2)
    ensures Or(x, y) % 2 == (if x % 2 == 1 || y % 2 == 1 then 1 else 0)
  {
    if x == 0 {
      assert Or(x / 2, y / 2) == y / 2;
    } else if y == 0 {
      assert Or(x / 2, y / 2) == x / 2;
    } else if x == -1 {
      assert Or(x / 2, y / 2) == -1;
    } else if y == -1 {
      assert Or(x / 2, y / 2) == -1;
    }
  }

  lemma XorStep(x: int, y: int)
    ensures Xor(x, y) / 2 == Xor(x / 2, y / 2)
    ensures Xor(x, y) % 2 == (x % 2 + y % 2) % 2
  {
    if x == 0 {
      assert Xor(x / 2, y / 2) == y / 2;
    } else if y == 0 {
      assert Xor(x / 2, y / 2) == x / 2;
    } else if x == -1 {
      assert Xor(x / 2, y / 2) == Not(y / 2);
    } else if y == -1 {
      assert Xor(x / 2, y / 2) == Not(x / 2);
    }
  }

  // ---------------------------------------------------------------------------
  // Bit-by-bit characterisation of the operations.

  lemma {:induction false} ZeroBit(i: nat)
    ensures !Bit(0, i)
  {
    if i > 0 {
      ZeroBit(i - 1);
    }
  }

  lemma {:induction false} NotBit(x: int, i: nat)
    ensures Bit(Not(x), i) == !Bit(x, i)
    decreases i
  {
    NotStep(x);
    if i > 0 {
      NotBit(x / 2, i - 1);
    }
  }

  lemma {:induction false} AndBit(x: int, y: int, i: nat)
    ensures Bit(And(x, y), i) == (Bit(x, i) && Bit(y, i))
    decreases i
  {
    AndStep(x, y);
    if i > 0 {
      AndBit(x / 2, y / 2, i - 1);
    }
  }

  lemma {:induction false} OrBit(x: int, y: int, i: nat)
    ensures Bit(Or(x, y), i) == (Bit(x, i) || Bit(y, i))
    decreases i
  {
    OrStep(x, y);
    if i > 0 {
      OrBit(x / 2, y / 2, i - 1);
    }
  }

  lemma {:induction false} XorBit(x: int, y: int, i: nat)
    ensures Bit(Xor(x, y), i) == (Bit(x, i) != Bit(y, i))
    decreases i
  {
    XorStep(x, y);
    if i > 0 {
      XorBit(x / 2, y / 2, i - 1);
    }
  }

  /** `1 << j` has exactly bit `j` set. */
  lemma {:induction false} Pow2Bit(j: nat, i: nat)
    ensures Bit(Pow2(j), i) == (i == j)
  {
    if i == 0 {
    } else if j == 0 {
      ZeroBit(i - 1);
    } else {
      Pow2Bit(j - 1, i - 1);
    }
  }

  /** `(1 << w) - 1` has exactly the bits below `w` set. */
  lemma {:induction false} LowMaskBit(w: nat, i: nat)
    ensures Bit(LowMask(w), i) == (i < w)
  {
    if w == 0 {
      ZeroBit(i);
    } else if i > 0 {
      assert LowMask(w) / 2 == LowMask(w - 1);
      LowMaskBit(w - 1, i - 1);
    }
  }

  /** Two integers with the same bits are equal. */
  lemma {:induction false} BitsEqual(x: int, y: int)
    requires forall i: nat :: Bit(x, i) == Bit(y, i)
    ensures x == y
    decreases Size(x) + Size(y)
  {
    assert Bit(x, 0) == Bit(y, 0);
    if (x == 0 || x == -1) && (y == 0 || y == -1) {
    } else {
      forall i: nat
        ensures Bit(x / 2, i) == Bit(y / 2, i)
      {
        assert Bit(x, i + 1) == Bit(y, i + 1);
      }
      BitsEqual(x / 2, y / 2);
      Halve(x);
      Halve(y);
    }
  }

  /** A value with no bit at or above `w` lies in `[0, 2^w)`. */
  lemma {:induction false} FromBits(x: int, w: nat)
    requires forall i: nat :: i >= w ==> !Bit(x, i)
    ensures 0 <= x < Pow2(w)
    decreases w
  {
    if w == 0 {
      forall i: nat
        ensures Bit(x, i) == Bit(0, i)
      {
        ZeroBit(i);
      }
      BitsEqual(x, 0);
    } else {
      forall i: nat | i >= w - 1
        ensures !Bit(x / 2, i)
      {
        assert !Bit(x, i + 1);
      }
      FromBits(x / 2, w - 1);
      Halve(x);
    }
  }

  /** A value in `[0, 2^w)` has no bit at or above `w`. */
  lemma {:induction false} ToBits(x: int, w: nat, i: nat)
    requires 0 <= x < Pow2(w)
    requires i >= w
    ensures !Bit(x, i)
  {
    if w == 0 {
      ZeroBit(i);
    } else {
      ToBits(x / 2, w - 1, i - 1);
    }
  }

  /** The bits of `x` and of `y` are disjoint. */
  predicate Disjoint(x: int, y: int) {
    And(x, y) == 0
  }

  lemma DisjointBit(x: int, y: int, i: nat)
    requires Disjoint(x, y)
    ensures !(Bit(x, i) && Bit(y, i))
  {
    AndBit(x, y, i);
    ZeroBit(i);
  }

  lemma DisjointFromBits(x: int, y: int)
    requires forall i: nat :: !(Bit(x, i) && Bit(y, i))
    ensures Disjoint(x, y)
  {
    forall i: nat
      ensures Bit(And(x, y), i) == Bit(0, i)
    {
      AndBit(x, y, i);
      ZeroBit(i);
    }
    BitsEqual(And(x, y), 0);
  }

  /** On disjoint bits, `|` is addition (how `acc |= 1 << i` grows a mask). */
  lemma {:induction false} OrDisjointIsAdd(x: int, y: int)
    requires x >= 0 && y >= 0
    requires Disjoint(x, y)
    ensures Or(x, y) == x + y
    decreases x + y
  {
    if x != 0 && y != 0 {
      AndStep(x, y);
      OrStep(x, y);
      Halve(x);
      Halve(y);
      OrDisjointIsAdd(x / 2, y / 2);
    }
  }

  /** `x & (1 << i)` is `1 << i` when bit `i` is set and 0 otherwise. */
  lemma TestBit(x: int, i: nat)
    ensures And(x, Pow2(i)) == if Bit(x, i) then Pow2(i) else 0
  {
    var r := if Bit(x, i) then Pow2(i) else 0;
    forall j: nat
      ensures Bit(And(x, Pow2(i)), j) == Bit(r, j)
    {
      AndBit(x, Pow2(i), j);
      Pow2Bit(i, j);
      ZeroBit(j);
    }
    BitsEqual(And(x, Pow2(i)), r);
  }

  /** `(2^w - 1) ^ x` is `2^w - 1 - x` for `x` in `[0, 2^w)`. */
  lemma {:induction false} XorLowMask(w: nat, x: int)
    requires 0 <= x < Pow2(w)
    ensures Xor(LowMask(w), x) == LowMask(w) - x
  {
    if w > 0 {
      XorStep(LowMask(w), x);
      assert LowMask(w) / 2 == LowMask(w - 1);
      XorLowMask(w - 1, x / 2);
      Halve(x);
      Halve(Xor(LowMask(w), x));
    }
  }
}
