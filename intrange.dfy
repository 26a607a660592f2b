/** The unsigned interval domain: a `ConstantIntRange(umin, umax)` stands for
    the `BitVector`s `v` of its width with `umin <= v <= umax`, compared as
    unsigned numbers. Addition and subtraction return the interval of sums or
    differences when nothing wraps, and the whole range otherwise. */
module IntRange {
  import opened PyInt
  import opened Outcomes
  import opened BitVectors

  /** `bit_add_no_overflow(x, y)`: `x.bits + y.bits < 2^x.width`. For two
      same-width values it holds exactly when the sum does not wrap. */
  function BitAddNoOverflow(x: BitVector, y: BitVector): (r: bool)
    ensures Valid(x) && Valid(y) && x.width == y.width ==>
              (r <==> Add(x, y).value.bits == x.bits + y.bits)
  {
    x.bits + y.bits < Pow2(x.width)
  }

  /** `bit_sub_no_overflow(x, y)`: `x.bits >= y.bits`. For two same-width
      values it holds exactly when the difference does not wrap. */
  function BitSubNoOverflow(x: BitVector, y: BitVector): (r: bool)
    ensures Valid(x) && Valid(y) && x.width == y.width ==>
              (r <==> Sub(x, y).value.bits == x.bits - y.bits)
  {
    x.bits >= y.bits
  }

  /** `ULE(x, y)`: `x <= y`, on the stored bits as unsigned numbers. */
  predicate ULE(x: BitVector, y: BitVector) {
    x.bits <= y.bits
  }

  /** The number a `w`-bit Z3 bit-vector stands for under Python's `<=`,
      which Z3 reads as the signed comparison: values from `2^(w-1)` on are
      negative. */
  function SignedValue(v: BitVector): (r: int)
    requires Valid(v)
    ensures -(Pow2(v.width - 1) as int) <= r < Pow2(v.width - 1)
    ensures r == v.bits || r == v.bits - Pow2(v.width)
  {
    if v.bits >= Pow2(v.width - 1) then v.bits - Pow2(v.width) else v.bits
  }

  /** `ULE(x, y)` as defined in the module, `x <= y`, applied to the Z3
      bit-vectors the bounds and instances are in the verifier. */
  predicate ULEAsWritten(x: BitVector, y: BitVector)
    requires Valid(x) && Valid(y)
  {
    SignedValue(x) <= SignedValue(y)
  }

  /** The as-written compare agrees with the unsigned one when both values lie
      in the same half of the range, and is its opposite when they do not. */
  lemma ULEAsWrittenSameHalf(x: BitVector, y: BitVector)
    requires Valid(x) && Valid(y) && x.width == y.width
    ensures ULEAsWritten(x, y) <==> (ULE(x, y) <==> (x.bits < Pow2(x.width - 1) <==> y.bits < Pow2(x.width - 1)))
  {
  }

  /** On the verifier's 16-bit operands the as-written compare misreads
      ranges that cross the middle: `[0, 0x8000]` has instances but fails the
      as-written `getConstraint`, and `[0xFFFF, 1]` has none but passes it. */
  lemma SignedConstraintMisreads16()
    ensures Pow2(16) == 65536 && Pow2(15) == 32768
    ensures var r := ConstantIntRange(BitVector(16, 0), BitVector(16, 0x8000));
            GetConstraint(r) && Contains(r, 16, BitVector(16, 0x8000)) && !ULEAsWritten(r.umin, r.umax)
    ensures var r := ConstantIntRange(BitVector(16, 0xFFFF), BitVector(16, 1));
            !GetConstraint(r) && ULEAsWritten(r.umin, r.umax)
  {
    assert Pow2(8) == 256;
  }

  datatype ConstantIntRange = ConstantIntRange(umin: BitVector, umax: BitVector)

  /** Both bounds are `w`-bit values built by the `BitVector` constructor. */
  predicate Bounds(r: ConstantIntRange, w: nat) {
    Valid(r.umin) && Valid(r.umax) && r.umin.width == w && r.umax.width == w
  }

  /** `getConstraint()`: `[ULE(umin, umax)]`. */
  predicate GetConstraint(r: ConstantIntRange) {
    ULE(r.umin, r.umax)
  }

  /** `getInstanceConstraint(inst)`: `[ULE(umin, inst), ULE(inst, umax)]`. */
  predicate GetInstanceConstraint(r: ConstantIntRange, inst: BitVector) {
    ULE(r.umin, inst) && ULE(inst, r.umax)
  }

  /** An instance of a range of width `w`: a `w`-bit value inside it. */
  predicate Contains(r: ConstantIntRange, w: nat, v: BitVector) {
    Valid(v) && v.width == w && GetInstanceConstraint(r, v)
  }

  /** A range whose bounds are `w`-bit values satisfies `getConstraint` exactly
      when it has an instance. */
  lemma ConstraintIffInhabited(r: ConstantIntRange, w: nat)
    requires Bounds(r, w)
    ensures GetConstraint(r) <==> exists v :: Contains(r, w, v)
  {
    if GetConstraint(r) {
      assert Contains(r, w, r.umin);
    }
  }

  /** `ConstantIntRange.from_constant(val)`: `[val, val]`. */
  function FromConstant(v: BitVector): (r: ConstantIntRange)
    ensures Valid(v) ==> Bounds(r, v.width) && GetConstraint(r)
    ensures Valid(v) ==> forall u :: Contains(r, v.width, u) <==> u == v
  {
    ConstantIntRange(v, v)
  }

  /** `ConstantIntRange.maxRange(width)`: `[0, 2^width - 1]`. */
  function MaxRange(width: nat): (r: ConstantIntRange)
    ensures width >= 1 ==> Bounds(r, width) && GetConstraint(r)
    ensures forall u :: Valid(u) && u.width == width ==> Contains(r, width, u)
  {
    ConstantIntRange(BitVector(width, 0), BitVector(width, LowMask(width)))
  }

  /** `addImpl(x, y)`. Both candidate bounds `x.umin + y.umin` and
      `x.umax + y.umax` are built before the choice, so a width mismatch in
      either pair fails; the no-overflow tests pick the sums or `maxRange`. */
  function AddImpl(x: ConstantIntRange, y: ConstantIntRange): (r: Result<ConstantIntRange>)
    requires Valid(x.umin) && Valid(x.umax) && Valid(y.umin) && Valid(y.umax)
    ensures r.Ok? <==> x.umin.width == y.umin.width && x.umax.width == y.umax.width
    ensures r.Ok? && BitAddNoOverflow(x.umin, y.umin) && BitAddNoOverflow(x.umax, y.umax) ==>
              r.value.umin.bits == x.umin.bits + y.umin.bits &&
              r.value.umax.bits == x.umax.bits + y.umax.bits
    ensures r.Ok? && !(BitAddNoOverflow(x.umin, y.umin) && BitAddNoOverflow(x.umax, y.umax)) ==>
              r.value == MaxRange(x.umin.width)
  {
    var minOverflow := BitAddNoOverflow(x.umin, y.umin);
    var maxOverflow := BitAddNoOverflow(x.umax, y.umax);
    var cond := minOverflow && maxOverflow;
    var retA := MaxRange(BitVectors.Size(x.umin));
    var lo :- Add(x.umin, y.umin);
    var hi :- Add(x.umax, y.umax);
    Ok(ConstantIntRange(if cond then lo else retA.umin, if cond then hi else retA.umax))
  }

  /** `subImpl(x, y)` as written: it builds `x.umin - y.umax` first, and
      `BitVector.__sub__` fails on every call, so `subImpl` always fails. */
  function SubImplAsWritten(x: ConstantIntRange, y: ConstantIntRange): (r: Result<ConstantIntRange>)
    ensures r.Err?
    ensures r.error == (if x.umin.width == y.umax.width then NotCallable else WidthMismatch)
  {
    var cond := BitSubNoOverflow(x.umin, y.umax) && BitSubNoOverflow(x.umax, y.umin);
    var retA := MaxRange(BitVectors.Size(x.umin));
    match SubAsWritten(x.umin, y.umax)
    case Err(e) => Err(e)
    case Ok(lo) =>
      match SubAsWritten(x.umax, y.umin)
      case Err(e) => Err(e)
      case Ok(hi) => Ok(ConstantIntRange(if cond then lo else retA.umin, if cond then hi else retA.umax))
  }

  /** `subImpl(x, y)` with the intended `BitVector` subtraction: the interval
      `[x.umin - y.umax, x.umax - y.umin]` when neither end underflows, the
      whole range otherwise. */
  function SubImpl(x: ConstantIntRange, y: ConstantIntRange): (r: Result<ConstantIntRange>)
    requires Valid(x.umin) && Valid(x.umax) && Valid(y.umin) && Valid(y.umax)
    ensures r.Ok? <==> x.umin.width == y.umax.width && x.umax.width == y.umin.width
    ensures r.Ok? && BitSubNoOverflow(x.umin, y.umax) && BitSubNoOverflow(x.umax, y.umin) ==>
              r.value.umin.bits == x.umin.bits - y.umax.bits &&
              r.value.umax.bits == x.umax.bits - y.umin.bits
    ensures r.Ok? && !(BitSubNoOverflow(x.umin, y.umax) && BitSubNoOverflow(x.umax, y.umin)) ==>
              r.value == MaxRange(x.umin.width)
  {
    var cond := BitSubNoOverflow(x.umin, y.umax) && BitSubNoOverflow(x.umax, y.umin);
    var retA := MaxRange(BitVectors.Size(x.umin));
    var lo :- Sub(x.umin, y.umax);
    var hi :- Sub(x.umax, y.umin);
    Ok(ConstantIntRange(if cond then lo else retA.umin, if cond then hi else retA.umax))
  }

  /** The basic constraint check for `addImpl`: on valid ranges of one width
      the result is a valid range of that width. */
  lemma AddImplValid(x: ConstantIntRange, y: ConstantIntRange, w: nat)
    requires Bounds(x, w) && Bounds(y, w) && GetConstraint(x) && GetConstraint(y)
    ensures AddImpl(x, y).Ok?
    ensures Bounds(AddImpl(x, y).value, w) && GetConstraint(AddImpl(x, y).value)
  {
  }

  /** The soundness check for `addImpl`: the wrapped sum of any instances lies
      in the result. */
  lemma AddImplSound(x: ConstantIntRange, y: ConstantIntRange, w: nat, a: BitVector, b: BitVector)
    requires Bounds(x, w) && Bounds(y, w) && GetConstraint(x) && GetConstraint(y)
    requires Contains(x, w, a) && Contains(y, w, b)
    ensures AddImpl(x, y).Ok? && Add(a, b).Ok?
    ensures Contains(AddImpl(x, y).value, w, Add(a, b).value)
  {
  }

  /** The precision check for `addImpl` in its no-overflow branch: every value
      of the result is the sum of an instance of `x` and one of `y`. */
  lemma AddImplPrecise(x: ConstantIntRange, y: ConstantIntRange, w: nat, g: BitVector)
    requires Bounds(x, w) && Bounds(y, w) && GetConstraint(x) && GetConstraint(y)
    requires BitAddNoOverflow(x.umin, y.umin) && BitAddNoOverflow(x.umax, y.umax)
    requires Contains(AddImpl(x, y).value, w, g)
    ensures exists a, b :: Contains(x, w, a) && Contains(y, w, b) && Add(a, b) == Ok(g)
  {
    var ab := if x.umax.bits <= g.bits - y.umin.bits then x.umax.bits else g.bits - y.umin.bits;
    var a := BitVector(w, ab);
    var b := BitVector(w, g.bits - ab);
    assert Contains(x, w, a) && Contains(y, w, b);
    assert Add(a, b) == Ok(g);
  }

  /** In the overflow branch `addImpl` is not precise: `[255, 255] + [1, 1]`
      over 8 bits gives the whole range, and only 0 is a sum. */
  lemma AddImplImpreciseOnOverflow()
    ensures var x, y := FromConstant(BitVector(8, 255)), FromConstant(BitVector(8, 1));
            && AddImpl(x, y) == Ok(MaxRange(8))
            && Contains(MaxRange(8), 8, BitVector(8, 1))
            && forall a, b :: Contains(x, 8, a) && Contains(y, 8, b) ==> Add(a, b) == Ok(BitVector(8, 0))
  {
    assert Pow2(8) == 256;
  }

  /** The basic constraint check for the intended `subImpl`. */
  lemma SubImplValid(x: ConstantIntRange, y: ConstantIntRange, w: nat)
    requires Bounds(x, w) && Bounds(y, w) && GetConstraint(x) && GetConstraint(y)
    ensures SubImpl(x, y).Ok?
    ensures Bounds(SubImpl(x, y).value, w) && GetConstraint(SubImpl(x, y).value)
  {
  }

  /** The soundness check for the intended `subImpl`: the wrapped difference of
      any instances lies in the result. */
  lemma SubImplSound(x: ConstantIntRange, y: ConstantIntRange, w: nat, a: BitVector, b: BitVector)
    requires Bounds(x, w) && Bounds(y, w) && GetConstraint(x) && GetConstraint(y)
    requires Contains(x, w, a) && Contains(y, w, b)
    ensures SubImpl(x, y).Ok? && Sub(a, b).Ok?
    ensures Contains(SubImpl(x, y).value, w, Sub(a, b).value)
  {
  }

  /** The precision check for the intended `subImpl` in its no-underflow
      branch: every value of the result is a difference of instances. */
  lemma SubImplPrecise(x: ConstantIntRange, y: ConstantIntRange, w: nat, g: BitVector)
    requires Bounds(x, w) && Bounds(y, w) && GetConstraint(x) && GetConstraint(y)
    requires BitSubNoOverflow(x.umin, y.umax) && BitSubNoOverflow(x.umax, y.umin)
    requires Contains(SubImpl(x, y).value, w, g)
    ensures exists a, b :: Contains(x, w, a) && Contains(y, w, b) && Sub(a, b) == Ok(g)
  {
    var ab := if x.umin.bits >= g.bits + y.umin.bits then x.umin.bits else g.bits + y.umin.bits;
    var a := BitVector(w, ab);
    var b := BitVector(w, ab - g.bits);
    assert Contains(x, w, a) && Contains(y, w, b);
    assert Sub(a, b) == Ok(g);
  }
}
