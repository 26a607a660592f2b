/** The Z3 oracle's vocabulary at the harness width of 8 bits: an abstract
    known-bits value is a pair of `bv8` masks `(zeros, ones)`, and the solver
    constraints the oracle adds for operands and instances are predicates. */
module Oracle {
  import opened Outcomes

  /** `contains(x, y)`: `x | y == x`. */
  predicate Contains(x: bv8, y: bv8) {
    x | y == x
  }

  /** `contains` is the submask test: no bit of `y` is missing from `x`.
      It is reflexive, transitive, and everything contains 0. */
  lemma ContainsIsSubmask(x: bv8, y: bv8, z: bv8)
    ensures Contains(x, y) <==> y & !x == 0
    ensures Contains(x, x) && Contains(x, 0)
    ensures Contains(x, y) && Contains(y, z) ==> Contains(x, z)
    ensures Contains(x, y) ==> y <= x
  {
  }

  /** The tuple `(zeros, ones)` the oracle creates for an abstract operand. */
  datatype AbsValue = AbsValue(zeros: bv8, ones: bv8)

  /** The constraint `getAbsValue` adds: no bit known both ways. */
  predicate IsValid(a: AbsValue) {
    a.zeros & a.ones == 0
  }

  /** The constraints `getInstanceFromAbsValue` adds: the known ones are set
      in `x` and the known zeros are clear in it. */
  predicate IsInstance(x: bv8, a: AbsValue) {
    Contains(x, a.ones) && Contains(!x, a.zeros)
  }

  /** `getMaxFromAbsValue`: `~zeros`. */
  function GetMax(a: AbsValue): bv8 {
    !a.zeros
  }

  /** `getMinFromAbsValue`: `ones`. */
  function GetMin(a: AbsValue): bv8 {
    a.ones
  }

  /** An instance has its known ones set and its known zeros clear. */
  lemma InstanceMasks(x: bv8, a: AbsValue)
    ensures IsInstance(x, a) <==> Contains(x, a.ones) && x & a.zeros == 0
  {
  }

  /** The instances are exactly the values bitwise between the minimum and the
      maximum. */
  lemma InstanceBetween(x: bv8, a: AbsValue)
    ensures IsInstance(x, a) <==> Contains(x, GetMin(a)) && Contains(GetMax(a), x)
  {
  }

  /** An instance lies between the minimum and the maximum as a number too. */
  lemma InstanceInRange(x: bv8, a: AbsValue)
    requires IsInstance(x, a)
    ensures GetMin(a) <= x <= GetMax(a)
  {
  }

  /** For a valid value the minimum and the maximum are instances. */
  lemma BoundsAreInstances(a: AbsValue)
    requires IsValid(a)
    ensures IsInstance(GetMin(a), a) && IsInstance(GetMax(a), a)
  {
  }

  /** A valid abstract value has at least one instance; an invalid one has none. */
  lemma ValidIffInhabited(a: AbsValue)
    ensures IsValid(a) <==> exists x: bv8 :: IsInstance(x, a)
  {
    if IsValid(a) {
      assert IsInstance(a.ones, a);
    }
  }

  /** The Python values `isAbsValue` is asked about. */
  datatype PyValue = PyTuple(items: seq<bv8>) | PyScalar(value: bv8)

  /** `isAbsValue(v)`: a tuple of length 2. */
  predicate IsAbsValue(v: PyValue) {
    v.PyTuple? && |v.items| == 2
  }

  /** The kinds of symbolic operand `Oracle.getOperands` creates: an abstract
      value `(zeros, ones)`, or a new width. */
  datatype Kind = AbstractKind | WidthKind

  /** A symbolic operand, once the solver has picked its value. */
  datatype Operand = Abstract(a: AbsValue) | Width(n: bv8)

  function KindOf(op: Operand): Kind {
    if op.Abstract? then AbstractKind else WidthKind
  }

  /** The width the harness passes to the oracle, as Z3 reads the Python int 8. */
  const WIDTH: bv8 := 8

  /** Z3's `<` on bit-vectors is signed: flipping the sign bit maps signed order
      to unsigned order. */
  predicate SignedLess(x: bv8, y: bv8) {
    (x ^ 0x80) < (y ^ 0x80)
  }

  /** `Oracle.getOperands(opName, ...)`: the operands it creates for each name. */
  function GetOperands(opName: string): (r: Result<seq<Kind>>)
    ensures r.Ok? <==> opName in ["OR", "XOR", "AND", "ADD", "SUB", "TRUNC"]
    ensures r.Ok? ==> |r.value| == 2 && r.value[0] == AbstractKind
    ensures r.Ok? ==> (r.value[1] == WidthKind <==> opName == "TRUNC")
  {
    if opName == "OR" || opName == "XOR" || opName == "AND" || opName == "ADD" || opName == "SUB" then
      Ok([AbstractKind, AbstractKind])
    else if opName == "TRUNC" then
      Ok([AbstractKind, WidthKind])
    else
      Err(Unsupported)
  }

  /** The constraints the oracle adds on the operands it creates for `opName`:
      each abstract operand is valid, and a new width is below `WIDTH` in Z3's
      signed order. */
  predicate Admissible(opName: string, ops: seq<Operand>) {
    GetOperands(opName).Ok? && |ops| == |GetOperands(opName).value| &&
    (forall k :: 0 <= k < |ops| ==> KindOf(ops[k]) == GetOperands(opName).value[k]) &&
    (forall k :: 0 <= k < |ops| ==> match ops[k]
       case Abstract(a) => IsValid(a)
       case Width(n) => SignedLess(n, WIDTH))
  }

  /** The signed comparison admits widths 128..255 beside 0..7: to Z3 those
      are negative numbers. */
  lemma TruncWidthSigned(n: bv8)
    ensures Admissible("TRUNC", [Abstract(AbsValue(0, 0)), Width(n)]) <==> n < 8 || n >= 128
  {
  }
}
