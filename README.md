# Known bits and unsigned ranges for fixed-width integers

This project is a Dafny model of the small abstract-interpretation library in
xdsl's known-bits analysis. It covers:

- **`BitVector`**: an integer of a declared width, reduced modulo `2^width`
  when it is built.
- **`KnownBits`**: a partially known integer, as a pair of masks
  (`knownZeros`, `knownOnes`). Its text form has one character per bit,
  least significant bit first, each `'0'`, `'1'` or `'X'`.
- **The Z3 oracle's vocabulary**: an abstract operand is a pair of 8-bit
  masks `(zeros, ones)`. It is valid when `zeros & ones == 0`. An instance
  of it has the ones set and the zeros clear.
- **The known-bits transfer functions of the harness**: `orImpl`,
  `AndImpl`, `XorImpl`, `TruncImpl`, `AddImpl` and `SubImpl`, with their
  concrete operations. The model also holds the theorems the harness asks
  the solver for: the result is valid, it is sound (every concrete result
  is an instance of the abstract result), and it is precise (every instance
  of the abstract result is a concrete result).
- **`ConstantIntRange`**: the unsigned interval domain, with `addImpl` and
  `subImpl` and their validity, their soundness, and their precision where
  no bound wraps.
- **The IR rules of the analysis pass**: the `Addi` carry arithmetic on
  unbounded integers, the `Constant` string builder, the default for
  operands without an attribute, and the delegation of `AndI`, `OrI` and
  `XOrI` to the harness functions.

How the modules map to the code:

- **`PyInt`** defines Python's integer operators `~ & | ^` on unbounded
  `int`, with their infinite two's-complement meaning (`~x == -x - 1`), and
  the bit-by-bit lemmas about them.
- **`BitVectors`, `KnownBitsDomain`, `IntRange` and `KnownBitsAnalysis`**
  work on these operators, as the Python code does.
- **`Oracle` and `Checks`** work on `bv8`, because the harness fixes
  `WIDTH = 8` and Z3 bit-vectors wrap at eight bits.
- **`Bv8Bridge`** cuts an `int` to its low eight bits. It proves that the cut
  commutes with `~ & | ^ +`, which is how the `Addi` rule on unbounded
  integers is tied to the harness's 8-bit `AddImpl`.
- **`Outcomes`** holds the `Result` and `Option` types. A failed `assert`
  or a Python exception is an `Err` result.

Loops in the source are methods with loop invariants, each proved against
a function that specifies it:

- `__invert__` and `from_string`.
- `to_string` and `from_constant`.
- The `Constant` rule.

`SubImpl`'s in-place swap of `opList[1]` is a method on an `array`.
Records the source never updates after construction are datatypes.

## Model

| member | source | states |
|---|---|---|
| BitVectors.New | xdsl/utils/BitVector.py:5-9 | construction succeeds exactly when `width >= 1`; the result has that width, `0 <= bits < 2^width`, and differs from the given `bits` by a multiple of `2^width` (so `BitVector(8, -1)` holds 255) |
| BitVectors.NewUnique | xdsl/utils/BitVector.py:7 | any value below `2^width` congruent to `bits` modulo `2^width` is the stored one, for every integer `bits` |
| BitVectors.NewWraps | xdsl/utils/BitVector.py:5-9 | `bits mod 2^width` keeps a value below `2^width` and subtracts `2^width` once from one below `2^(width+1)` |
| BitVectors.Add | xdsl/utils/BitVector.py:11-13 | fails exactly on a width mismatch; otherwise same width, and the sum wraps once at `2^width` |
| BitVectors.SubAsWritten | xdsl/utils/BitVector.py:15-17 | `__sub__` as written fails on every call: a width mismatch on different widths, a call of the int `width` otherwise |
| BitVectors.Sub | xdsl/utils/BitVector.py:15-17 | the intended subtraction: fails exactly on a width mismatch, otherwise `a - b` wrapped at `2^width` |
| BitVectors.SubThenAdd | xdsl/utils/BitVector.py:11-17 | subtracting `b` and adding it back gives `a` |
| BitVectors.BitAnd | xdsl/utils/BitVector.py:19-21 | fails exactly on a width mismatch; every bit of the result is the AND of the operand bits, and it stays below `2^width` |
| BitVectors.BitOr | xdsl/utils/BitVector.py:23-25 | the same for OR |
| BitVectors.BitXor | xdsl/utils/BitVector.py:27-29 | the same for XOR |
| BitVectors.Invert | xdsl/utils/BitVector.py:31-35 | the loop flips exactly bits `0 .. width-1`: the result is `2^width - 1 - bits`, same width |
| BitVectors.InvertTwice | xdsl/utils/BitVector.py:31-35 | `~~a == a` |
| BitVectors.SizeKept | xdsl/utils/BitVector.py:37-38 | `size()` is the width given to the constructor, and `+` and `^` keep it |
| KnownBitsDomain.HasConflictBits | xdsl/utils/knownBits.py:53-54 | `hasConflict()` holds exactly when some bit is set in both masks |
| KnownBitsDomain.FromString | xdsl/utils/knownBits.py:13-23 | the loop builds width `len(s)`, known zeros at the `'0'` positions and known ones at the `'1'` positions |
| KnownBitsDomain.ToString | xdsl/utils/knownBits.py:42-51 | the loop writes `width` characters; character `i` is `'1'` if bit `i` is a known one, else `'0'` if a known zero, else `'X'` |
| KnownBitsDomain.ParseValid | xdsl/utils/knownBits.py:13-23 | `from_string(s)` has width `len(s)`, masks below `2^len(s)` and no conflict |
| KnownBitsDomain.RenderParse | xdsl/utils/knownBits.py:13-51 | `to_string(from_string(s))` has `len(s)` characters, keeps every `'0'`/`'1'` and makes any other character `'X'`; on strings over `'0' '1' 'X'` it is `s` |
| KnownBitsDomain.ParseRender | xdsl/utils/knownBits.py:13-51 | `from_string(to_string(kb))` is `kb` with conflicting bits read back as ones; for a conflict-free `kb` it is `kb` |
| KnownBitsDomain.ContainsBits | xdsl/transforms/oracle.py:3-4 | `contains(x, y)` on integers holds exactly when every set bit of `y` is set in `x` |
| KnownBitsDomain.InstanceBits | xdsl/transforms/oracle.py:23-27 | an integer is an instance exactly when its known-one bits are set and its known-zero bits are clear |
| KnownBitsDomain.MinMaxBound | xdsl/utils/knownBits.py:36-40 | for valid masks: `getMaxValue()` is `2^width - 1 - knownZeros`; min and max are instances; min is a submask of max and not larger; every instance below `2^width` lies bitwise and numerically between them |
| KnownBitsDomain.FromConstant | xdsl/utils/knownBits.py:25-34 | the loop as written: every bit known zero except bit 0, which is known one when `val` is odd |
| KnownBitsDomain.FromConstantCorrected | xdsl/utils/knownBits.py:25-34 | the loop with the test `!= 0` builds the low `width` bits of `val`, each fully known |
| KnownBitsDomain.FromConstantFullyKnown | xdsl/utils/knownBits.py:25-34 | both versions are valid and fully known: `zero \| one == 2^width - 1` and no conflict |
| KnownBitsDomain.FromConstantIntendedExact | xdsl/utils/knownBits.py:25-34 | the corrected value set below `2^width` is exactly `{val & (2^width - 1)}` |
| KnownBitsDomain.FromConstantAsWrittenMissesValue | xdsl/utils/knownBits.py:30 | with width 8 and value 2 the as-written result is valid but leaves out 2; the corrected one holds 2 |
| KnownBitsDomain.GetIthBitAsWritten | xdsl/utils/knownBits.py:56-65 | fails exactly when `i` is out of `0 .. width-1`; otherwise it returns 1 on a known-zero bit and -1 on every other bit, never 0 |
| KnownBitsDomain.GetIthBit | xdsl/utils/knownBits.py:56-65 | the intended version: fails exactly out of range; otherwise 1, 0 or -1 as the text form shows `'1'`, `'0'` or `'X'` |
| KnownBitsDomain.GetIthBitDiffers | xdsl/utils/knownBits.py:58-59 | on every known-one bit of a valid value the version as written returns -1 and the intended one 1 |
| Oracle.ContainsIsSubmask | xdsl/transforms/oracle.py:3-4 | `contains(x, y)` is `y & ~x == 0`; it is reflexive and transitive, everything contains 0, and a submask is not larger |
| Oracle.InstanceMasks | xdsl/transforms/oracle.py:23-27 | an instance has `ones` contained in it and `inst & zeros == 0` |
| Oracle.InstanceBetween | xdsl/transforms/oracle.py:17-27 | the instances are exactly the values bitwise between `getMinFromAbsValue` and `getMaxFromAbsValue` |
| Oracle.InstanceInRange | xdsl/transforms/oracle.py:17-27 | an instance lies between min and max as an unsigned number |
| Oracle.BoundsAreInstances | xdsl/transforms/oracle.py:17-21 | for a valid abstract value, min and max are instances |
| Oracle.ValidIffInhabited | xdsl/transforms/oracle.py:6-10 | the constraint `zeros & ones == 0` holds exactly when the abstract value has an instance |
| Oracle.GetOperands | xdsl/transforms/oracle.py:32-44 | succeeds exactly for OR, XOR, AND, ADD, SUB and TRUNC; two operands, the first abstract, the second a new width exactly for TRUNC |
| Oracle.TruncWidthSigned | xdsl/transforms/oracle.py:37-41 | Z3's signed `newWidth < 8` admits the widths 0..7 and also 128..255 |
| Checks.Shl1 | xdsl/transforms/checks.py:16 | `1 << n` on eight bits is `2^n` below 8 shifts, and 0 from 8 on |
| Checks.OrImplValid | xdsl/transforms/checks.py:26-27 | `orImpl` of valid operands is valid |
| Checks.OrImplSound | xdsl/transforms/checks.py:78-102 | for instances `x`, `y` of valid operands, `x \| y` is an instance of `orImpl`'s result |
| Checks.OrImplPreciseAt | xdsl/transforms/checks.py:104-135 | every instance of `orImpl`'s result is `x \| y` for some instances |
| Checks.OrImplChecks | xdsl/transforms/checks.py:78-135 | `orImpl` passes the validity, soundness and precision checks for `OR` |
| Checks.XorImplValid | xdsl/transforms/checks.py:32-33 | `XorImpl` of valid operands is valid |
| Checks.XorImplSound | xdsl/transforms/checks.py:78-102 | `x ^ y` is an instance of `XorImpl`'s result |
| Checks.XorImplPreciseAt | xdsl/transforms/checks.py:104-135 | every instance of `XorImpl`'s result is `x ^ y` for some instances |
| Checks.XorImplChecks | xdsl/transforms/checks.py:78-135 | `XorImpl` passes the validity, soundness and precision checks for `XOR` |
| Checks.AndImplUnsound | xdsl/transforms/checks.py:29-30 | `AndImpl` as written fails the soundness check for `AND` and can produce an invalid value |
| Checks.AndImplCorrectedValid | xdsl/transforms/checks.py:29-30 | the intended AND rule keeps validity |
| Checks.AndImplCorrectedSound | xdsl/transforms/checks.py:29-30 | `x & y` is an instance of the intended AND rule's result |
| Checks.AndImplCorrectedPreciseAt | xdsl/transforms/checks.py:29-30 | every instance of the intended rule's result is `x & y` for some instances |
| Checks.AndImplCorrectedChecks | xdsl/transforms/checks.py:29-30 | the intended AND rule passes the validity, soundness and precision checks |
| Checks.AddImplValid | xdsl/transforms/checks.py:42-54 | `AddImpl` of valid operands is valid |
| Checks.AddImplOnesSound | xdsl/transforms/checks.py:42-54 | every known one of `AddImpl`'s result is set in the wrapped sum of any instances |
| Checks.AddImplZerosSound | xdsl/transforms/checks.py:42-54 | every known zero of `AddImpl`'s result is clear in the wrapped sum |
| Checks.AddImplSound | xdsl/transforms/checks.py:78-102 | the wrapped sum of instances is an instance of `AddImpl`'s result |
| Checks.AddImplFullyKnownOnes | xdsl/transforms/checks.py:42-54 | fully known operands give the wrapped sum as known ones |
| Checks.AddImplFullyKnownZeros | xdsl/transforms/checks.py:42-54 | and its complement as known zeros |
| Checks.AddImplFullyKnown | xdsl/transforms/checks.py:42-54 | fully known operands give the fully known wrapped sum |
| Checks.AddImplChecks | xdsl/transforms/checks.py:78-102 | `AddImpl` passes the validity and soundness checks for `ADD` |
| Checks.AddImplImprecise | xdsl/transforms/checks.py:42-54 | `AddImpl` fails the precision check: operands that are each 0 or 1 give a result admitting 3, which no two instances sum to |
| Checks.AddImplIsAddCarry | xdsl/transforms/checks.py:42-73 | `AddImpl` is the carry rule that `SubImpl` uses, with a carry in of 0 |
| Checks.SubImpl | xdsl/transforms/checks.py:56-73 | returns the carry rule on the first operand and the swapped subtrahend with carry-in 1, and leaves the operand list as it found it |
| Checks.SubTransferValid | xdsl/transforms/checks.py:56-73 | `SubImpl`'s result on valid operands is valid |
| Checks.SubTransferOnesSound | xdsl/transforms/checks.py:56-73 | every known one of `SubImpl`'s result is set in the wrapped difference of any instances |
| Checks.SubTransferZerosSound | xdsl/transforms/checks.py:56-73 | every known zero is clear in it |
| Checks.SubTransferSound | xdsl/transforms/checks.py:78-102 | the wrapped difference of instances is an instance of `SubImpl`'s result |
| Checks.SubTransferFullyKnownOnes | xdsl/transforms/checks.py:56-73 | fully known operands give the wrapped difference as known ones |
| Checks.SubTransferFullyKnownZeros | xdsl/transforms/checks.py:56-73 | and its complement as known zeros |
| Checks.SubTransferFullyKnown | xdsl/transforms/checks.py:56-73 | fully known operands give the fully known wrapped difference |
| Checks.SubTransferChecks | xdsl/transforms/checks.py:78-102 | `SubImpl` passes the validity and soundness checks for `SUB` |
| Checks.TruncBits | xdsl/transforms/checks.py:15-16 | `TRUNC(x, n)` is below `2^n` for `n < 8`, is `x` for `n >= 8`, is a submask of `x`, and truncating twice is truncating once |
| Checks.TruncImplSound | xdsl/transforms/checks.py:37-39 | for every new width, `TruncImpl` of a valid operand is valid and contains the truncated instance |
| Checks.TruncCheckAdmitsOnlyIdentity | xdsl/transforms/checks.py:38 | the oracle's and `TruncImpl`'s width constraints together hold exactly for valid operands and widths 128..255, where `TRUNC` is the identity |
| Checks.TruncImplSoundIntended | xdsl/transforms/checks.py:37-39 | on the intended widths `n < 8`, `TruncImpl` is sound, its masks lie below `2^n`, and `TRUNC(0xFF, n) == 2^n - 1` |
| IntRange.BitAddNoOverflow | xdsl/utils/inferIntRange.py:5-6 | for same-width values it holds exactly when `x + y` does not wrap |
| IntRange.BitSubNoOverflow | xdsl/utils/inferIntRange.py:15-16 | for same-width values it holds exactly when `x - y` does not wrap |
| IntRange.SignedValue | xdsl/utils/inferIntRange.py:39-40 | the number a `w`-bit vector stands for under Z3's `<=`: its bits, less `2^w` from `2^(w-1)` on |
| IntRange.ULEAsWrittenSameHalf | xdsl/utils/inferIntRange.py:39-40 | the module's `ULE` agrees with the unsigned order when both values are in the same half of the range, and is its opposite otherwise |
| IntRange.SignedConstraintMisreads16 | xdsl/utils/inferIntRange.py:39-61 | on 16-bit bit-vector bounds, under the module's `ULE`, `[0, 0x8000]` fails `getConstraint` though it has instances, and `[0xFFFF, 1]` passes though it has none |
| IntRange.ConstraintIffInhabited | xdsl/utils/inferIntRange.py:60-65 | `getConstraint()` holds exactly when some value meets `getInstanceConstraint` |
| IntRange.FromConstant | xdsl/utils/inferIntRange.py:51-53 | `[v, v]` is a valid range whose only instance is `v` |
| IntRange.MaxRange | xdsl/utils/inferIntRange.py:55-57 | `[0, 2^w - 1]` is a valid range holding every `w`-bit value |
| IntRange.AddImpl | xdsl/utils/inferIntRange.py:72-79 | fails exactly on a width mismatch; the sums when neither no-overflow test fails, `maxRange` otherwise |
| IntRange.SubImplAsWritten | xdsl/utils/inferIntRange.py:86-93 | `subImpl` as written fails on every call, through `BitVector.__sub__` |
| IntRange.SubImpl | xdsl/utils/inferIntRange.py:86-93 | with the intended subtraction: `[x.umin - y.umax, x.umax - y.umin]` when neither end underflows, `maxRange` otherwise |
| IntRange.AddImplValid | xdsl/utils/inferIntRange.py:72-79 | on valid ranges of one width, `addImpl` gives a valid range of that width |
| IntRange.AddImplSound | xdsl/utils/inferIntRange.py:72-79 | the wrapped sum of any instances lies in `addImpl`'s range |
| IntRange.AddImplPrecise | xdsl/utils/inferIntRange.py:72-79 | in the no-overflow branch every value of the range is a sum of instances |
| IntRange.AddImplImpreciseOnOverflow | xdsl/utils/inferIntRange.py:72-79 | `[255, 255] + [1, 1]` over 8 bits is the whole range, though 0 is the only sum |
| IntRange.SubImplValid | xdsl/utils/inferIntRange.py:86-93 | the intended `subImpl` gives a valid range of the operands' width |
| IntRange.SubImplSound | xdsl/utils/inferIntRange.py:86-93 | the wrapped difference of any instances lies in its range |
| IntRange.SubImplPrecise | xdsl/utils/inferIntRange.py:86-93 | in the no-underflow branch every value of the range is a difference of instances |
| KnownBitsAnalysis.GetBitsAnalysis | xdsl/transforms/knownBitsAnalysis.py:42-45 | an operand's attribute when it has one, otherwise `'X' * width` |
| KnownBitsAnalysis.UnknownOperand | xdsl/transforms/knownBitsAnalysis.py:42-45 | an operand without an attribute reads as `width` bits with nothing known |
| KnownBitsAnalysis.AddiRule | xdsl/transforms/knownBitsAnalysis.py:51-74 | the `Addi` rule writes the text form of the carry-rule masks of its parsed operands |
| KnownBitsAnalysis.AddiAllUnknown | xdsl/transforms/knownBitsAnalysis.py:59-74 | if either operand string is all `'X'`, the result is `'X' * width` |
| KnownBitsAnalysis.KnownInOperands | xdsl/transforms/knownBitsAnalysis.py:65-69 | a bit the rule knows is known in both operands |
| KnownBitsAnalysis.AddiMasksBound | xdsl/transforms/knownBitsAnalysis.py:65-74 | the result string has `width` characters, and its masks fit in `width` bits when the left operand's do |
| KnownBitsAnalysis.AddiFullyKnown | xdsl/transforms/knownBitsAnalysis.py:59-74 | fully known operand strings give the fully known sum: character `i` is bit `i` of `l + r` |
| KnownBitsAnalysis.AddiZerosAgree | xdsl/transforms/knownBitsAnalysis.py:59-73 | at width 8 the rule's known-zeros mask is `AddImpl`'s |
| KnownBitsAnalysis.AddiOnesAgree | xdsl/transforms/knownBitsAnalysis.py:59-73 | at width 8 the rule's known-ones mask is `AddImpl`'s |
| KnownBitsAnalysis.ConstantRule | xdsl/transforms/knownBitsAnalysis.py:76-86 | one character per character of the current string, `'1'` where the value's bit is set and `'0'` elsewhere, never `'X'` |
| KnownBitsAnalysis.ConstantStringParse | xdsl/transforms/knownBitsAnalysis.py:80-86 | the string the `Constant` rule writes parses to the fully known constant of its length |
| KnownBitsAnalysis.BitwiseRule | xdsl/transforms/knownBitsAnalysis.py:88-118 | the `AndI`, `OrI` and `XOrI` rules write the text form of the delegated masks of their parsed operands |
| KnownBitsAnalysis.AndIAgree | xdsl/transforms/knownBitsAnalysis.py:95 | on eight bits the `AndI` masks are `AndImpl`'s |
| KnownBitsAnalysis.OrIAgree | xdsl/transforms/knownBitsAnalysis.py:106 | on eight bits the `OrI` masks are `orImpl`'s |
| KnownBitsAnalysis.XOrIZerosAgree | xdsl/transforms/knownBitsAnalysis.py:117 | on eight bits the `XOrI` known zeros are `XorImpl`'s |
| KnownBitsAnalysis.XOrIOnesAgree | xdsl/transforms/knownBitsAnalysis.py:117 | on eight bits the `XOrI` known ones are `XorImpl`'s |
| KnownBitsAnalysis.BitwiseAgree | xdsl/transforms/knownBitsAnalysis.py:88-118 | each of the three rules computes its harness function's masks |
| KnownBitsAnalysis.OrIMasksSound | xdsl/transforms/knownBitsAnalysis.py:106 | at every width, `x \| y` is an instance of the `OrI` result for instances `x`, `y` |
| KnownBitsAnalysis.XOrIMasksSound | xdsl/transforms/knownBitsAnalysis.py:117 | at every width, `x ^ y` is an instance of the `XOrI` result |
| KnownBitsAnalysis.AndIMasksUnsound | xdsl/transforms/knownBitsAnalysis.py:95 | `AndI` inherits `AndImpl`'s defect: with an unknown left operand and an all-ones right one, `0 & 255` is not an instance of the result |

## Left out

- Z3 solver plumbing is not modelled. This covers `Solver()`, `s.add`, `check`, `model`, `ForAll` and the printing of counterexamples. The constraints the oracle adds are the predicates `Oracle.IsValid`, `Oracle.IsInstance`, `Oracle.Admissible` and `Checks.TruncImplConstraint`. The questions `soundnessCheck` and `precisionCheck` put to the solver are the predicates `Checks.SoundBinary` and `Checks.PreciseBinary`, and the lemmas prove them.
- `absOp` (checks.py:75-76) is only another name for `orImpl`.
- The runs of the checks when `checks.py` is imported are not modelled.
- xdsl/tools/verifier.py is not part of this model. This covers its reflection, its module loading and its command line. Its validity, soundness and precision checks for the range domain are stated directly as the `IntRange` lemmas.
- `bvadd_no_overflow`, `bvsub_no_overflow` and `FUNC_MAPPING` are not modelled. They wrap the Z3 C API.
- The local `If`, `And` and `Or` of inferIntRange.py are Dafny's own `if`, `&&` and `||`.
- IntRange.ULE: compares the stored bits as unsigned numbers, the meaning its name gives. The module's own `ULE` (inferIntRange.py:39-40) is Python `<=` and shadows Z3's `ULE`. On the Z3 bit-vectors of the verifier it is the signed comparison, modelled as `IntRange.ULEAsWritten` (see Findings). On the `BitVector` bounds the annotations name it raises `TypeError`, since `BitVector` defines no ordering; that path is not modelled.
- IntRange.MaxRange: the bounds are `BitVector`s of the given width. The source builds them as the plain integers `0` and `2^width - 1`.
- The IR machinery of the analysis pass is not modelled: constant folding, `singledispatch`, the rewrite pattern and the pass. The attribute an operation writes is the string a rule returns. The attribute an operand has is an `Option<string>`, and an operand that is not an operation reads as `None`.
- KnownBitsAnalysis.AddiZerosAgree: the agreement with `AddImpl` is stated at width 8 only, the harness's `WIDTH`.
- KnownBitsAnalysis.AddiOnesAgree: the same.
- Checks.AddImplChecks: precision is not claimed. `Checks.AddImplImprecise` shows the carry rule is not precise. The source's precision check for ADD is commented out (checks.py:142).
- Checks.SubTransferChecks: precision is not claimed, as for ADD.
- Checks.TruncImplSound: the precision of `TruncImpl` is not stated.
- The TRUNC checks only admit the widths 128..255 (see Findings), so they say nothing about real truncation.
- Checks.SubImpl: the in-place swap is on an `array` of operands. The aliasing of the tuple objects Python shares with the caller is not modelled.
- `BitVectors.Size` has no contract of its own. `BitVectors.SizeKept` states what it returns.
- `Oracle.IsAbsValue` is a predicate with no contract. It holds exactly for tuples of length 2.
- `Oracle.Contains`, `GetMax`, `GetMin` and `SignedLess` have no contract of their own. `ContainsIsSubmask`, `InstanceMasks`, `InstanceBetween`, `InstanceInRange`, `BoundsAreInstances` and `TruncWidthSigned` state what they mean.
- The harness functions `Checks.OR`, `Checks.AND`, `Checks.XOR`, `Checks.ADD`, `Checks.SUB`, `Checks.TRUNC`, `Checks.OrImpl`, `Checks.AndImpl`, `Checks.AndImplCorrected`, `Checks.XorImpl`, `Checks.TruncImpl`, `Checks.AddImpl`, `Checks.AddCarry` and `Checks.SubTransfer` have no contract of their own. Their rows are the lemmas about them: `OrImplChecks`, `XorImplChecks`, `AndImplUnsound`, `AndImplCorrectedChecks`, `AddImplChecks`, `AddImplFullyKnown`, `SubTransferChecks`, `SubTransferFullyKnown`, `TruncBits` and `TruncImplSound`.
- `KnownBitsDomain.HasConflict`, `GetMaxValue`, `GetMinValue`, `Contains` and `IsInstance` have no contract of their own. `HasConflictBits`, `MinMaxBound`, `ContainsBits` and `InstanceBits` state what they mean.
- `IntRange.GetConstraint`, `GetInstanceConstraint`, `Contains`, `ULE` and `ULEAsWritten` have no contract of their own. `ConstraintIffInhabited`, `ULEAsWrittenSameHalf`, `SignedConstraintMisreads16` and the `AddImpl`/`SubImpl` lemmas state their properties.
- `KnownBitsAnalysis.AddiMasks` and `BitwiseMasks` have no contract of their own. `AddiMasksBound`, `KnownInOperands`, `AddiFullyKnown`, `AddiZerosAgree`, `AddiOnesAgree`, `BitwiseAgree`, `OrIMasksSound`, `XOrIMasksSound` and `AndIMasksUnsound` state their properties.
- Printing is not modelled: `print("Operation not supported yet")` and the messages of `soundnessCheck` and `precisionCheck`. The `assert False` after an unknown operation name is `Err(Unsupported)`.

## Findings

| source | as written | input that shows it | evidently intended | confidence | as-written member | corrected member |
|---|---|---|---|---|---|---|
| xdsl/utils/BitVector.py:17 | `BitVector(self.width(self.bits + (1 << self.width) - other.bits))` calls the integer `width` | any two vectors of one width, e.g. width 8 with bits 3 and 1 | `BitVector(self.width, self.bits + (1 << self.width) - other.bits)`: the difference wrapped at `2^width`, undone by adding `b` back | not executed | BitVectors.SubAsWritten | BitVectors.Sub |
| xdsl/utils/inferIntRange.py:91 | `subImpl` builds `x.umin - y.umax` with the broken `__sub__` | any two ranges of one width | the interval difference, with validity, soundness and precision proved | not executed | IntRange.SubImplAsWritten | IntRange.SubImpl |
| xdsl/utils/knownBits.py:30 | `(val & (1 << i)) == 1` is false for every `i >= 1` | width 8, value 2: bit 1 comes out known zero, so 2 is not an instance | `!= 0`: the low `width` bits of `val` known exactly, the only instance below `2^width` | not executed | KnownBitsDomain.FromConstantAsWrittenMissesValue | KnownBitsDomain.FromConstantCorrected |
| xdsl/utils/knownBits.py:59 | `one` reads `knownZeros` | any known-one bit of a valid value, e.g. width 1, known ones 1, bit 0: returns -1 | `one = self.knownOnes & (1 << i)`: 1, 0 or -1 as the text form shows | not executed | KnownBitsDomain.GetIthBitDiffers | KnownBitsDomain.GetIthBit |
| xdsl/transforms/checks.py:30 | `(op0.zeros \| op0.zeros, op1.ones & op1.ones)` | operands `(0, 0)` and `(0, 0xFF)`, instances 0 and 0xFF: `0 & 0xFF` is 0, but the result claims all ones | `(op0.zeros \| op1.zeros, op0.ones & op1.ones)`: valid, sound and precise | not executed | Checks.AndImplUnsound | Checks.AndImplCorrectedChecks |
| xdsl/transforms/checks.py:38 | `opList[1] < (1 << WIDTH)` compares with 256, which is 0 on eight bits, and with oracle.py:40 both comparisons are signed | any width 0..7 is rejected; only 128..255 pass, where `TRUNC` changes nothing | the new width is an unsigned value below `WIDTH`, so that `soundnessCheck` sees real truncations | not executed | Checks.TruncCheckAdmitsOnlyIdentity | Checks.TruncImplSoundIntended |
| xdsl/utils/inferIntRange.py:39-40 | `ULE(x, y)` is `x <= y`, which on Z3 bit-vectors is the signed `bvsle` | the 16-bit bounds the verifier builds (xdsl/tools/verifier.py:6): `[0, 0x8000]` fails `getConstraint`, since 0 is not below -32768, though it holds 0x8000; `[0xFFFF, 1]` passes it with no instance | the unsigned order its name promises, under which a range is valid exactly when it has an instance | not executed | IntRange.SignedConstraintMisreads16 | IntRange.ConstraintIffInhabited |
