# Emulated prime-field chip (halo2-fri-verifier, `src/fields/fp.rs`)

This project models the base-field chip of halo2-fri-verifier, a library of
zero-knowledge circuit gadgets. The chip emulates arithmetic in a small prime
field (modulus `p = F64::ORDER`, below 2^64; the test uses Goldilocks,
`p = 2^64 - 2^32 + 1`) inside a circuit whose native field is much larger
(modulus `n`; the test uses the BN254 scalar field).

An element `Fp { native, value }` pairs a native cell handle with a plaintext
`u64` shadow. Each arithmetic operation is a multiply-accumulate. It computes a
quotient/remainder hint in exact `u128` arithmetic and loads both as witness
cells. It then records native-field checks relating `a*b + c` to
`p*quotient + remainder`, and two bound tests of quotient and remainder
against `p` whose results are discarded. `add`, `sub` and `mul`
call `mul_add` with a loaded constant `1`, `p - 1` or `0`.

Files and modules:

- `arith.dfy` (`Arith`): the `u64`/`u128` bounds and the Rust truncating
  cast. It also holds the division facts: Euclidean division is unique, and
  reducing the operands of a multiply-accumulate commutes with reduction.
- `native.dfy` (`Native`): the host context. A `Context` class holds an
  append-only `cells` sequence of native values and an append-only `checks`
  log. The host library's gate and range calls append to it. `Holds` says what
  a recorded check enforces on an assignment of cell values; `HoldsAsserted`
  also reads the discarded equality and bound tests as assertions.
- `fields.dfy` (`Fields`): the `Fp` datatype (its constructor is `Fp::new`)
  and the `mul_add` hint. It also holds the cells and checks `mul_add`
  records, the soundness and completeness lemmas, and the `FpChip` class with
  every operation of the chip.
- `fields_test.dfy` (`FieldsTest`): the chip test's loop, with the random
  samples as a parameter. It also holds three worked instances of `mul`,
  `add` and `sub`.

Modelling choices:

- An emulated-field element is given by any integer representative.
  `to_canonical_u64` is modelled as its residue in `[0, p)`;
  `F64::from_canonical_u64` is modelled as keeping the representative, and
  `F::from(v)` as `v mod n`.
- `gate.mul_add` is modelled as placing one output cell holding
  `a*b + c mod n` and recording the gate.
- `gate.is_equal` and `range.is_less_than_safe` return values that the source
  discards (fp.rs:118, fp.rs:121-122). They are recorded as checks that
  enforce nothing under `Holds`. Soundness of `mul_add` (`MulAddSound`) is
  proved only under the hypothesis that they hold as assertions.
  `EnforcedChecksLeaveRemainderFree` shows that without that hypothesis the
  other recorded checks accept any remainder.
- `sub(a, b)` is kept as written: `mul_add(a, p - 1, b)`, which is `b - a`.
- With operands below `p`, the hint's quotient is at most `p - 1`
  (`MulAddHintExact`), so its `as u64` cast loses nothing.
- `load_witness` stores `to_canonical_u64` of its input, so every shadow the
  chip makes is below `p`. Only a cell that a dishonest prover assigns is
  unbounded.
- The bound tests in `mul_add` are `is_less_than_safe` calls whose results
  are dropped (fp.rs:121-122). They are modelled as constraining nothing; a
  range check inside the host call is not modelled.
- `range.check_less_than(a, b, bits)` is modelled as bounding `a` below `b`
  only when `a` already fits `bits` bits, the assumption the host gadget
  makes of its operands. `range.range_check(a, bits)` is modelled as bounding
  `a` below `2^bits`.

## Model

| member | source | states |
|---|---|---|
| Fields.ToCanonicalU64 | src/fields/fp.rs:57-60 | the canonical `u64` of an element is below p and congruent to the element modulo p |
| Fields.MulAddHint | src/fields/fp.rs:103-106 | the `u128` product and sum of three `u64` values never overflow (range-checked in the body); the remainder is (a*b + c) mod p for every `u64` input, is below p, and the quotient fits a `u64` |
| Fields.MulAddHintExact | src/fields/fp.rs:103-106 | for operands below p the quotient is (a*b + c) div p and below p, so the `as u64` casts lose nothing and a*b + c == p*quotient + remainder |
| Arith.MulAddFitsU128 | src/fields/fp.rs:103-104 | a*b + c of three `u64` values is below 2^128 |
| Arith.MulAddQuotientBelow | src/fields/fp.rs:105 | with operands below p, a*b + c <= p*(p-1) and its quotient by p is below p |
| Fields.HintUnique | src/fields/fp.rs:112-122 | if n >= p^2, operands, q and r are below p, and a*b + c == p*q + r in the native field, then r is (a*b + c) mod p and q is (a*b + c) div p |
| Fields.MulAddSound | src/fields/fp.rs:109-125 | in any assignment of native field elements with the operand cells below p and n >= p^2 where every check `mul_add` records holds, the discarded tests read as assertions, the remainder cell is (a*b + c) mod p and the quotient cell (a*b + c) div p |
| Fields.MulAddLogSound | src/fields/fp.rs:109-125 | in any assignment with the operand cells below p and n >= p^2 where a whole log ending in the six checks of one `mul_add` holds (discarded tests read as assertions), that call's remainder cell is (a*b + c) mod p and its quotient cell (a*b + c) div p |
| Fields.EnforcedChecksLeaveRemainderFree | src/fields/fp.rs:114-122 | without the discarded tests, every native value in the remainder cell (quotient 0) satisfies the gate and constant checks `mul_add` records |
| Fields.MulAddComplete | src/fields/fp.rs:103-122 | for operands below p, the cells the honest hint places satisfy every check `mul_add` records, the discarded tests included |
| Fields.SubReversesOperands | src/fields/fp.rs:84-87 | a*(p-1) + b and b - a are equal modulo p |
| Fields.MulOfConstants | src/fields/fp.rs:170-174 | the chip's product of the canonical forms of x and y equals the canonical form of x*y |
| Fields.AssertEqualHonest | src/fields/fp.rs:134-136 | for elements below p with n >= p, the equality constraint on their cells holds exactly when their shadows are equal |
| Fields.RangeCheckBounds | src/fields/fp.rs:128-132 | if the constant p cell and the less-than check hold, p < n and the checked cell fits 64 bits, the checked cell is below p |
| Fields.RangeCheckAdmitsWideCell | src/fields/fp.rs:128-132 | a checked cell holding n - 1 (-1 in the native field) satisfies both checks `range_check` records, although it is not below p |
| Fields.BoundedRangeCheckBounds | src/fields/fp.rs:128-132 | with a 64-bit range check of the cell recorded first and p < n, the checks bound the cell below p in every assignment |
| Fields.RangeCheckHonest | src/fields/fp.rs:128-132 | for an honestly placed element and n >= 2^64, the less-than check holds exactly when the shadow is below p |
| Fields.FpChip.LoadConstant | src/fields/fp.rs:57-60 | returns the element whose shadow is the canonical `u64` of the input and whose new cell holds that value in the native field; appends exactly that cell and its constant check; keeps honest satisfiability |
| Fields.FpChip.LoadConstants | src/fields/fp.rs:62-72 | returns one element per input; element i is what `LoadConstant` makes of input i in the i-th new cell; appends exactly those cells and checks, in input order |
| Fields.FpChip.LoadWitness | src/fields/fp.rs:74-77 | returns the element of the canonical `u64` of the input in one new witness cell; records no check |
| Fields.FpChip.MulAdd | src/fields/fp.rs:95-126 | the result's shadow is (a*b + c) mod p and its cell is the remainder witness; appends exactly the five hint and check cells and the six checks; with operands below p keeps honest satisfiability |
| Fields.FpChip.Add | src/fields/fp.rs:79-82 | the result is (a + b) mod p, by `mul_add` with a loaded constant 1; states the appended cells and checks |
| Fields.FpChip.Sub | src/fields/fp.rs:84-87 | the result is (a*(p-1) + b) mod p, which is (b - a) mod p, by `mul_add` with a loaded constant p - 1; states the appended cells and checks |
| Fields.FpChip.Mul | src/fields/fp.rs:90-93 | the result is (a*b) mod p, by `mul_add` with a loaded constant 0; states the appended cells and checks |
| Fields.FpChip.RangeCheck | src/fields/fp.rs:128-132 | appends the constant p cell and a 64-bit less-than check of the element's cell against it; p fits the 64-bit width; honestly the check holds exactly when the cell is below p |
| Fields.FpChip.BoundedRangeCheck | src/fields/fp.rs:128-132 | appends the 64-bit range check of the cell, the constant p cell and the less-than check; if they hold the cell is below p; honestly they hold when the cell is below p |
| Fields.FpChip.AssertEqual | src/fields/fp.rs:134-136 | places no cell, records one equality constraint between the two cells; honestly it holds exactly when their native values are equal |
| Native.Context.LoadConstant | src/fields/fp.rs:59 | appends one cell holding the constant and a check fixing it |
| Native.Context.LoadWitness | src/fields/fp.rs:76 | appends one cell holding the witness and records nothing |
| Native.Context.ConstrainEqual | src/fields/fp.rs:135 | records the equality of two cells and places none |
| Native.GateMulAdd | src/fields/fp.rs:114-116 | appends one cell holding a*b + c in the native field and records the gate over the four cells |
| Native.GateIsEqual | src/fields/fp.rs:118 | records the equality test over two cells; nothing is placed |
| Native.RangeBitsCheck | src/fields/fp.rs:128-132 | records a bit-width check of a cell and places nothing; it stands for the host's `range.range_check(a, bits)`, which the source does not call, and is used only by the corrected `FpChip.BoundedRangeCheck` |
| Native.RangeIsLessThanSafe | src/fields/fp.rs:121-122 | records the bound test of a cell against an integer bound; nothing is placed |
| Native.RangeCheckLessThan | src/fields/fp.rs:131 | records the less-than check between two cells at a bit width |
| FieldsTest.TestFpChip | src/fields/fp.rs:166-177 | after every round of load a*b, load a, load b, multiply, assert equal, the honest cells satisfy every recorded check |
| FieldsTest.MulScenario | src/fields/fp.rs:90-93 | 2^63 * 2^63 in the Goldilocks field is 2^64 - 2^32 - 2^30 + 1 |
| FieldsTest.AddScenario | src/fields/fp.rs:79-82 | 0 + (p - 1) is p - 1 in the Goldilocks field |
| FieldsTest.SubScenario | src/fields/fp.rs:84-87 | `sub(1, 0)` is p - 1 in the Goldilocks field, not 1 |

## Findings

| source | as written | input that shows it | evidently intended | confidence | as-written member | corrected member |
|---|---|---|---|---|---|---|
| src/fields/fp.rs:128-132 | `range_check` passes the element's cell straight to `check_less_than(.., 64)`, which assumes its first operand fits 64 bits; no check establishes that for a witness cell | a prover assigns n - 1 (-1 in the native field) to a `load_witness` cell; both recorded checks hold and the cell is not below p | range-check the cell to 64 bits first, so that the checks bound it below p | medium; not executed | Fields.RangeCheckAdmitsWideCell | Fields.BoundedRangeCheckBounds |

## Left out

- Fields.MulAddSound: states soundness only under the hypothesis that the discarded `is_equal` and `is_less_than_safe` tests hold. Their results are thrown away (fp.rs:118-122), and the library that defines them is not part of this model. It also requires the operand cells to be below p and n >= p^2: `mul_add` itself does not bound its operands, so a `load_witness` operand is unbounded unless the caller range-checks it.
- Native.RangeCheckLessThan: its check is read as "the first cell is below the second, when the first cell fits the bit width". The host gadget's actual arithmetic is not modelled, and neither is the behaviour of a second operand wider than the bit width.
- Fields.RangeCheckBounds: `range_check` bounds only a cell already known to fit 64 bits; nothing in `range_check` establishes that (see Findings).
- The host library's cell layouts are not modelled. `gate.mul_add` places one output cell here; the equality test, the bound test and the less-than check place none. Cell counts therefore differ from the real circuit.
- `FpChip::new`, `gate()` and `range()` (fp.rs:39-54) are left out: lookup bits, lookup managers and `MAX_PHASE` configure the host's range tables. The chip here holds only the modulus.
- The native field is an abstract modulus `n`. BN254 arithmetic is not modelled; its order appears only as the test's native modulus.
- The test's `MockProver`, `RangeCircuitBuilder`, circuit parameters and random sampling (fp.rs:150-184) are left out. The samples are a parameter, and satisfaction is stated for the honest cell values.
- `src/util/mod.rs` (`ContextWrapper`) is left out. Its behaviour is file output and delegation to a `ContextTree` that is not part of this model.
- `src/fields/mod.rs` declares only the `FieldChip` trait's signatures. `FpChip` carries the same operation set.
- The extension-field chip `fp2` is not part of this model.
