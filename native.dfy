/**
  The host circuit-building context the chip writes into: an append-only
  sequence of native-field cells and an append-only log of the checks recorded
  over them. The native field is the integers modulo `n`.

  The gate and range calls the chip makes belong to the host library, which
  is not part of this model. Each of them is modelled as appending at most
  one cell and recording one check naming the cells it relates; what a
  recorded check requires of an assignment of cell values is stated by
  `Holds` (what the circuit enforces) and `HoldsAsserted` (what it would
  enforce if every recorded check were an assertion).
*/
module Native {
  import opened Arith

  /** A native modulus: the order of the native field. */
  type NativeModulus = n: nat | 1 < n witness 2

  /** A handle to a placed cell together with the value assigned to it. */
  datatype AssignedValue = AssignedValue(cell: nat, value: int)

  /** A check recorded in the context, over cell indices. */
  datatype Check =
    | Constant(cell: nat, value: int)                   // the cell is fixed to a circuit constant
    | MulAddGate(a: nat, b: nat, c: nat, out: nat)      // out == a*b + c in the native field
    | IsEqual(a: nat, b: nat)                           // equality test whose indicator is discarded
    | IsLessThanSafe(a: nat, bound: nat)                // bound test whose indicator is discarded
    | CheckLessThan(a: nat, b: nat, bits: nat)          // a < b, for a first operand of `bits` bits
    | RangeBits(a: nat, bits: nat)                      // the cell has at most `bits` bits
    | ConstrainEqual(a: nat, b: nat)                    // the two cells are equal

  /** The constraint a recorded check places on the cell assignment `w`.
      A test whose indicator result is thrown away is modelled as placing
      none: it only requires its cells to exist. The less-than check is
      modelled as bounding its first operand only when that operand already
      fits its bit width, the assumption the host gadget makes of it. */
  predicate Holds(w: seq<int>, n: NativeModulus, c: Check)
  {
    match c
    case Constant(i, v) => i < |w| && w[i] == v
    case MulAddGate(a, b, c, out) =>
      a < |w| && b < |w| && c < |w| && out < |w| && w[out] == (w[a] * w[b] + w[c]) % n
    case IsEqual(a, b) => a < |w| && b < |w|
    case IsLessThanSafe(a, bound) => a < |w|
    case CheckLessThan(a, b, bits) => a < |w| && b < |w| && (w[a] < Pow2(bits) ==> w[a] < w[b])
    case RangeBits(a, bits) => a < |w| && w[a] < Pow2(bits)
    case ConstrainEqual(a, b) => a < |w| && b < |w| && w[a] == w[b]
  }

  /** The constraint a recorded check would place on `w` if the discarded
      equality and bound tests were assertions. */
  predicate HoldsAsserted(w: seq<int>, n: NativeModulus, c: Check)
  {
    match c
    case IsEqual(a, b) => a < |w| && b < |w| && w[a] == w[b]
    case IsLessThanSafe(a, bound) => a < |w| && w[a] < bound
    case _ => Holds(w, n, c)
  }

  /** Every check in `cs` is enforced by `w`. */
  predicate Satisfied(w: seq<int>, n: NativeModulus, cs: seq<Check>)
  {
    forall k | 0 <= k < |cs| :: Holds(w, n, cs[k])
  }

  /** Every check in `cs` holds in `w`, the discarded tests read as assertions. */
  predicate Asserted(w: seq<int>, n: NativeModulus, cs: seq<Check>)
  {
    forall k | 0 <= k < |cs| :: HoldsAsserted(w, n, cs[k])
  }

  /** Reading the discarded tests as assertions only strengthens a check. */
  lemma AssertedIsSatisfied(w: seq<int>, n: NativeModulus, cs: seq<Check>)
    requires Asserted(w, n, cs)
    ensures Satisfied(w, n, cs)
  {
    forall k | 0 <= k < |cs| ensures Holds(w, n, cs[k]) {
      assert HoldsAsserted(w, n, cs[k]);
    }
  }

  /** A check over existing cells keeps holding when more cells are appended. */
  lemma {:induction false} AssertedExtend(w: seq<int>, w': seq<int>, n: NativeModulus, cs: seq<Check>, extra: seq<Check>)
    requires w <= w'
    requires Asserted(w, n, cs) && Asserted(w', n, extra)
    ensures Asserted(w', n, cs + extra)
  {
    forall k | 0 <= k < |cs + extra| ensures HoldsAsserted(w', n, (cs + extra)[k]) {
      if k < |cs| {
        assert HoldsAsserted(w, n, cs[k]);
        match cs[k]
        case Constant(i, v) => assert w'[i] == w[i];
        case MulAddGate(a, b, c, out) =>
          assert w'[a] == w[a] && w'[b] == w[b] && w'[c] == w[c] && w'[out] == w[out];
        case IsEqual(a, b) => assert w'[a] == w[a] && w'[b] == w[b];
        case IsLessThanSafe(a, bound) => assert w'[a] == w[a];
        case CheckLessThan(a, b, bits) => assert w'[a] == w[a] && w'[b] == w[b];
        case RangeBits(a, bits) => assert w'[a] == w[a];
        case ConstrainEqual(a, b) => assert w'[a] == w[a] && w'[b] == w[b];
      } else {
        assert (cs + extra)[k] == extra[k - |cs|];
      }
    }
  }

  /** A log that holds keeps holding after any prefix of it is dropped: the
      checks an operation appended can be read off the whole log. */
  lemma AssertedSuffix(w: seq<int>, n: NativeModulus, cs: seq<Check>, extra: seq<Check>)
    requires Asserted(w, n, cs + extra)
    ensures Asserted(w, n, cs) && Asserted(w, n, extra)
  {
    forall k | 0 <= k < |extra| ensures HoldsAsserted(w, n, extra[k]) {
      assert extra[k] == (cs + extra)[|cs| + k];
    }
    forall k | 0 <= k < |cs| ensures HoldsAsserted(w, n, cs[k]) {
      assert cs[k] == (cs + extra)[k];
    }
  }

  /** Every cell of `w` holds a native field element. */
  predicate InField(w: seq<int>, n: NativeModulus)
  {
    forall i | 0 <= i < |w| :: 0 <= w[i] < n
  }

  /** The host context: the cells placed so far, and the checks recorded. */
  class Context {
    const n: NativeModulus
    var cells: seq<int>
    var checks: seq<Check>

    /** Every placed cell holds an element of the native field. */
    ghost predicate Valid()
      reads this
    {
      InField(cells, n)
    }

    constructor (n: NativeModulus)
      ensures Valid() && this.n == n && cells == [] && checks == []
    {
      this.n := n;
      cells := [];
      checks := [];
    }

    /** Places a cell fixed to the constant `v`. */
    method LoadConstant(v: int) returns (x: AssignedValue)
      requires Valid() && 0 <= v < n
      modifies this
      ensures Valid()
      ensures x == AssignedValue(old(|cells|), v)
      ensures cells == old(cells) + [v]
      ensures checks == old(checks) + [Constant(x.cell, v)]
    {
      x := AssignedValue(|cells|, v);
      cells := cells + [v];
      checks := checks + [Constant(x.cell, v)];
    }

    /** Places a cell holding the prover-supplied value `v`; nothing fixes it. */
    method LoadWitness(v: int) returns (x: AssignedValue)
      requires Valid() && 0 <= v < n
      modifies this
      ensures Valid()
      ensures x == AssignedValue(old(|cells|), v)
      ensures cells == old(cells) + [v]
      ensures checks == old(checks)
    {
      x := AssignedValue(|cells|, v);
      cells := cells + [v];
    }

    /** Constrains two placed cells to be equal; places no cell. */
    method ConstrainEqual(a: AssignedValue, b: AssignedValue)
      requires Valid()
      modifies this
      ensures Valid()
      ensures cells == old(cells)
      ensures checks == old(checks) + [Check.ConstrainEqual(a.cell, b.cell)]
    {
      checks := checks + [Check.ConstrainEqual(a.cell, b.cell)];
    }
  }

  /** `x` names a placed cell and carries that cell's value. */
  predicate Placed(x: AssignedValue, cells: seq<int>)
  {
    x.cell < |cells| && cells[x.cell] == x.value
  }

  /** The gate's multiply-accumulate: places `out` == a*b + c in the native
      field and records the gate over the four cells. */
  method GateMulAdd(ctx: Context, a: AssignedValue, b: AssignedValue, c: AssignedValue) returns (out: AssignedValue)
    requires ctx.Valid()
    modifies ctx
    ensures ctx.Valid()
    ensures out == AssignedValue(old(|ctx.cells|), (a.value * b.value + c.value) % ctx.n)
    ensures ctx.cells == old(ctx.cells) + [out.value]
    ensures ctx.checks == old(ctx.checks) + [MulAddGate(a.cell, b.cell, c.cell, out.cell)]
  {
    out := AssignedValue(|ctx.cells|, (a.value * b.value + c.value) % ctx.n);
    ctx.cells := ctx.cells + [out.value];
    ctx.checks := ctx.checks + [MulAddGate(a.cell, b.cell, c.cell, out.cell)];
  }

  /** The gate's equality test, recorded as a check; its indicator is not
      part of this model. */
  method GateIsEqual(ctx: Context, a: AssignedValue, b: AssignedValue)
    requires ctx.Valid()
    modifies ctx
    ensures ctx.Valid()
    ensures ctx.cells == old(ctx.cells)
    ensures ctx.checks == old(ctx.checks) + [IsEqual(a.cell, b.cell)]
  {
    ctx.checks := ctx.checks + [IsEqual(a.cell, b.cell)];
  }

  /** The range chip's bound test against an integer bound, recorded as a
      check; its indicator is not part of this model. */
  method RangeIsLessThanSafe(ctx: Context, a: AssignedValue, bound: nat)
    requires ctx.Valid()
    modifies ctx
    ensures ctx.Valid()
    ensures ctx.cells == old(ctx.cells)
    ensures ctx.checks == old(ctx.checks) + [IsLessThanSafe(a.cell, bound)]
  {
    ctx.checks := ctx.checks + [IsLessThanSafe(a.cell, bound)];
  }

  /** The range chip's check that a cell has at most `bits` bits. */
  method RangeBitsCheck(ctx: Context, a: AssignedValue, bits: nat)
    requires ctx.Valid()
    modifies ctx
    ensures ctx.Valid()
    ensures ctx.cells == old(ctx.cells)
    ensures ctx.checks == old(ctx.checks) + [RangeBits(a.cell, bits)]
  {
    ctx.checks := ctx.checks + [RangeBits(a.cell, bits)];
  }

  /** The range chip's `a < b` check for a first operand of `bits` bits. */
  method RangeCheckLessThan(ctx: Context, a: AssignedValue, b: AssignedValue, bits: nat)
    requires ctx.Valid()
    modifies ctx
    ensures ctx.Valid()
    ensures ctx.cells == old(ctx.cells)
    ensures ctx.checks == old(ctx.checks) + [CheckLessThan(a.cell, b.cell, bits)]
  {
    ctx.checks := ctx.checks + [CheckLessThan(a.cell, b.cell, bits)];
  }
}
