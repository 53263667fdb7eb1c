/**
  The emulated prime-field chip: elements of a small prime field (modulus
  `p`, below 2^64) carried as a native-field cell beside a plaintext `u64`
  shadow. Every arithmetic operation is a multiply-accumulate that computes a
  quotient/remainder hint in exact `u128` arithmetic, places both as witness
  cells and records native-field checks tying `a*b + c` to `p*quotient +
  remainder`, together with two bound tests of quotient and remainder
  against `p` whose results are discarded.
*/
module Fields {
  import opened Arith
  import opened Native

  /** The emulated modulus `F64::ORDER`: above 1 and below 2^64. */
  type Modulus = p: nat | 1 < p < 0x1_0000_0000_0000_0000 witness 2

  /** The Goldilocks prime 2^64 - 2^32 + 1. */
  const GOLDILOCKS: Modulus := 0xFFFF_FFFF_0000_0001

  /** `to_canonical_u64` of the emulated-field element represented by `x`:
      the unique value in [0, p) congruent to `x` modulo p. */
  function ToCanonicalU64(x: int, p: Modulus): (r: nat)
    ensures r < p
    ensures (x - r) % p == 0
  {
    var r := x % p;
    DivModUnique(x - r, p, x / p, 0);
    r
  }

  /** An emulated-field element: a native cell and its plaintext shadow. */
  datatype Fp = Fp(native: AssignedValue, value: nat)

  /** `x` is an element placed in `cells`: its shadow is a `u64`, its handle
      names a placed cell, and that cell holds the shadow read as a native
      field element. */
  predicate IsElement(x: Fp, cells: seq<int>, n: NativeModulus)
  {
    x.value < U64 && Placed(x.native, cells) && x.native.value == x.value % n
  }

  /** The element `load_constant`/`load_witness` make of input `a` when the
      next free cell is `cell`. */
  function Loaded(a: int, cell: nat, p: Modulus, n: NativeModulus): Fp
  {
    var v := ToCanonicalU64(a, p);
    Fp(AssignedValue(cell, v % n), v)
  }

  /** The quotient and remainder the multiply-accumulate hint supplies. */
  datatype Hint = Hint(quotient: nat, remainder: nat)

  /** The hint of `mul_add`, in `u128` arithmetic with both results cast to
      `u64`. The `u128` operations are range-checked by their type, so the
      body itself shows that they never overflow; the casts are written out
      as truncations. The remainder is right for every `u64` operand. */
  function MulAddHint(a: nat, b: nat, c: nat, p: Modulus): (h: Hint)
    requires a < U64 && b < U64 && c < U64
    ensures h.remainder == (a * b + c) % p
    ensures h.quotient < U64 && h.remainder < p
  {
    MulAddFitsU128(a, b, c);
    var product: u128 := (a * b) as u128;
    var sum: u128 := product + (c as u128);
    var quotient := (sum / (p as u128)) as nat;
    var remainder := (sum % (p as u128)) as nat;
    assert sum as int == a * b + c;
    assert remainder == (a * b + c) % p < p;
    Hint(TruncateU64(quotient), TruncateU64(remainder))
  }

  /** For operands below p the quotient is below p as well, so its cast to
      `u64` loses nothing, and the hint is the Euclidean division of
      a*b + c by p. */
  lemma MulAddHintExact(a: nat, b: nat, c: nat, p: Modulus)
    requires a < p && b < p && c < p
    ensures MulAddHint(a, b, c, p).quotient == (a * b + c) / p < p
    ensures a * b + c == p * MulAddHint(a, b, c, p).quotient + MulAddHint(a, b, c, p).remainder
  {
    MulAddQuotientBelow(a, b, c, p);
  }

  /** The five cells `mul_add` places, in order: quotient, remainder, the
      native `a*b + c`, the constant `p`, the native `p*quotient + remainder`.
      `av`, `bv`, `cv` are the native values of the operands. */
  function MulAddCells(av: int, bv: int, cv: int, h: Hint, p: Modulus, n: NativeModulus): seq<int>
  {
    var q := ToCanonicalU64(h.quotient, p) % n;
    var r := ToCanonicalU64(h.remainder, p) % n;
    [q, r, (av * bv + cv) % n, p % n, (p % n * q + r) % n]
  }

  /** The checks `mul_add` records over operand cells `a`, `b`, `c` when its
      first new cell is `base` (laid out as in `MulAddCells`). */
  function MulAddChecks(a: nat, b: nat, c: nat, base: nat, p: Modulus, n: NativeModulus): seq<Check>
  {
    [ MulAddGate(a, b, c, base + 2),
      Constant(base + 3, p % n),
      MulAddGate(base + 3, base, base + 1, base + 4),
      IsEqual(base + 2, base + 4),
      IsLessThanSafe(base, p),
      IsLessThanSafe(base + 1, p) ]
  }

  /** The relation the multiply-accumulate checks record determines the hint:
      when the native modulus is at least p^2, both sides of
      a*b + c == p*q + r stay below it, so native equality is integer
      equality, and with q, r in [0, p) that is Euclidean division by p. */
  lemma HintUnique(n: NativeModulus, p: Modulus, a: int, b: int, c: int, q: int, r: int)
    requires p * p <= n
    requires 0 <= a < p && 0 <= b < p && 0 <= c < p && 0 <= q < p && 0 <= r < p
    requires (a * b + c) % n == (p * q + r) % n
    ensures r == (a * b + c) % p && q == (a * b + c) / p
  {
    var lhs, rhs := a * b + c, p * q + r;
    assert lhs == rhs by {
      MulAddBelowSquare(a, b, c, p);
      QuotientRemainderBelowSquare(q, r, p);
      ModOfSmall(lhs, n);
      ModOfSmall(rhs, n);
    }
    DivModUnique(lhs, p, q, r);
  }

  /** Conditional soundness of `mul_add`: in any assignment of native field
      elements in which every recorded check holds, the discarded equality and
      bound tests read as assertions, the remainder cell is (a*b + c) mod p and
      the quotient cell is (a*b + c) / p, provided the operands are below p
      and the native modulus is at least p^2. */
  lemma MulAddSound(w: seq<int>, n: NativeModulus, p: Modulus, a: nat, b: nat, c: nat, base: nat)
    requires p * p <= n
    requires InField(w, n)
    requires a < |w| && b < |w| && c < |w| && base + 5 <= |w|
    requires w[a] < p && w[b] < p && w[c] < p
    requires Asserted(w, n, MulAddChecks(a, b, c, base, p, n))
    ensures w[base + 1] == (w[a] * w[b] + w[c]) % p
    ensures w[base] == (w[a] * w[b] + w[c]) / p
  {
    var cs := MulAddChecks(a, b, c, base, p, n);
    assert HoldsAsserted(w, n, cs[0]) && HoldsAsserted(w, n, cs[1]) && HoldsAsserted(w, n, cs[2]);
    assert HoldsAsserted(w, n, cs[3]) && HoldsAsserted(w, n, cs[4]) && HoldsAsserted(w, n, cs[5]);
    MulLe(p, 2, p, p);
    ModOfSmall(p, n);
    HintUnique(n, p, w[a], w[b], w[c], w[base], w[base + 1]);
  }

  /** Soundness read off a whole log: whenever a log ending in the checks of
      one `mul_add` holds, with the discarded tests read as assertions, that
      call's remainder and quotient cells are the Euclidean division of
      a*b + c by p. This is the log `FpChip.MulAdd` leaves. */
  lemma MulAddLogSound(w: seq<int>, n: NativeModulus, p: Modulus, cs: seq<Check>,
                       a: nat, b: nat, c: nat, base: nat)
    requires p * p <= n
    requires InField(w, n)
    requires a < |w| && b < |w| && c < |w| && base + 5 <= |w|
    requires w[a] < p && w[b] < p && w[c] < p
    requires Asserted(w, n, cs + MulAddChecks(a, b, c, base, p, n))
    ensures w[base + 1] == (w[a] * w[b] + w[c]) % p
    ensures w[base] == (w[a] * w[b] + w[c]) / p
  {
    AssertedSuffix(w, n, cs, MulAddChecks(a, b, c, base, p, n));
    MulAddSound(w, n, p, a, b, c, base);
  }

  /** Without the discarded tests the recorded checks leave the remainder
      free: for operands in cells 0, 1, 2, every native value `r` placed in the
      remainder cell, with quotient 0, satisfies every enforced check. */
  lemma EnforcedChecksLeaveRemainderFree(n: NativeModulus, p: Modulus, av: nat, bv: nat, cv: nat, r: nat)
    requires av < n && bv < n && cv < n && r < n
    ensures Satisfied([av, bv, cv, 0, r, (av * bv + cv) % n, p % n, r], n, MulAddChecks(0, 1, 2, 3, p, n))
  {
    var w := [av, bv, cv, 0, r, (av * bv + cv) % n, p % n, r];
    ModOfSmall(r, n);
    assert w[7] == (w[6] * w[3] + w[4]) % n;
  }

  /** Completeness of `mul_add`: for operands below p, the cells the honest
      hint places satisfy every check it records, the discarded tests read as
      assertions. */
  lemma MulAddComplete(w: seq<int>, n: NativeModulus, p: Modulus, a: Fp, b: Fp, c: Fp, base: nat)
    requires IsElement(a, w, n) && IsElement(b, w, n) && IsElement(c, w, n)
    requires a.value < p && b.value < p && c.value < p
    requires base + 5 <= |w|
    requires w[base..base + 5] == MulAddCells(a.native.value, b.native.value, c.native.value,
                                              MulAddHint(a.value, b.value, c.value, p), p, n)
    ensures Asserted(w, n, MulAddChecks(a.native.cell, b.native.cell, c.native.cell, base, p, n))
  {
    var h := MulAddHint(a.value, b.value, c.value, p);
    MulAddHintExact(a.value, b.value, c.value, p);
    ModOfSmall(h.quotient, p);
    ModOfSmall(h.remainder, p);
    var q, r := w[base], w[base + 1];
    assert q == h.quotient % n && r == h.remainder % n;
    ModLe(h.quotient, n);
    ModLe(h.remainder, n);
    ModMulAdd(a.value, b.value, c.value, n);
    ModMulAdd(p, h.quotient, h.remainder, n);
    assert w[base + 2] == w[base + 4];
    var cs := MulAddChecks(a.native.cell, b.native.cell, c.native.cell, base, p, n);
    assert HoldsAsserted(w, n, cs[0]) && HoldsAsserted(w, n, cs[1]) && HoldsAsserted(w, n, cs[2]);
    assert HoldsAsserted(w, n, cs[3]) && HoldsAsserted(w, n, cs[4]) && HoldsAsserted(w, n, cs[5]);
  }

  /** `sub` multiplies by the constant p - 1, so it computes b - a, not a - b. */
  lemma SubReversesOperands(a: int, b: int, p: Modulus)
    ensures (a * (p - 1) + b) % p == (b - a) % p
  {
    assert a * (p - 1) + b == (b - a) + p * a;
    ModAddMultiple(b - a, p, a);
  }

  /** Multiplying two loaded constants gives the canonical form of the
      emulated-field product of the two inputs. */
  lemma MulOfConstants(x: int, y: int, p: Modulus)
    ensures (ToCanonicalU64(x, p) * ToCanonicalU64(y, p) + ToCanonicalU64(0, p)) % p == ToCanonicalU64(x * y, p)
  {
    ModMulAdd(x, y, 0, p);
  }

  /** With a native modulus of at least p, two elements below p have equal
      native cells exactly when their shadows are equal. */
  lemma AssertEqualHonest(x: Fp, y: Fp, w: seq<int>, n: NativeModulus, p: Modulus)
    requires p <= n
    requires IsElement(x, w, n) && IsElement(y, w, n) && x.value < p && y.value < p
    ensures Holds(w, n, Check.ConstrainEqual(x.native.cell, y.native.cell)) <==> x.value == y.value
  {
    ModOfSmall(x.value, n);
    ModOfSmall(y.value, n);
  }

  /** The checks `range_check` records over the cell `a` when the constant p
      is placed in cell `base`. */
  function RangeCheckChecks(a: nat, base: nat, p: Modulus, n: NativeModulus): seq<Check>
  {
    [Constant(base, p % n), CheckLessThan(a, base, 64)]
  }

  /** `range_check` in any assignment: if its two checks hold, p is below the
      native modulus and the checked cell already fits 64 bits, the checked
      cell is below p. */
  lemma RangeCheckBounds(w: seq<int>, n: NativeModulus, p: Modulus, a: nat, base: nat)
    requires p < n && a < |w| && base < |w|
    requires w[a] < U64
    requires Satisfied(w, n, RangeCheckChecks(a, base, p, n))
    ensures w[a] < p
  {
    var cs := RangeCheckChecks(a, base, p, n);
    assert Holds(w, n, cs[0]) && Holds(w, n, cs[1]);
    ModOfSmall(p, n);
    Pow2Of64();
  }

  /** `range_check` does not bound a cell that does not already fit 64 bits:
      with the checked cell holding n - 1, that is -1 in the native field,
      which no shadow can reach, both checks it records hold although the
      cell is not below p. */
  lemma RangeCheckAdmitsWideCell(n: NativeModulus, p: Modulus)
    requires U64 < n
    ensures InField([n - 1, p % n], n)
    ensures Satisfied([n - 1, p % n], n, RangeCheckChecks(0, 1, p, n))
    ensures p <= n - 1
  {
    var w := [n - 1, p % n];
    ModLe(p, n);
    Pow2Of64();
    assert Holds(w, n, CheckLessThan(0, 1, 64));
  }

  /** The checks of a `range_check` that first bounds the cell to 64 bits. */
  function BoundedRangeCheckChecks(a: nat, base: nat, p: Modulus, n: NativeModulus): seq<Check>
  {
    [RangeBits(a, 64)] + RangeCheckChecks(a, base, p, n)
  }

  /** With the 64-bit bound recorded first, the checks bound the cell below p
      in every assignment, whatever the cell holds. */
  lemma BoundedRangeCheckBounds(w: seq<int>, n: NativeModulus, p: Modulus, a: nat, base: nat)
    requires p < n && a < |w| && base < |w|
    requires Satisfied(w, n, BoundedRangeCheckChecks(a, base, p, n))
    ensures w[a] < p
  {
    var cs := BoundedRangeCheckChecks(a, base, p, n);
    assert Holds(w, n, cs[0]) && Holds(w, n, cs[1]) && Holds(w, n, cs[2]);
    Pow2Of64();
    RangeCheckBounds(w, n, p, a, base);
  }

  /** `range_check` on an honestly placed element: with a native modulus of at
      least 2^64, the check holds exactly when the shadow is below p. */
  lemma RangeCheckHonest(x: Fp, w: seq<int>, n: NativeModulus, p: Modulus, base: nat)
    requires U64 <= n
    requires IsElement(x, w, n) && base < |w| && w[base] == p % n
    ensures Holds(w, n, CheckLessThan(x.native.cell, base, 64)) <==> x.value < p
  {
    ModOfSmall(x.value, n);
    ModOfSmall(p, n);
    Pow2Of64();
  }

  /** The chip for the emulated field of modulus `p`. It keeps no state of its
      own; every operation appends to the context it is given. */
  class FpChip {
    const p: Modulus

    constructor (p: Modulus)
      ensures this.p == p
    {
      this.p := p;
    }

    /** Places the canonical form of `a` in a constant cell. */
    method LoadConstant(ctx: Context, a: int) returns (x: Fp)
      requires ctx.Valid()
      modifies ctx
      ensures ctx.Valid()
      ensures x == Loaded(a, old(|ctx.cells|), p, ctx.n)
      ensures IsElement(x, ctx.cells, ctx.n) && x.value < p
      ensures ctx.cells == old(ctx.cells) + [x.native.value]
      ensures ctx.checks == old(ctx.checks) + [Constant(x.native.cell, x.native.value)]
      ensures Asserted(old(ctx.cells), ctx.n, old(ctx.checks)) ==> Asserted(ctx.cells, ctx.n, ctx.checks)
    {
      ghost var w0, cs0 := ctx.cells, ctx.checks;
      var v := ToCanonicalU64(a, p);
      var native := ctx.LoadConstant(v % ctx.n);
      x := Fp(native, v);
      assert HoldsAsserted(ctx.cells, ctx.n, Constant(x.native.cell, x.native.value));
      if Asserted(w0, ctx.n, cs0) {
        AssertedExtend(w0, ctx.cells, ctx.n, cs0, [Constant(x.native.cell, x.native.value)]);
      }
    }

    /** Loads every input as a constant, in input order. */
    method LoadConstants(ctx: Context, a: seq<int>) returns (xs: seq<Fp>)
      requires ctx.Valid()
      modifies ctx
      ensures ctx.Valid()
      ensures |xs| == |a|
      ensures forall i | 0 <= i < |a| :: xs[i] == Loaded(a[i], old(|ctx.cells|) + i, p, ctx.n)
      ensures forall i | 0 <= i < |a| :: IsElement(xs[i], ctx.cells, ctx.n) && xs[i].value < p
      ensures |ctx.cells| == old(|ctx.cells|) + |a| && ctx.cells[..old(|ctx.cells|)] == old(ctx.cells)
      ensures |ctx.checks| == old(|ctx.checks|) + |a| && ctx.checks[..old(|ctx.checks|)] == old(ctx.checks)
      ensures forall i | 0 <= i < |a| ::
                ctx.checks[old(|ctx.checks|) + i] == Constant(xs[i].native.cell, xs[i].native.value)
      ensures Asserted(old(ctx.cells), ctx.n, old(ctx.checks)) ==> Asserted(ctx.cells, ctx.n, ctx.checks)
    {
      ghost var w0, cs0 := ctx.cells, ctx.checks;
      xs := [];
      var i := 0;
      while i < |a|
        invariant 0 <= i <= |a| && |xs| == i
        invariant ctx.Valid()
        invariant forall j | 0 <= j < i :: xs[j] == Loaded(a[j], |w0| + j, p, ctx.n)
        invariant forall j | 0 <= j < i :: IsElement(xs[j], ctx.cells, ctx.n) && xs[j].value < p
        invariant |ctx.cells| == |w0| + i && ctx.cells[..|w0|] == w0
        invariant |ctx.checks| == |cs0| + i && ctx.checks[..|cs0|] == cs0
        invariant forall j | 0 <= j < i ::
                    ctx.checks[|cs0| + j] == Constant(xs[j].native.cell, xs[j].native.value)
        invariant Asserted(w0, ctx.n, cs0) ==> Asserted(ctx.cells, ctx.n, ctx.checks)
      {
        var x := LoadConstant(ctx, a[i]);
        xs := xs + [x];
        i := i + 1;
      }
    }

    /** Places the canonical form of `a` in a witness cell; nothing bounds it. */
    method LoadWitness(ctx: Context, a: int) returns (x: Fp)
      requires ctx.Valid()
      modifies ctx
      ensures ctx.Valid()
      ensures x == Loaded(a, old(|ctx.cells|), p, ctx.n)
      ensures IsElement(x, ctx.cells, ctx.n) && x.value < p
      ensures ctx.cells == old(ctx.cells) + [x.native.value]
      ensures ctx.checks == old(ctx.checks)
    {
      var v := ToCanonicalU64(a, p);
      var native := ctx.LoadWitness(v % ctx.n);
      x := Fp(native, v);
    }

    /** a*b + c modulo p, by the hint-then-constrain protocol. */
    method MulAdd(ctx: Context, a: Fp, b: Fp, c: Fp) returns (r: Fp)
      requires ctx.Valid()
      requires IsElement(a, ctx.cells, ctx.n) && IsElement(b, ctx.cells, ctx.n) && IsElement(c, ctx.cells, ctx.n)
      modifies ctx
      ensures ctx.Valid()
      ensures r.value == (a.value * b.value + c.value) % p
      ensures IsElement(r, ctx.cells, ctx.n) && r.native.cell == old(|ctx.cells|) + 1
      ensures ctx.cells == old(ctx.cells) + MulAddCells(a.native.value, b.native.value, c.native.value,
                                                       MulAddHint(a.value, b.value, c.value, p), p, ctx.n)
      ensures ctx.checks == old(ctx.checks) + MulAddChecks(a.native.cell, b.native.cell, c.native.cell,
                                                         old(|ctx.cells|), p, ctx.n)
      ensures (a.value < p && b.value < p && c.value < p && Asserted(old(ctx.cells), ctx.n, old(ctx.checks)))
                ==> Asserted(ctx.cells, ctx.n, ctx.checks)
    {
      ghost var w0, cs0 := ctx.cells, ctx.checks;
      // 1. the hint, in exact integer arithmetic
      var h := MulAddHint(a.value, b.value, c.value, p);
      // 2. quotient and remainder as witnesses
      var quotient := LoadWitness(ctx, h.quotient);
      var remainder := LoadWitness(ctx, h.remainder);
      // 3. the native checks relating them to the operands
      var lhs := GateMulAdd(ctx, a.native, b.native, c.native);
      var pc := ctx.LoadConstant(p % ctx.n);
      var rhs := GateMulAdd(ctx, pc, quotient.native, remainder.native);
      GateIsEqual(ctx, lhs, rhs);
      RangeIsLessThanSafe(ctx, quotient.native, p);
      RangeIsLessThanSafe(ctx, remainder.native, p);
      r := remainder;
      ModOfSmall(h.remainder, p);
      assert ctx.cells[|w0|..] == MulAddCells(a.native.value, b.native.value, c.native.value, h, p, ctx.n);
      assert ctx.checks == cs0 + MulAddChecks(a.native.cell, b.native.cell, c.native.cell, |w0|, p, ctx.n);
      if a.value < p && b.value < p && c.value < p && Asserted(w0, ctx.n, cs0) {
        ghost var w, extra := ctx.cells, MulAddChecks(a.native.cell, b.native.cell, c.native.cell, |w0|, p, ctx.n);
        assert w[..|w0|] == w0;
        assert IsElement(a, w, ctx.n) && IsElement(b, w, ctx.n) && IsElement(c, w, ctx.n);
        MulAddComplete(w, ctx.n, p, a, b, c, |w0|);
        AssertedExtend(w0, w, ctx.n, cs0, extra);
      }
    }

    /** a + b, as `mul_add(a, 1, b)`. */
    method Add(ctx: Context, a: Fp, b: Fp) returns (r: Fp)
      requires ctx.Valid()
      requires IsElement(a, ctx.cells, ctx.n) && IsElement(b, ctx.cells, ctx.n)
      modifies ctx
      ensures ctx.Valid()
      ensures r.value == (a.value + b.value) % p
      ensures IsElement(r, ctx.cells, ctx.n) && r.native.cell == old(|ctx.cells|) + 2
      ensures ctx.cells == old(ctx.cells) + [1 % ctx.n]
                           + MulAddCells(a.native.value, 1 % ctx.n, b.native.value,
                                         MulAddHint(a.value, 1, b.value, p), p, ctx.n)
      ensures ctx.checks == old(ctx.checks) + [Constant(old(|ctx.cells|), 1 % ctx.n)]
                            + MulAddChecks(a.native.cell, old(|ctx.cells|), b.native.cell,
                                           old(|ctx.cells|) + 1, p, ctx.n)
      ensures (a.value < p && b.value < p && Asserted(old(ctx.cells), ctx.n, old(ctx.checks)))
                ==> Asserted(ctx.cells, ctx.n, ctx.checks)
    {
      var one := LoadConstant(ctx, 1);
      ModOfSmall(1, p);
      assert one.value == 1;
      r := MulAdd(ctx, a, one, b);
    }

    /** `mul_add(a, p - 1, b)`: this is b - a modulo p, the operands taken in
        the order the multiply-accumulate receives them. */
    method Sub(ctx: Context, a: Fp, b: Fp) returns (r: Fp)
      requires ctx.Valid()
      requires IsElement(a, ctx.cells, ctx.n) && IsElement(b, ctx.cells, ctx.n)
      modifies ctx
      ensures ctx.Valid()
      ensures r.value == (a.value * (p - 1) + b.value) % p == (b.value - a.value) % p
      ensures IsElement(r, ctx.cells, ctx.n) && r.native.cell == old(|ctx.cells|) + 2
      ensures ctx.cells == old(ctx.cells) + [(p - 1) % ctx.n]
                           + MulAddCells(a.native.value, (p - 1) % ctx.n, b.native.value,
                                         MulAddHint(a.value, p - 1, b.value, p), p, ctx.n)
      ensures ctx.checks == old(ctx.checks) + [Constant(old(|ctx.cells|), (p - 1) % ctx.n)]
                            + MulAddChecks(a.native.cell, old(|ctx.cells|), b.native.cell,
                                           old(|ctx.cells|) + 1, p, ctx.n)
      ensures (a.value < p && b.value < p && Asserted(old(ctx.cells), ctx.n, old(ctx.checks)))
                ==> Asserted(ctx.cells, ctx.n, ctx.checks)
    {
      var minusOne := LoadConstant(ctx, 0 - 1);
      assert minusOne.value == p - 1 by {
        DivModUnique(-1, p, -1, p - 1);
      }
      r := MulAdd(ctx, a, minusOne, b);
      SubReversesOperands(a.value, b.value, p);
    }

    /** a * b, as `mul_add(a, b, 0)`. */
    method Mul(ctx: Context, a: Fp, b: Fp) returns (r: Fp)
      requires ctx.Valid()
      requires IsElement(a, ctx.cells, ctx.n) && IsElement(b, ctx.cells, ctx.n)
      modifies ctx
      ensures ctx.Valid()
      ensures r.value == (a.value * b.value) % p
      ensures IsElement(r, ctx.cells, ctx.n) && r.native.cell == old(|ctx.cells|) + 2
      ensures ctx.cells == old(ctx.cells) + [0]
                           + MulAddCells(a.native.value, b.native.value, 0,
                                         MulAddHint(a.value, b.value, 0, p), p, ctx.n)
      ensures ctx.checks == old(ctx.checks) + [Constant(old(|ctx.cells|), 0)]
                            + MulAddChecks(a.native.cell, b.native.cell, old(|ctx.cells|),
                                           old(|ctx.cells|) + 1, p, ctx.n)
      ensures (a.value < p && b.value < p && Asserted(old(ctx.cells), ctx.n, old(ctx.checks)))
                ==> Asserted(ctx.cells, ctx.n, ctx.checks)
    {
      ghost var w0, cs0 := ctx.cells, ctx.checks;
      var zero := LoadConstant(ctx, 0);
      assert zero.value == 0 && zero.native.value == 0;
      assert ctx.cells == w0 + [0] && ctx.checks == cs0 + [Constant(|w0|, 0)];
      r := MulAdd(ctx, a, b, zero);
      assert zero == Fp(AssignedValue(|w0|, 0), 0);
      assert r.value == (a.value * b.value + 0) % p;
    }

    /** Checks that `a`'s cell is below the constant p, at bit width 64. */
    method RangeCheck(ctx: Context, a: Fp)
      requires ctx.Valid()
      modifies ctx
      ensures ctx.Valid()
      ensures ctx.cells == old(ctx.cells) + [p % ctx.n]
      ensures ctx.checks == old(ctx.checks) + RangeCheckChecks(a.native.cell, old(|ctx.cells|), p, ctx.n)
      ensures p % ctx.n < U64
      ensures IsElement(a, old(ctx.cells), ctx.n) ==>
                (Asserted(ctx.cells, ctx.n, ctx.checks) ==> a.native.value < p % ctx.n) &&
                ((Asserted(old(ctx.cells), ctx.n, old(ctx.checks)) && a.native.value < p % ctx.n)
                   ==> Asserted(ctx.cells, ctx.n, ctx.checks))
    {
      ghost var w0, cs0 := ctx.cells, ctx.checks;
      var pc := ctx.LoadConstant(p % ctx.n);
      RangeCheckLessThan(ctx, a.native, pc, 64);
      ghost var extra := RangeCheckChecks(a.native.cell, pc.cell, p, ctx.n);
      assert ctx.checks == cs0 + extra;
      ModLe(p, ctx.n);
      Pow2Of64();
      if IsElement(a, w0, ctx.n) {
        ModLe(a.value, ctx.n);
        if Asserted(ctx.cells, ctx.n, ctx.checks) {
          assert HoldsAsserted(ctx.cells, ctx.n, ctx.checks[|cs0| + 1]);
        }
        if Asserted(w0, ctx.n, cs0) && a.native.value < p % ctx.n {
          assert HoldsAsserted(ctx.cells, ctx.n, extra[0]) && HoldsAsserted(ctx.cells, ctx.n, extra[1]);
          AssertedExtend(w0, ctx.cells, ctx.n, cs0, extra);
        }
      }
    }

    /** `range_check` with the cell first bounded to 64 bits by the range
        chip, so that the less-than check's assumption is itself enforced. */
    method BoundedRangeCheck(ctx: Context, a: Fp)
      requires ctx.Valid()
      modifies ctx
      ensures ctx.Valid()
      ensures ctx.cells == old(ctx.cells) + [p % ctx.n]
      ensures ctx.checks == old(ctx.checks) + BoundedRangeCheckChecks(a.native.cell, old(|ctx.cells|), p, ctx.n)
      ensures Placed(a.native, old(ctx.cells)) ==>
                (Satisfied(ctx.cells, ctx.n, ctx.checks) ==> a.native.value < p)
      ensures IsElement(a, old(ctx.cells), ctx.n) ==>
                ((Asserted(old(ctx.cells), ctx.n, old(ctx.checks)) && a.native.value < p % ctx.n)
                   ==> Asserted(ctx.cells, ctx.n, ctx.checks))
    {
      ghost var w0, cs0 := ctx.cells, ctx.checks;
      RangeBitsCheck(ctx, a.native, 64);
      var pc := ctx.LoadConstant(p % ctx.n);
      RangeCheckLessThan(ctx, a.native, pc, 64);
      ghost var extra := BoundedRangeCheckChecks(a.native.cell, pc.cell, p, ctx.n);
      assert ctx.checks == cs0 + extra;
      ModLe(p, ctx.n);
      Pow2Of64();
      if Placed(a.native, w0) && Satisfied(ctx.cells, ctx.n, ctx.checks) {
        assert Holds(ctx.cells, ctx.n, ctx.checks[|cs0|]);
        assert Holds(ctx.cells, ctx.n, ctx.checks[|cs0| + 1]);
        assert Holds(ctx.cells, ctx.n, ctx.checks[|cs0| + 2]);
      }
      if IsElement(a, w0, ctx.n) && Asserted(w0, ctx.n, cs0) && a.native.value < p % ctx.n {
        ModLe(a.value, ctx.n);
        assert HoldsAsserted(ctx.cells, ctx.n, extra[0]) && HoldsAsserted(ctx.cells, ctx.n, extra[1]);
        assert HoldsAsserted(ctx.cells, ctx.n, extra[2]);
        AssertedExtend(w0, ctx.cells, ctx.n, cs0, extra);
      }
    }

    /** Constrains the native cells of `a` and `b` to be equal. */
    method AssertEqual(ctx: Context, a: Fp, b: Fp)
      requires ctx.Valid()
      modifies ctx
      ensures ctx.Valid()
      ensures ctx.cells == old(ctx.cells)
      ensures ctx.checks == old(ctx.checks) + [Check.ConstrainEqual(a.native.cell, b.native.cell)]
      ensures IsElement(a, ctx.cells, ctx.n) && IsElement(b, ctx.cells, ctx.n) ==>
                (Asserted(ctx.cells, ctx.n, ctx.checks) ==> a.native.value == b.native.value) &&
                ((Asserted(ctx.cells, ctx.n, old(ctx.checks)) && a.native.value == b.native.value)
                   ==> Asserted(ctx.cells, ctx.n, ctx.checks))
    {
      ghost var cs0 := ctx.checks;
      ctx.ConstrainEqual(a.native, b.native);
      ghost var extra := [Check.ConstrainEqual(a.native.cell, b.native.cell)];
      if IsElement(a, ctx.cells, ctx.n) && IsElement(b, ctx.cells, ctx.n) {
        if Asserted(ctx.cells, ctx.n, ctx.checks) {
          assert HoldsAsserted(ctx.cells, ctx.n, ctx.checks[|cs0|]);
        }
        if Asserted(ctx.cells, ctx.n, cs0) && a.native.value == b.native.value {
          assert HoldsAsserted(ctx.cells, ctx.n, extra[0]);
          AssertedExtend(ctx.cells, ctx.cells, ctx.n, cs0, extra);
        }
      }
    }
  }
}
