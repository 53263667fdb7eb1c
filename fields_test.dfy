/**
  The chip's test, over the Goldilocks field emulated in the BN254 scalar
  field, and three worked instances of the derived operations.
*/
module FieldsTest {
  import opened Arith
  import opened Native
  import opened Fields

  /** The order of the BN254 scalar field, the native field of the test. */
  const BN254_R: NativeModulus := 21888242871839275222246405745257275088548364400416034343698204186575808495617

  /** For every sample pair (a, b): load a*b as a constant, load a and b as
      constants, multiply them with the chip and assert the product equal to
      the constant. The honest cells satisfy every recorded check, so every
      enforced check holds too. The samples stand for the test's random draws. */
  method TestFpChip(samples: seq<(int, int)>) returns (ctx: Context)
    ensures ctx.n == BN254_R
    ensures |ctx.cells| == 9 * |samples| && |ctx.checks| == 11 * |samples|
    ensures Asserted(ctx.cells, ctx.n, ctx.checks)
    ensures Satisfied(ctx.cells, ctx.n, ctx.checks)
  {
    ctx := new Context(BN254_R);
    var chip := new FpChip(GOLDILOCKS);
    var i := 0;
    while i < |samples|
      invariant 0 <= i <= |samples|
      invariant ctx.Valid() && ctx.n == BN254_R
      invariant |ctx.cells| == 9 * i && |ctx.checks| == 11 * i
      invariant Asserted(ctx.cells, ctx.n, ctx.checks)
    {
      var (a, b) := samples[i];
      var c1 := chip.LoadConstant(ctx, a * b);
      var aWire := chip.LoadConstant(ctx, a);
      var bWire := chip.LoadConstant(ctx, b);
      var c2 := chip.Mul(ctx, aWire, bWire);
      MulOfConstants(a, b, GOLDILOCKS);
      assert c1.value == c2.value;
      chip.AssertEqual(ctx, c1, c2);
      i := i + 1;
    }
    AssertedIsSatisfied(ctx.cells, ctx.n, ctx.checks);
  }

  /** 2^63 * 2^63 in the Goldilocks field: 2^126 is -2^30 modulo
      2^64 - 2^32 + 1. */
  method MulScenario() returns (r: Fp)
    ensures r.value == 0xFFFF_FFFE_C000_0001
  {
    var ctx := new Context(BN254_R);
    var chip := new FpChip(GOLDILOCKS);
    var a := chip.LoadConstant(ctx, 0x8000_0000_0000_0000);
    var b := chip.LoadConstant(ctx, 0x8000_0000_0000_0000);
    r := chip.Mul(ctx, a, b);
  }

  /** 0 + (p - 1) is p - 1. */
  method AddScenario() returns (r: Fp)
    ensures r.value == GOLDILOCKS - 1
  {
    var ctx := new Context(BN254_R);
    var chip := new FpChip(GOLDILOCKS);
    var zero := chip.LoadConstant(ctx, 0);
    var top := chip.LoadConstant(ctx, GOLDILOCKS - 1);
    r := chip.Add(ctx, zero, top);
  }

  /** `sub(1, 0)` is p - 1, that is 0 - 1 and not 1 - 0. */
  method SubScenario() returns (r: Fp)
    ensures r.value == GOLDILOCKS - 1
  {
    var ctx := new Context(BN254_R);
    var chip := new FpChip(GOLDILOCKS);
    var one := chip.LoadConstant(ctx, 1);
    var zero := chip.LoadConstant(ctx, 0);
    r := chip.Sub(ctx, one, zero);
  }
}
