/** Pass calibration: how many traversals of the working set a benchmark
    makes, as a function of the working-set size in KB. The curve is fixed
    at build time by the USE_PASSES_CURVE_1 / USE_PASSES_CURVE_2 switches. */
module Passes {
  import opened CTypes

  /** Numerator of the inverse-proportional curve (passes * KB stays at
      about 64 MiB of traffic). */
  const CURVE1_NUMERATOR: nat := 65536
  /** Numerator of the second curve, written 4*2097152 in the source. */
  const CURVE2_NUMERATOR: nat := 4 * 2097152

  datatype PassesCurve = Curve1 | Curve2 | NoCurve

  /** The build switches as the preprocessor reads them: curve 1 is tested
      first, so it wins when both switches are defined. */
  function SelectCurve(curve1Defined: bool, curve2Defined: bool): (c: PassesCurve)
    ensures c == Curve1 <==> curve1Defined
    ensures c == Curve2 <==> !curve1Defined && curve2Defined
    ensures c == NoCurve <==> !curve1Defined && !curve2Defined
  {
    if curve1Defined then Curve1 else if curve2Defined then Curve2 else NoCurve
  }

  /** `q ^ 2` on an unsigned value, stated in arithmetic: flip bit 1 of q,
      adding 2 when that bit is clear and subtracting 2 when it is set.
      XorTwoTogglesBitOne states the corresponding fact for the bit-vector
      operator on 64-bit words; the two are not proved to agree. */
  function XorTwo(q: nat): (r: nat)
    ensures r == q + 2 || r + 2 == q
    ensures r % 2 == q % 2 && r / 4 == q / 4
  {
    if (q / 2) % 2 == 1 then q - 2 else q + 2
  }

  /** Toggling bit 1 twice gives back the argument. */
  lemma XorTwoInvolution(q: nat)
    ensures XorTwo(XorTwo(q)) == q
  {
  }

  /** On 64-bit words, XOR with 2 adds 2 when bit 1 is clear and
      subtracts 2 when it is set. */
  lemma XorTwoTogglesBitOne(b: bv64)
    ensures b & 2 == 0 ==> b ^ 2 == b + 2
    ensures b & 2 != 0 ==> b ^ 2 == b - 2
  {
  }

  /** compute_number_of_passes as written. In C++ `/` binds tighter than
      `^`, so curve 2 computes (8388608 / size) XOR 2 and not 8388608
      divided by the square of the size, which was probably intended (see
      ComputeNumberOfPassesCorrected). */
  function ComputeNumberOfPasses(curve: PassesCurve, workingSetSizeKB: uint64): (passes: uint64)
    requires curve != NoCurve ==> workingSetSizeKB > 0
    ensures passes >= 1
    ensures curve == NoCurve ==> passes == 1
  {
    var raw := match curve
      case Curve1 => CURVE1_NUMERATOR / workingSetSizeKB
      case Curve2 => XorTwo(CURVE2_NUMERATOR / workingSetSizeKB)
      case NoCurve => 0;
    if raw < 1 then 1 else raw
  }

  /** Curve 2 with the divisor squared, the evidently intended
      inverse-square curve; curve 1 and the clamp are unchanged. */
  function ComputeNumberOfPassesCorrected(curve: PassesCurve, workingSetSizeKB: uint64): (passes: nat)
    requires curve != NoCurve ==> workingSetSizeKB > 0
    ensures passes >= 1
    ensures curve != Curve2 ==> passes == ComputeNumberOfPasses(curve, workingSetSizeKB)
  {
    var raw := match curve
      case Curve1 => CURVE1_NUMERATOR / workingSetSizeKB
      case Curve2 => CURVE2_NUMERATOR / (workingSetSizeKB * workingSetSizeKB)
      case NoCurve => 0;
    if raw < 1 then 1 else raw
  }

  // Division facts on naturals.

  /** q is n / d exactly when q * d <= n < (q + 1) * d. */
  lemma DivByBounds(n: nat, d: nat, q: nat)
    requires d > 0
    requires q * d <= n < (q + 1) * d
    ensures n / d == q
  {
    DivBounds(n, d);
    MulCancelLess(n / d, q + 1, d);
    MulCancelLess(q, n / d + 1, d);
  }

  lemma MulCancelLess(a: nat, b: nat, d: nat)
    requires d > 0 && a * d < b * d
    ensures a < b
  {
    if a >= b {
      MulMonotone(b, a, d);
    }
  }

  lemma MulMonotone(a: nat, b: nat, d: nat)
    requires a <= b
    ensures a * d <= b * d
  {
  }

  lemma DivBounds(n: nat, d: nat)
    requires d > 0
    ensures (n / d) * d <= n < (n / d + 1) * d
  {
    assert (n / d) * d + n % d == n;
  }

  /** A larger divisor never gives a larger quotient. */
  lemma DivAntitone(n: nat, d1: nat, d2: nat)
    requires 0 < d1 <= d2
    ensures n / d2 <= n / d1
  {
    var q := n / d2;
    DivBounds(n, d2);
    MulMonotone(d1, d2, q);
    assert d1 * q == q * d1 && d2 * q == q * d2;
    DivBounds(n, d1);
    MulCancelLess(q, n / d1 + 1, d1);
  }

  /** Curve 1 keeps the work of a run near 64 MiB: for working sets up to
      64 MiB, passes * size lies in (65536 - size, 65536]; larger working
      sets get the single pass the clamp allows. */
  lemma Curve1BoundsWork(workingSetSizeKB: uint64)
    requires workingSetSizeKB > 0
    ensures var passes := ComputeNumberOfPasses(Curve1, workingSetSizeKB);
      (workingSetSizeKB <= CURVE1_NUMERATOR ==>
         passes * workingSetSizeKB <= CURVE1_NUMERATOR < (passes + 1) * workingSetSizeKB) &&
      (workingSetSizeKB > CURVE1_NUMERATOR ==> passes == 1)
  {
    DivBounds(CURVE1_NUMERATOR, workingSetSizeKB);
    if workingSetSizeKB > CURVE1_NUMERATOR {
      DivByBounds(CURVE1_NUMERATOR, workingSetSizeKB, 0);
    }
  }

  /** Under curve 1 a larger working set never gets more passes. */
  lemma Curve1Antitone(smallerKB: uint64, largerKB: uint64)
    requires 0 < smallerKB <= largerKB
    ensures ComputeNumberOfPasses(Curve1, largerKB) <= ComputeNumberOfPasses(Curve1, smallerKB)
  {
    DivAntitone(CURVE1_NUMERATOR, smallerKB, largerKB);
  }

  /** Inverse proportionality of curve 1: doubling the working set halves
      the pass count (rounding down), down to the floor of one pass. */
  lemma Curve1Doubling(workingSetSizeKB: uint64)
    requires 0 < workingSetSizeKB && 2 * workingSetSizeKB < U64_RANGE
    ensures var p := ComputeNumberOfPasses(Curve1, workingSetSizeKB);
      ComputeNumberOfPasses(Curve1, 2 * workingSetSizeKB) == if p / 2 < 1 then 1 else p / 2
  {
    var s := workingSetSizeKB;
    var q := CURVE1_NUMERATOR / s;
    var h := q / 2;
    DivBounds(CURVE1_NUMERATOR, s);
    assert h * 2 <= q && q < (h + 1) * 2;
    assert h * (2 * s) == (h * 2) * s <= q * s;
    assert (h + 1) * (2 * s) == ((h + 1) * 2) * s >= (q + 1) * s;
    DivByBounds(CURVE1_NUMERATOR, 2 * s, h);
    if q < 1 {
      assert h == 0;
    }
  }

  /** Curve 2 as written is not monotone: a 4 GiB working set gets one
      pass and an 8 GiB working set gets three, because 8388608 / size
      is 2 and 1 respectively and XOR 2 maps them to 0 and 3. */
  lemma Curve2AsWrittenNotAntitone()
    ensures ComputeNumberOfPasses(Curve2, 4194304) == 1
    ensures ComputeNumberOfPasses(Curve2, 8388608) == 3
  {
  }

  /** Curve 2 as written only perturbs the inverse-proportional quotient
      8388608 / size by 2, so a 1 MiB working set gets 8194 passes where
      the inverse-square curve gives 8. */
  lemma Curve2AsWrittenIsNotInverseSquare()
    ensures ComputeNumberOfPasses(Curve2, 1024) == 8194
    ensures ComputeNumberOfPassesCorrected(Curve2, 1024) == 8
  {
  }

  /** Curve 2 as written is the inverse-proportional quotient moved by
      exactly two whenever that is at least one. */
  lemma Curve2AsWrittenWithinTwo(workingSetSizeKB: uint64)
    requires workingSetSizeKB > 0
    ensures var q := CURVE2_NUMERATOR / workingSetSizeKB;
      var p := ComputeNumberOfPasses(Curve2, workingSetSizeKB);
      p == q + 2 || p == q - 2 || (p == 1 && q <= 2)
  {
  }

  /** The corrected curve 2 is antitone in the working-set size. */
  lemma Curve2CorrectedAntitone(smallerKB: uint64, largerKB: uint64)
    requires 0 < smallerKB <= largerKB
    ensures ComputeNumberOfPassesCorrected(Curve2, largerKB) <= ComputeNumberOfPassesCorrected(Curve2, smallerKB)
  {
    assert smallerKB * smallerKB <= smallerKB * largerKB <= largerKB * largerKB;
    DivAntitone(CURVE2_NUMERATOR, smallerKB * smallerKB, largerKB * largerKB);
  }

  /** The corrected curve 2 is inverse-square: passes * size^2 lies in
      (8388608 - size^2, 8388608] until the clamp takes over. */
  lemma Curve2CorrectedBoundsWork(workingSetSizeKB: uint64)
    requires workingSetSizeKB > 0
    ensures var passes := ComputeNumberOfPassesCorrected(Curve2, workingSetSizeKB);
      var sq := workingSetSizeKB * workingSetSizeKB;
      (sq <= CURVE2_NUMERATOR ==> passes * sq <= CURVE2_NUMERATOR < (passes + 1) * sq) &&
      (sq > CURVE2_NUMERATOR ==> passes == 1)
  {
    var sq := workingSetSizeKB * workingSetSizeKB;
    DivBounds(CURVE2_NUMERATOR, sq);
    if sq > CURVE2_NUMERATOR {
      DivByBounds(CURVE2_NUMERATOR, sq, 0);
    }
  }
}
