/**
 What the three secret-sharing sources have in common: the dealer's polynomial, the
 interpolation loop, and the theorem that any qualified set of shares gives the secret.
 */
module SecretSharing {
  import opened Modular
  import opened Primes
  import opened MersennePrime
  import opened Polynomials
  import opened MachineArithmetic

  /** The secret followed by the fixed coefficients that every dealer uses. */
  function DealerPolynomial(secret: int, threshold: nat): (c: seq<int>)
    requires threshold >= 1
    ensures |c| == threshold && c[0] == secret
    ensures forall i :: 1 <= i < threshold ==> 1 <= c[i] < PRIME
  {
    [secret] + seq(threshold - 1, i => ((i + 1) * 31337 + 7919) % (PRIME - 1) + 1)
  }

  /** After the secret the coefficients grow by 31337, from 39257 on, in every buffer size in use. */
  lemma CoefficientLaw(secret: int, threshold: nat, k: nat)
    requires 1 <= k < threshold <= 64
    ensures var c := DealerPolynomial(secret, threshold);
            && c[1] == 39257 && c[k] == 31337 * k + 7920
            && (k >= 2 ==> c[k] - c[k - 1] == 31337)
  {
  }

  /** The loop with which every dealer fills its coefficient buffer of the given size. */
  method DealerCoefficients(secret: int, threshold: nat, size: nat) returns (coeffs: array<int>)
    requires size >= 1 && threshold <= size <= 64
    ensures fresh(coeffs) && coeffs.Length == size && coeffs[0] == secret
    ensures forall k :: 1 <= k < threshold ==> 1 <= coeffs[k] < PRIME
    ensures forall k :: 1 <= k < threshold ==> coeffs[k] == 31337 * k + 7920
    ensures threshold >= 1 ==> coeffs[..threshold] == DealerPolynomial(secret, threshold)
  {
    coeffs := new int[size](_ => 0);
    coeffs[0] := secret;
    var i := 1;
    while i < threshold
      invariant i >= 1 && coeffs[0] == secret
      invariant forall k :: 1 <= k < i && k < threshold ==> coeffs[k] == (k * 31337 + 7919) % (PRIME - 1) + 1
    {
      coeffs[i] := (i * 31337 + 7919) % (PRIME - 1) + 1;
      i := i + 1;
    }
  }

  lemma EvalAtZero(c: seq<int>)
    requires c != []
    ensures Eval(c, 0) == c[0]
  {
  }

  // ---- Reconstruction ----

  /** The inverse of d modulo p; atZero is what the program's inverse loop yields for 0. */
  function Inverse(d: int, atZero: int, p: int): int
    requires p >= 2
  {
    if Mod(d, p) == 0 then atZero else Mod(Pow(d, p - 2), p)
  }

  function Inverses(xs: seq<int>, atZero: int, p: int): (ws: seq<int>)
    requires p >= 2
    ensures |ws| == |xs|
  {
    seq(|xs|, i requires 0 <= i < |xs| => Inverse(ProductSkipping(xs[i], xs, i, |xs|), atZero, p))
  }

  /** Lagrange's formula at zero, as the reconstruction loops compute it. */
  function Reconstructed(xs: seq<int>, ys: seq<int>, atZero: int, p: int): int
    requires p >= 2 && |xs| == |ys|
  {
    Mod(LagrangeSum(0, xs, ys, Inverses(xs, atZero, p), |xs|), p)
  }

  lemma InversesInvert(xs: seq<int>, atZero: int, p: int)
    requires IsPrime(p) && DistinctMod(xs, p)
    ensures Inverts(Inverses(xs, atZero, p), xs, p)
  {
    hide Mod, Pow, ProductSkipping;
    var n := |xs|;
    forall i | 0 <= i < n
      ensures Cong(ProductSkipping(xs[i], xs, i, n) * Inverses(xs, atZero, p)[i], 1, p)
    {
      var d := ProductSkipping(xs[i], xs, i, n);
      ProductSkippingUnit(xs[i], xs, i, n, p);
      FermatInverse(d, p);
      CongMod(Pow(d, p - 2), p);
      CongMul(d, d, Mod(Pow(d, p - 2), p), Pow(d, p - 2), p);
    }
  }

  /** The points (xs[i], ys[i]) lie on the polynomial c modulo p. */
  ghost predicate OnPolynomial(xs: seq<int>, ys: seq<int>, c: seq<int>, p: int)
    requires p > 0
  {
    |xs| == |ys| && forall i :: 0 <= i < |xs| ==> Cong(ys[i], Eval(c, xs[i]), p)
  }

  /**
   Points at distinct positions, at least as many as the polynomial has coefficients,
   reconstruct its constant term; how the inverse treats zero is immaterial.
   */
  lemma QualifiedPointsRecover(c: seq<int>, xs: seq<int>, ys: seq<int>, atZero: int, p: int)
    requires IsPrime(p) && DistinctMod(xs, p) && c != [] && |c| <= |xs| && OnPolynomial(xs, ys, c, p)
    ensures Reconstructed(xs, ys, atZero, p) == Mod(c[0], p)
  {
    hide Mod, Eval, LagrangeSum;
    InversesInvert(xs, atZero, p);
    LagrangeRecovers(c, xs, ys, Inverses(xs, atZero, p), 0, p);
    EvalAtZero(c);
  }

  lemma {:induction false} LagrangeSumAdds(
      xs: seq<int>, ys: seq<int>, us: seq<int>, vs: seq<int>, ws: seq<int>, k: nat, p: int)
    requires p > 0 && |xs| == |ys| == |us| == |vs| == |ws| && k <= |xs|
    requires forall i :: 0 <= i < |xs| ==> Cong(ys[i], us[i] + vs[i], p)
    ensures Cong(LagrangeSum(0, xs, ys, ws, k), LagrangeSum(0, xs, us, ws, k) + LagrangeSum(0, xs, vs, ws, k), p)
  {
    hide Mod, ProductSkipping;
    if k > 0 {
      var i := k - 1;
      LagrangeSumAdds(xs, ys, us, vs, ws, i, p);
      var f := ProductSkipping(0, xs, i, |xs|) * ws[i];
      FactorCong(ys[i], us[i] + vs[i], f, p);
      CongAdd(LagrangeSum(0, xs, ys, ws, i), LagrangeSum(0, xs, us, ws, i) + LagrangeSum(0, xs, vs, ws, i),
              ys[i] * f, (us[i] + vs[i]) * f, p);
      assert (us[i] + vs[i]) * f == us[i] * f + vs[i] * f;
    }
  }

  lemma ReconstructedRange(xs: seq<int>, ys: seq<int>, atZero: int, p: int)
    requires p >= 2 && |xs| == |ys|
    ensures 0 <= Reconstructed(xs, ys, atZero, p) < p
  {
  }

  /** Reconstruction is additive in the shares. */
  lemma ReconstructedAdds(xs: seq<int>, ys: seq<int>, us: seq<int>, vs: seq<int>, atZero: int, p: int)
    requires p >= 2 && |xs| == |ys| == |us| == |vs|
    requires forall i :: 0 <= i < |xs| ==> Cong(ys[i], us[i] + vs[i], p)
    ensures Cong(Reconstructed(xs, ys, atZero, p),
                 Reconstructed(xs, us, atZero, p) + Reconstructed(xs, vs, atZero, p), p)
  {
    hide Mod, LagrangeSum;
    var n, ws := |xs|, Inverses(xs, atZero, p);
    var y, u, v := LagrangeSum(0, xs, ys, ws, n), LagrangeSum(0, xs, us, ws, n), LagrangeSum(0, xs, vs, ws, n);
    LagrangeSumAdds(xs, ys, us, vs, ws, n, p);
    CongMod(y, p);
    CongMod(u, p);
    CongMod(v, p);
    CongAdd(Mod(u, p), u, Mod(v, p), v, p);
  }

  /** xs can be the positions of parties: distinct, and none of them at the secret's place. */
  ghost predicate Positions(xs: seq<int>, p: int)
    requires p > 0
  {
    DistinctMod(xs, p) && forall i :: 0 <= i < |xs| ==> !Cong(0, xs[i], p)
  }

  /** One point fewer than coefficients never gives the constant term, if the last one is a unit. */
  lemma OneShortIsWrong(c: seq<int>, xs: seq<int>, ys: seq<int>, atZero: int, p: int)
    requires IsPrime(p) && Positions(xs, p) && |c| == |xs| + 1 && OnPolynomial(xs, ys, c, p)
    requires !Divides(p, c[|xs|])
    ensures Reconstructed(xs, ys, atZero, p) != Mod(c[0], p)
  {
    hide Mod, Eval, LagrangeSum, Interpolant, Combine;
    if Reconstructed(xs, ys, atZero, p) == Mod(c[0], p) {
      var n, ws := |xs|, Inverses(xs, atZero, p);
      InversesInvert(xs, atZero, p);
      var f := Interpolant(xs, ys, ws, n) + Zeros(1);
      var d, zs := Combine(c, -1, f), xs + [0];
      forall i | 0 <= i <= n ensures Divides(p, Eval(d, zs[i])) {
        InterpolantEval(xs, ys, ws, n, zs[i]);
        EvalPadded(Interpolant(xs, ys, ws, n), 1, zs[i]);
        if i < n {
          LagrangeSumAtPoint(xs, ys, ws, n, i, p);
        } else {
          EvalAtZero(c);
        }
        EvalCombine(c, -1, f, zs[i]);
        CongDiff(Eval(c, zs[i]), Eval(f, zs[i]), p);
      }
      DistinctWithZero(xs, p);
      RootsForceZero(d, zs, p);
      LastOfDifference(c, f, n);
      assert false;
    }
  }

  lemma DistinctWithZero(xs: seq<int>, p: int)
    requires p > 0 && Positions(xs, p)
    ensures DistinctMod(xs + [0], p)
  {
  }

  lemma LastOfDifference(c: seq<int>, f: seq<int>, n: nat)
    requires |c| == |f| == n + 1 && f[n] == 0
    ensures Combine(c, -1, f)[n] == c[n]
  {
  }

  /**
   At repeated positions the two kinds of inverse differ: the Euclidean loop takes 1 for the
   inverse of 0, the power loop 0.
   */
  lemma RepeatedPosition(x: int, y: int)
    ensures Reconstructed([x, x], [y, y], 1, PRIME) == Mod(-2 * x * y, PRIME)
    ensures Reconstructed([x, x], [y, y], 0, PRIME) == 0
  {
    var xs, ys := [x, x], [y, y];
    SkippingOne(x, 0);
    SkippingOne(x, x);
    CongSmall(0, PRIME);
    var one, zero := Inverses(xs, 1, PRIME), Inverses(xs, 0, PRIME);
    assert one == [1, 1] && zero == [0, 0];
    hide Mod, ProductSkipping;
    SumOfTwo(xs, ys, one);
    SumOfTwo(xs, ys, zero);
    assert y * (-x * 1) + y * (-x * 1) == -2 * x * y;
    assert y * (-x * 0) + y * (-x * 0) == 0;
  }

  lemma SkippingOne(x: int, z: int)
    ensures ProductSkipping(z, [x, x], 0, 2) == ProductSkipping(z, [x, x], 1, 2) == z - x
  {
    assert ProductSkipping(z, [x, x], 0, 0) == 1 == ProductSkipping(z, [x, x], 1, 0);
    assert ProductSkipping(z, [x, x], 0, 1) == 1;
    assert ProductSkipping(z, [x, x], 1, 1) == 1 * (z - x);
  }

  lemma SumOfTwo(xs: seq<int>, ys: seq<int>, ws: seq<int>)
    requires |xs| == |ys| == |ws| == 2
    ensures LagrangeSum(0, xs, ys, ws, 2)
         == ys[0] * (ProductSkipping(0, xs, 0, 2) * ws[0]) + ys[1] * (ProductSkipping(0, xs, 1, 2) * ws[1])
  {
    hide ProductSkipping;
    assert LagrangeSum(0, xs, ys, ws, 0) == 0;
  }

  /** Positions in the range of either 32-bit type: no product in the loops overflows. */
  predicate SmallPositions(xs: seq<int>) {
    || (forall i :: 0 <= i < |xs| ==> Abs(xs[i]) < 0x8000_0000)
    || (forall i :: 0 <= i < |xs| ==> 0 <= xs[i] <= 0xFFFF_FFFF)
  }

  predicate SmallPoints(xs: seq<int>, ys: seq<int>) {
    && |xs| == |ys| && SmallPositions(xs)
    && forall i :: 0 <= i < |ys| ==> Abs(ys[i]) <= 0x8000_0000
  }

  lemma FactorCong(a: int, b: int, c: int, m: int)
    requires m > 0 && Cong(a, b, m)
    ensures Cong(a * c, b * c, m)
  {
    hide Mod;
    CongMul(a, b, c, c, m);
  }

  lemma FactorStep(a: int, b: int, f: int, p: int)
    requires 0 <= a < p <= 0x8000_0000 && Cong(a, b, p) && Abs(f) <= 0xFFFF_FFFF
    ensures Int64(a * f) && Cong(Mod(a * f, p), b * f, p)
  {
    hide Mod;
    ProductRange(a, f, 0x7FFF_FFFF, 0xFFFF_FFFF);
    FactorCong(a, b, f, p);
    CongMod(a * f, p);
  }

  /** The inner loop of all three reconstructions. */
  method LagrangeFactors(xs: seq<int>, i: nat) returns (numerator: int, denominator: int)
    requires i < |xs| && SmallPositions(xs)
    ensures numerator == Mod(ProductSkipping(0, xs, i, |xs|), PRIME)
    ensures denominator == Mod(ProductSkipping(xs[i], xs, i, |xs|), PRIME)
  {
    hide Mod;
    numerator, denominator := 1, 1;
    for j := 0 to |xs|
      invariant 0 <= numerator < PRIME && Cong(numerator, ProductSkipping(0, xs, i, j), PRIME)
      invariant 0 <= denominator < PRIME && Cong(denominator, ProductSkipping(xs[i], xs, i, j), PRIME)
    {
      if i == j {
        continue;
      }
      FactorStep(numerator, ProductSkipping(0, xs, i, j), -xs[j], PRIME);
      FactorStep(denominator, ProductSkipping(xs[i], xs, i, j), xs[i] - xs[j], PRIME);
      numerator := Reduce(numerator * (-xs[j]), PRIME);
      denominator := Reduce(denominator * (xs[i] - xs[j]), PRIME);
    }
    CongSmall(numerator, PRIME);
    CongSmall(denominator, PRIME);
  }

  /** The inverse loop on a reduced denominator is the inverse of the unreduced one. */
  lemma EuclidIsInverse(d: int, r: int)
    requires IsPrime(PRIME) && Mod(d, PRIME) != 0 && 0 <= r < PRIME && Cong(Mod(d, PRIME) * r, 1, PRIME)
    ensures r == Inverse(d, 1, PRIME)
  {
    hide Mod, Pow;
    CongMod(d, PRIME);
    CongMul(Mod(d, PRIME), d, r, r, PRIME);
    FermatInverse(d, PRIME);
    InverseUnique(d, r, Pow(d, PRIME - 2), PRIME);
    CongSmall(r, PRIME);
  }

  lemma InverseOfOne(d: int)
    requires IsPrime(PRIME) && Mod(d, PRIME) == 1
    ensures Inverse(d, 1, PRIME) == 1
  {
    hide Mod, Pow;
    CongSmall(1, PRIME);
    PowCong(d, 1, PRIME - 2, PRIME);
    PowOne(PRIME - 2);
  }

  /** ModInverse never divides by zero on a denominator reduced modulo the prime. */
  method InvertDenominator(denominator: int, ghost d: int) returns (inverse: int)
    requires denominator == Mod(d, PRIME)
    ensures inverse == Inverse(d, 1, PRIME) && 0 <= inverse < PRIME
  {
    PrimeIsPrime();
    if denominator >= 1 {
      CoprimeToPrime(denominator, PRIME);
    }
    var r := ModInverse(denominator, PRIME);
    inverse := r.value;
    if denominator > 1 {
      EuclidIsInverse(d, inverse);
    } else if denominator == 1 {
      InverseOfOne(d);
    }
  }

  lemma InterpolationStep(r: int, s: int, y: int, num: int, n: int, w: int)
    requires 0 <= r < PRIME && Cong(r, s, PRIME) && Abs(y) <= 0x8000_0000
    requires num == Mod(n, PRIME) && 0 <= w < PRIME
    ensures Int64(num * w)
    ensures var l := Mod(num * w, PRIME);
            Int64(r + y * l) && Cong(Mod(r + y * l, PRIME), s + y * (n * w), PRIME)
  {
    hide Mod;
    ProductRange(num, w, PRIME, PRIME);
    var l := Mod(num * w, PRIME);
    ProductRange(y, l, 0x8000_0000, PRIME);
    CongMod(n, PRIME);
    CongMod(num * w, PRIME);
    FactorCong(num, n, w, PRIME);
    TermCong(r, s, y, l, n * w, PRIME);
    CongMod(r + y * l, PRIME);
  }

  /** `mpc_shamir_reconstruct` and `ts_sss_reconstruct` on the points that they select. */
  method InterpolateAtZero(xs: seq<int>, ys: seq<int>) returns (secret: int)
    requires SmallPoints(xs, ys)
    ensures secret == Reconstructed(xs, ys, 1, PRIME)
  {
    hide Mod, ProductSkipping, Inverse;
    ghost var ws := Inverses(xs, 1, PRIME);
    var result := 0;
    for i := 0 to |xs|
      invariant 0 <= result < PRIME && Cong(result, LagrangeSum(0, xs, ys, ws, i), PRIME)
    {
      var numerator, denominator := LagrangeFactors(xs, i);
      var inverse := InvertDenominator(denominator, ProductSkipping(xs[i], xs, i, |xs|));
      InterpolationStep(result, LagrangeSum(0, xs, ys, ws, i), ys[i], numerator,
                        ProductSkipping(0, xs, i, |xs|), inverse);
      var lagrange := Reduce(numerator * inverse, PRIME);
      result := Reduce(result + ys[i] * lagrange, PRIME);
    }
    CongSmall(result, PRIME);
    secret := result;
  }
}
