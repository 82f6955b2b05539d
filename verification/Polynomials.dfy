/**
 Polynomials as coefficient sequences (constant term first), evaluated over the integers
 and compared modulo a prime.  A nonzero polynomial with n coefficients has fewer than n
 roots, hence Lagrange interpolation through n points finds the only candidate.
 */
module Polynomials {
  import opened Modular
  import opened Primes

  function Eval(c: seq<int>, x: int): int {
    if c == [] then 0 else c[0] + x * Eval(c[1..], x)
  }

  lemma {:induction false} EvalSnoc(c: seq<int>, a: int, x: int)
    ensures Eval(c + [a], x) == Eval(c, x) + a * Pow(x, |c|)
  {
    if c == [] {
      assert Eval([a], x) == a + x * Eval([], x);
    } else {
      EvalSnoc(c[1..], a, x);
      assert (c + [a])[1..] == c[1..] + [a];
      assert x * (a * Pow(x, |c| - 1)) == a * Pow(x, |c|);
    }
  }

  /** a + k*b, coefficient by coefficient. */
  function Combine(a: seq<int>, k: int, b: seq<int>): (r: seq<int>)
    requires |a| == |b|
    ensures |r| == |a|
  {
    seq(|a|, i requires 0 <= i < |a| => a[i] + k * b[i])
  }

  lemma {:induction false} EvalCombine(a: seq<int>, k: int, b: seq<int>, x: int)
    requires |a| == |b|
    ensures Eval(Combine(a, k, b), x) == Eval(a, x) + k * Eval(b, x)
  {
    if a != [] {
      EvalCombine(a[1..], k, b[1..], x);
      assert Combine(a, k, b)[1..] == Combine(a[1..], k, b[1..]);
      LinearStep(a[0], b[0], Eval(a[1..], x), Eval(b[1..], x), k, x);
    }
  }

  lemma LinearStep(a: int, b: int, s: int, t: int, k: int, x: int)
    ensures (a + k * b) + x * (s + k * t) == (a + x * s) + k * (b + x * t)
  {
  }

  function Zeros(n: nat): (r: seq<int>)
    ensures |r| == n && forall i :: 0 <= i < n ==> r[i] == 0
  {
    seq(n, _ => 0)
  }

  lemma {:induction false} EvalZeros(n: nat, x: int)
    ensures Eval(Zeros(n), x) == 0
  {
    if n != 0 {
      EvalZeros(n - 1, x);
      assert Zeros(n)[1..] == Zeros(n - 1);
    }
  }

  lemma {:induction false} EvalPadded(c: seq<int>, n: nat, x: int)
    ensures Eval(c + Zeros(n), x) == Eval(c, x)
  {
    if c == [] {
      assert c + Zeros(n) == Zeros(n);
      EvalZeros(n, x);
    } else {
      EvalPadded(c[1..], n, x);
      assert (c + Zeros(n))[1..] == c[1..] + Zeros(n);
    }
  }

  lemma {:induction false} EvalOfMultiples(c: seq<int>, x: int, p: int)
    requires p > 0 && forall k :: 0 <= k < |c| ==> Divides(p, c[k])
    ensures Divides(p, Eval(c, x))
  {
    hide Mod;
    CongSmall(0, p);
    if c != [] {
      EvalOfMultiples(c[1..], x, p);
      CongMul(x, x, Eval(c[1..], x), 0, p);
      CongAdd(c[0], 0, x * Eval(c[1..], x), 0, p);
    }
  }

  // ---- Roots ----

  /** The quotient of c by (X - r). */
  function Deflate(c: seq<int>, r: int): (q: seq<int>)
    requires c != []
    ensures |q| == |c| - 1
  {
    if |c| == 1 then [] else [Eval(c[1..], r)] + Deflate(c[1..], r)
  }

  lemma {:induction false} DeflateEval(c: seq<int>, r: int, x: int)
    requires c != []
    ensures Eval(c, x) == (x - r) * Eval(Deflate(c, r), x) + Eval(c, r)
  {
    if |c| != 1 {
      DeflateEval(c[1..], r, x);
      var t, d := Eval(c[1..], r), Deflate(c[1..], r);
      assert Deflate(c, r)[1..] == d;
      DivisionStep(x, r, t, Eval(d, x), c[0]);
    }
  }

  lemma DivisionStep(x: int, r: int, t: int, e: int, c0: int)
    ensures (x - r) * (t + x * e) + (c0 + r * t) == c0 + x * ((x - r) * e + t)
  {
    assert (x - r) * (t + x * e) == x * t - r * t + (x - r) * (x * e);
    assert (x - r) * (x * e) == x * ((x - r) * e);
  }

  lemma {:induction false} CoefficientsFromQuotient(c: seq<int>, r: int, p: int)
    requires c != [] && p > 0 && Divides(p, Eval(c, r))
    requires forall k :: 0 <= k < |c| - 1 ==> Divides(p, Deflate(c, r)[k])
    ensures forall k :: 0 <= k < |c| ==> Divides(p, c[k])
  {
    hide Mod;
    CongSmall(0, p);
    var t := Eval(c[1..], r);
    if |c| == 1 {
      assert t == 0;
      assert Eval(c, r) == c[0];
    } else {
      var d := Deflate(c, r);
      assert Divides(p, d[0]);
      assert d[1..] == Deflate(c[1..], r);
      forall k | 0 <= k < |c| - 2 ensures Divides(p, Deflate(c[1..], r)[k]) {
        assert d[k + 1] == Deflate(c[1..], r)[k];
      }
      CoefficientsFromQuotient(c[1..], r, p);
      CongMul(r, r, t, 0, p);
      CongSub(Eval(c, r), 0, r * t, 0, p);
      forall k | 0 <= k < |c| ensures Divides(p, c[k]) {
        if k > 0 {
          assert c[k] == c[1..][k - 1];
        }
      }
    }
  }

  ghost predicate DistinctMod(xs: seq<int>, p: int)
    requires p > 0
  {
    forall i, j :: 0 <= i < j < |xs| ==> !Cong(xs[i], xs[j], p)
  }

  lemma RootOfQuotient(c: seq<int>, r: int, x: int, p: int)
    requires IsPrime(p) && c != [] && !Cong(r, x, p)
    requires Divides(p, Eval(c, r)) && Divides(p, Eval(c, x))
    ensures Divides(p, Eval(Deflate(c, r), x))
  {
    hide Mod, Eval, Deflate, IsPrime;
    CongSmall(0, p);
    DeflateEval(c, r, x);
    CongSub(Eval(c, x), 0, Eval(c, r), 0, p);
    CongDiff(r, x, p);
    RootOfFactor(x - r, Eval(Deflate(c, r), x), Eval(c, x) - Eval(c, r), p);
  }

  lemma RootOfFactor(a: int, b: int, n: int, p: int)
    requires IsPrime(p) && Divides(p, n) && n == a * b && !Divides(p, -a)
    ensures Divides(p, b)
  {
    hide Mod, IsPrime;
    CongSmall(0, p);
    if Divides(p, a) {
      CongSub(0, 0, a, 0, p);
    }
    EuclidLemma(a, b, p);
  }

  /** A polynomial with as many distinct roots as coefficients vanishes identically. */
  lemma {:induction false} RootsForceZero(c: seq<int>, xs: seq<int>, p: int)
    requires IsPrime(p) && DistinctMod(xs, p) && |c| <= |xs|
    requires forall i :: 0 <= i < |xs| ==> Divides(p, Eval(c, xs[i]))
    ensures forall k :: 0 <= k < |c| ==> Divides(p, c[k])
    decreases |c|
  {
    hide Mod;
    if c != [] {
      var r, rest := xs[0], xs[1..];
      forall i | 0 <= i < |rest| ensures Divides(p, Eval(Deflate(c, r), rest[i])) {
        RootOfQuotient(c, r, xs[i + 1], p);
      }
      RootsForceZero(Deflate(c, r), rest, p);
      CoefficientsFromQuotient(c, r, p);
    }
  }

  /** Two polynomials with n coefficients that agree at n distinct points agree everywhere. */
  lemma InterpolationIsUnique(a: seq<int>, b: seq<int>, xs: seq<int>, z: int, p: int)
    requires IsPrime(p) && DistinctMod(xs, p) && |a| == |b| <= |xs|
    requires forall i :: 0 <= i < |xs| ==> Cong(Eval(a, xs[i]), Eval(b, xs[i]), p)
    ensures Cong(Eval(a, z), Eval(b, z), p)
  {
    hide Mod, Eval, Combine;
    var d := Combine(a, -1, b);
    forall i | 0 <= i < |xs| ensures Divides(p, Eval(d, xs[i])) {
      EvalCombine(a, -1, b, xs[i]);
      CongDiff(Eval(a, xs[i]), Eval(b, xs[i]), p);
    }
    RootsForceZero(d, xs, p);
    EvalOfMultiples(d, z, p);
    EvalCombine(a, -1, b, z);
    CongDiff(Eval(a, z), Eval(b, z), p);
  }

  // ---- Lagrange interpolation ----

  /** The product of z - xs[j] over j < n with j != i. */
  function ProductSkipping(z: int, xs: seq<int>, i: int, n: nat): int
    requires n <= |xs|
  {
    if n == 0 then 1
    else if n - 1 == i then ProductSkipping(z, xs, i, n - 1)
    else ProductSkipping(z, xs, i, n - 1) * (z - xs[n - 1])
  }

  /** Coefficients of c * (X - r). */
  function TimesLinear(c: seq<int>, r: int): (d: seq<int>)
    ensures |d| == |c| + 1
  {
    Combine([0] + c, -r, c + [0])
  }

  lemma TimesLinearEval(c: seq<int>, r: int, x: int)
    ensures Eval(TimesLinear(c, r), x) == Eval(c, x) * (x - r)
  {
    EvalCombine([0] + c, -r, c + [0], x);
    EvalSnoc(c, 0, x);
    assert ([0] + c)[1..] == c;
    assert x * Eval(c, x) + (-r) * Eval(c, x) == Eval(c, x) * (x - r);
  }

  /** Coefficients of the polynomial whose value at z is ProductSkipping(z, xs, i, n). */
  function SkippingPolynomial(xs: seq<int>, i: int, n: nat): (c: seq<int>)
    requires n <= |xs|
    ensures |c| == if 0 <= i < n then n else n + 1
  {
    if n == 0 then [1]
    else if n - 1 == i then SkippingPolynomial(xs, i, n - 1)
    else TimesLinear(SkippingPolynomial(xs, i, n - 1), xs[n - 1])
  }

  lemma {:induction false} SkippingPolynomialEval(xs: seq<int>, i: int, n: nat, z: int)
    requires n <= |xs|
    ensures Eval(SkippingPolynomial(xs, i, n), z) == ProductSkipping(z, xs, i, n)
  {
    hide Eval, TimesLinear;
    if n == 0 {
      EvalConstant(1, z);
    } else {
      SkippingPolynomialEval(xs, i, n - 1, z);
      TimesLinearEval(SkippingPolynomial(xs, i, n - 1), xs[n - 1], z);
    }
  }

  lemma EvalConstant(a: int, z: int)
    ensures Eval([a], z) == a
  {
    assert Eval([a], z) == a + z * Eval([], z);
  }

  lemma {:induction false} ProductSkippingVanishes(xs: seq<int>, i: int, n: nat, j: nat)
    requires j < n <= |xs| && i != j
    ensures ProductSkipping(xs[j], xs, i, n) == 0
  {
    if n - 1 != j {
      ProductSkippingVanishes(xs, i, n - 1, j);
    }
  }

  lemma {:induction false} ProductSkippingUnit(z: int, xs: seq<int>, i: int, n: nat, p: int)
    requires IsPrime(p) && n <= |xs|
    requires forall j :: 0 <= j < n && j != i ==> !Cong(z, xs[j], p)
    ensures !Divides(p, ProductSkipping(z, xs, i, n))
  {
    hide Mod;
    if n == 0 {
      CongSmall(1, p);
    } else {
      ProductSkippingUnit(z, xs, i, n - 1, p);
      if n - 1 != i {
        CongDiff(z, xs[n - 1], p);
        EuclidLemma(ProductSkipping(z, xs, i, n - 1), z - xs[n - 1], p);
      }
    }
  }

  /** ws holds an inverse of every Lagrange denominator. */
  ghost predicate Inverts(ws: seq<int>, xs: seq<int>, p: int)
    requires p > 0
  {
    && |ws| == |xs|
    && forall i :: 0 <= i < |xs| ==> Cong(ProductSkipping(xs[i], xs, i, |xs|) * ws[i], 1, p)
  }

  /** The first k terms of Lagrange's formula at z, with ws for the inverted denominators. */
  function LagrangeSum(z: int, xs: seq<int>, ys: seq<int>, ws: seq<int>, k: nat): int
    requires |ys| == |ws| == |xs| && k <= |xs|
  {
    if k == 0 then 0
    else LagrangeSum(z, xs, ys, ws, k - 1)
         + ys[k - 1] * (ProductSkipping(z, xs, k - 1, |xs|) * ws[k - 1])
  }

  ghost function Interpolant(xs: seq<int>, ys: seq<int>, ws: seq<int>, k: nat): (c: seq<int>)
    requires |ys| == |ws| == |xs| && k <= |xs|
    ensures |c| == |xs|
  {
    if k == 0 then Zeros(|xs|)
    else Combine(Interpolant(xs, ys, ws, k - 1), ys[k - 1] * ws[k - 1],
                 SkippingPolynomial(xs, k - 1, |xs|))
  }

  lemma {:induction false} InterpolantEval(xs: seq<int>, ys: seq<int>, ws: seq<int>, k: nat, z: int)
    requires |ys| == |ws| == |xs| && k <= |xs|
    ensures Eval(Interpolant(xs, ys, ws, k), z) == LagrangeSum(z, xs, ys, ws, k)
  {
    hide Eval, ProductSkipping, SkippingPolynomial, Combine;
    if k == 0 {
      EvalZeros(|xs|, z);
    } else {
      var s := SkippingPolynomial(xs, k - 1, |xs|);
      InterpolantEval(xs, ys, ws, k - 1, z);
      EvalCombine(Interpolant(xs, ys, ws, k - 1), ys[k - 1] * ws[k - 1], s, z);
      SkippingPolynomialEval(xs, k - 1, |xs|, z);
      TermOrder(ys[k - 1], ws[k - 1], ProductSkipping(z, xs, k - 1, |xs|));
    }
  }

  lemma TermOrder(y: int, w: int, n: int)
    ensures (y * w) * n == y * (n * w)
  {
  }

  lemma {:induction false} LagrangeSumAtPoint(xs: seq<int>, ys: seq<int>, ws: seq<int>, k: nat, j: nat, p: int)
    requires p > 0 && |ys| == |xs| && k <= |xs| && j < |xs| && Inverts(ws, xs, p)
    ensures Cong(LagrangeSum(xs[j], xs, ys, ws, k), if j < k then ys[j] else 0, p)
  {
    hide Mod, ProductSkipping;
    if k != 0 {
      var i := k - 1;
      LagrangeSumAtPoint(xs, ys, ws, i, j, p);
      var d := ProductSkipping(xs[j], xs, i, |xs|);
      if i == j {
        CongMul(ys[i], ys[i], d * ws[i], 1, p);
        CongAdd(LagrangeSum(xs[j], xs, ys, ws, i), 0, ys[i] * (d * ws[i]), ys[i], p);
      } else {
        ProductSkippingVanishes(xs, i, |xs|, j);
        assert d * ws[i] == 0;
      }
    }
  }

  /**
   Lagrange's formula through n points of a polynomial with at most n coefficients yields
   the polynomial's value at any z.
   */
  lemma LagrangeRecovers(c: seq<int>, xs: seq<int>, ys: seq<int>, ws: seq<int>, z: int, p: int)
    requires IsPrime(p) && DistinctMod(xs, p) && |c| <= |xs| == |ys| && Inverts(ws, xs, p)
    requires forall i :: 0 <= i < |xs| ==> Cong(ys[i], Eval(c, xs[i]), p)
    ensures Cong(LagrangeSum(z, xs, ys, ws, |xs|), Eval(c, z), p)
  {
    hide Mod, Eval, LagrangeSum, Interpolant;
    var n := |xs|;
    var f, g := Interpolant(xs, ys, ws, n), c + Zeros(n - |c|);
    forall i | 0 <= i < n ensures Cong(Eval(f, xs[i]), Eval(g, xs[i]), p) {
      InterpolantEval(xs, ys, ws, n, xs[i]);
      LagrangeSumAtPoint(xs, ys, ws, n, i, p);
      EvalPadded(c, n - |c|, xs[i]);
    }
    InterpolationIsUnique(f, g, xs, z, p);
    InterpolantEval(xs, ys, ws, n, z);
    EvalPadded(c, n - |c|, z);
  }

  /**
   Fewer points than coefficients leave the value at any further point z free: some polynomial
   of the same size passes through the same points and takes any wanted value there.
   */
  lemma FreeValue(c: seq<int>, xs: seq<int>, z: int, v: int, p: int) returns (d: seq<int>)
    requires IsPrime(p) && |xs| < |c| && forall i :: 0 <= i < |xs| ==> !Cong(z, xs[i], p)
    ensures |d| == |c| && Cong(Eval(d, z), v, p)
    ensures forall i :: 0 <= i < |xs| ==> Eval(d, xs[i]) == Eval(c, xs[i])
  {
    hide Mod, Eval, ProductSkipping, SkippingPolynomial;
    var n := |xs|;
    var vanishing := SkippingPolynomial(xs, -1, n) + Zeros(|c| - n - 1);
    var e := Eval(vanishing, z);
    SkippingPolynomialEval(xs, -1, n, z);
    EvalPadded(SkippingPolynomial(xs, -1, n), |c| - n - 1, z);
    ProductSkippingUnit(z, xs, -1, n, p);
    FermatInverse(e, p);
    var k := (v - Eval(c, z)) * Pow(e, p - 2);
    d := Combine(c, k, vanishing);
    EvalCombine(c, k, vanishing, z);
    ScaledInverse(v - Eval(c, z), Pow(e, p - 2), e, p);
    CongAdd(Eval(c, z), Eval(c, z), k * e, v - Eval(c, z), p);
    forall i | 0 <= i < n ensures Eval(d, xs[i]) == Eval(c, xs[i]) {
      EvalCombine(c, k, vanishing, xs[i]);
      SkippingPolynomialEval(xs, -1, n, xs[i]);
      EvalPadded(SkippingPolynomial(xs, -1, n), |c| - n - 1, xs[i]);
      ProductSkippingVanishes(xs, -1, n, i);
    }
  }

  lemma ScaledInverse(a: int, w: int, e: int, p: int)
    requires p > 0 && Cong(e * w, 1, p)
    ensures Cong((a * w) * e, a, p)
  {
    hide Mod;
    CongMul(a, a, e * w, 1, p);
    assert (a * w) * e == a * (e * w);
  }

  // ---- Products of polynomials ----

  function Times(a: seq<int>, b: seq<int>): (c: seq<int>)
    requires a != [] && b != []
    ensures |c| == |a| + |b| - 1
  {
    var first := Combine(Zeros(|a| + |b| - 1), a[0], b + Zeros(|a| - 1));
    if |a| == 1 then first else Combine(first, 1, [0] + Times(a[1..], b))
  }

  lemma TimesConstant(a: seq<int>, b: seq<int>)
    requires a != [] && b != []
    ensures Times(a, b)[0] == a[0] * b[0]
  {
  }

  lemma {:induction false} TimesEval(a: seq<int>, b: seq<int>, x: int)
    requires a != [] && b != []
    ensures Eval(Times(a, b), x) == Eval(a, x) * Eval(b, x)
  {
    hide Eval, Combine;
    var zeros := Zeros(|a| + |b| - 1);
    var first := Combine(zeros, a[0], b + Zeros(|a| - 1));
    EvalCombine(zeros, a[0], b + Zeros(|a| - 1), x);
    EvalZeros(|zeros|, x);
    EvalPadded(b, |a| - 1, x);
    EvalSplit(a, x);
    if |a| == 1 {
      EvalZeros(0, x);
      assert a[1..] == Zeros(0);
      assert x * Eval(a[1..], x) == 0;
    } else {
      var t := Times(a[1..], b);
      TimesEval(a[1..], b, x);
      EvalCombine(first, 1, [0] + t, x);
      ShiftEval(t, x);
      ProductStep(a[0], x, Eval(a[1..], x), Eval(b, x));
    }
  }

  lemma EvalSplit(a: seq<int>, x: int)
    requires a != []
    ensures Eval(a, x) == a[0] + x * Eval(a[1..], x)
  {
  }

  lemma ShiftEval(t: seq<int>, x: int)
    ensures Eval([0] + t, x) == x * Eval(t, x)
  {
    assert ([0] + t)[1..] == t;
  }

  lemma ProductStep(a: int, x: int, e: int, b: int)
    ensures a * b + x * (e * b) == (a + x * e) * b
  {
  }
}
