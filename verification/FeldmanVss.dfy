/**
 Feldman verifiable sharing (crypto_apps.c).  Shares are reduced modulo the prime while
 exponents cycle modulo the prime less one, so the check accepts an honest share only under
 the exact condition proved below.
 */
module FeldmanVss {
  import opened Modular
  import opened Primes
  import opened MersennePrime
  import opened Polynomials
  import opened MachineArithmetic
  import opened SecretSharing

  const MAX_SHARES := 64

  function VssPolynomial(secret: int, threshold: nat): (c: seq<int>)
    ensures |c| == threshold
  {
    if threshold == 0 then [] else DealerPolynomial(secret, threshold)
  }

  function Commitments(g: int, c: seq<int>): (s: seq<int>)
    ensures |s| == |c|
  {
    seq(|c|, j requires 0 <= j < |c| => PowMod(g, c[j], PRIME))
  }

  function DealtShares(c: seq<int>, total: nat): (s: seq<int>)
    ensures |s| == total
  {
    seq(total, i requires 0 <= i < total => Mod(Eval(c, i + 1), PRIME))
  }

  /** The right-hand side of the check, before reduction: C_j to the (x^j mod p), multiplied up. */
  function CommitmentProduct(commitments: seq<int>, x: int, n: nat): int
    requires n <= |commitments|
  {
    if n == 0 then 1
    else CommitmentProduct(commitments, x, n - 1) * Pow(commitments[n - 1], PowMod(x, n - 1, PRIME))
  }

  class Dealer {
    var g: int
    const commitments: array<int>
    const shares: array<int>
    var threshold: nat
    var total: nat

    constructor ()
      ensures commitments.Length == MAX_SHARES && shares.Length == MAX_SHARES
      ensures fresh(commitments) && fresh(shares) && commitments != shares
    {
      g, threshold, total := 0, 0, 0;
      commitments := new int[MAX_SHARES](_ => 0);
      shares := new int[MAX_SHARES](_ => 0);
    }

    method Setup(secret: int, threshold: nat, total: nat, generator: int) returns (status: int)
      requires Int64(secret) && Int64(generator)
      requires commitments.Length == MAX_SHARES && shares.Length == MAX_SHARES && commitments != shares
      modifies this, commitments, shares
      ensures status == if threshold > total || total > MAX_SHARES then -1 else 0
      ensures status != 0 ==> unchanged(this) && unchanged(commitments) && unchanged(shares)
      ensures status == 0 ==>
                && this.threshold == threshold && this.total == total && this.g == generator
                && commitments[..threshold] == Commitments(generator, VssPolynomial(secret, threshold))
                && shares[..total] == DealtShares(VssPolynomial(secret, threshold), total)
                && commitments[threshold..] == old(commitments[threshold..])
                && shares[total..] == old(shares[total..])
    {
      hide Mod, Eval, DealerPolynomial, PowMod;
      if threshold > total || total > MAX_SHARES {
        return -1;
      }
      this.threshold := threshold;
      this.total := total;
      this.g := generator;
      var coeffs := DealerCoefficients(secret, threshold, MAX_SHARES);
      ghost var c := VssPolynomial(secret, threshold);
      assert coeffs[..threshold] == c;
      for j := 0 to threshold
        invariant forall k :: 0 <= k < j ==> commitments[k] == PowMod(generator, c[k], PRIME)
        invariant commitments[threshold..] == old(commitments[threshold..])
        modifies commitments
      {
        assert coeffs[j] == coeffs[..threshold][j];
        commitments[j] := ModPow(generator, coeffs[j], PRIME);
      }
      for i := 0 to total
        invariant forall k :: 0 <= k < i ==> shares[k] == Mod(Eval(c, k + 1), PRIME)
        invariant shares[total..] == old(shares[total..])
        modifies shares
      {
        assert coeffs[..threshold] == c;
        shares[i] := ShareAt(coeffs, threshold, i + 1);
      }
      return 0;
    }

    /** `ca_vss_party_verify`, for the claimed share of the party with the given identifier. */
    method PartyVerify(share: int, partyId: nat) returns (status: int)
      requires Int64(g) && Int64(share) && partyId < UINT32
      requires threshold <= commitments.Length == MAX_SHARES
      requires forall j :: 0 <= j < threshold ==> Int64(commitments[j])
      ensures status == 0 || status == -1
      ensures status == 0 <==> Accepts(g, commitments[..threshold], share, (partyId + 1) % UINT32)
    {
      hide Mod, Pow, PowMod;
      var lhs := ModPow(g, share, PRIME);
      var rhs := 1;
      var x := (partyId + 1) % UINT32;
      ghost var s := commitments[..threshold];
      for j := 0 to threshold
        invariant 0 <= rhs < PRIME && Cong(rhs, CommitmentProduct(s, x, j), PRIME)
      {
        var xj := ModPow(x, j, PRIME);
        var f := ModPow(commitments[j], xj, PRIME);
        VerifierStep(rhs, CommitmentProduct(s, x, j), f, s[j], xj);
        rhs := Reduce(rhs * f, PRIME);
      }
      CongSmall(rhs, PRIME);
      status := if lhs == rhs then 0 else -1;
    }
  }

  /** What the check compares. */
  ghost predicate Accepts(g: int, commitments: seq<int>, share: int, x: int) {
    PowMod(g, share, PRIME) == Mod(CommitmentProduct(commitments, x, |commitments|), PRIME)
  }

  lemma VerifierStep(rhs: int, product: int, f: int, c: int, e: nat)
    requires 0 <= rhs < PRIME && Cong(rhs, product, PRIME) && f == PowMod(c, e, PRIME)
    ensures Int64(rhs * f) && Cong(Mod(rhs * f, PRIME), product * Pow(c, e), PRIME)
  {
    hide Mod, Pow;
    ProductRange(rhs, f, PRIME, PRIME);
    CongMod(Pow(c, e), PRIME);
    CongMul(rhs, product, f, Pow(c, e), PRIME);
    CongMod(rhs * f, PRIME);
  }

  /** The dealer's inner loop: the polynomial at x, reduced at every step. */
  method ShareAt(coeffs: array<int>, threshold: nat, x: int) returns (y: int)
    requires threshold <= coeffs.Length && 1 <= x <= MAX_SHARES
    requires threshold > 0 ==> Int64(coeffs[0])
    requires forall j :: 1 <= j < threshold ==> 1 <= coeffs[j] < PRIME
    ensures y == Mod(Eval(coeffs[..threshold], x), PRIME)
  {
    hide Mod, Eval, Pow;
    PowZero(x);
    y := 0;
    var xp := 1;
    assert coeffs[..0] == [];
    EvalEmpty(x);
    for j := 0 to threshold
      invariant 0 <= y < PRIME && 0 <= xp < PRIME && (j == 0 ==> y == 0 && xp == 1)
      invariant Cong(y, Eval(coeffs[..j], x), PRIME) && Cong(xp, Pow(x, j), PRIME)
    {
      assert coeffs[..j + 1] == coeffs[..j] + [coeffs[j]];
      DealerStep(y, coeffs[..j], coeffs[j], xp, x);
      y := Reduce(y + coeffs[j] * xp, PRIME);
      xp := Reduce(xp * x, PRIME);
    }
    CongSmall(y, PRIME);
  }

  lemma DealerStep(y: int, c: seq<int>, a: int, xp: int, x: int)
    requires Cong(y, Eval(c, x), PRIME) && Cong(xp, Pow(x, |c|), PRIME)
    requires 0 <= y < PRIME && 0 <= xp < PRIME && 1 <= x <= MAX_SHARES
    requires (y == 0 && xp == 1 && Int64(a)) || Abs(a) <= PRIME
    ensures Int64(y + a * xp) && Int64(xp * x)
    ensures Cong(Mod(y + a * xp, PRIME), Eval(c + [a], x), PRIME)
    ensures Cong(Mod(xp * x, PRIME), Pow(x, |c| + 1), PRIME)
  {
    hide Mod, Eval, Pow;
    var n := |c|;
    if Abs(a) <= PRIME {
      ProductRange(a, xp, PRIME, PRIME);
    }
    ProductRange(xp, x, PRIME, PRIME);
    PowSucc(x, n);
    TermCong(y, Eval(c, x), a, xp, Pow(x, n), PRIME);
    EvalSnoc(c, a, x);
    CongMod(y + a * xp, PRIME);
    CongMul(xp, Pow(x, n), x, x, PRIME);
    CongMod(xp * x, PRIME);
  }

  lemma PowSucc(x: int, n: nat)
    ensures Pow(x, n + 1) == x * Pow(x, n) == Pow(x, n) * x
  {
  }

  // ---- When the check accepts an honest share ----

  function NonNegative(a: int): nat {
    if a < 0 then 0 else a
  }

  /** The exponent of g on the right-hand side: a negative coefficient was committed to as g^0. */
  function ExponentSum(c: seq<int>, x: int, n: nat): nat
    requires n <= |c|
  {
    if n == 0 then 0
    else
      var e := PowMod(x, n - 1, PRIME);
      MulMonotone(e, 0, NonNegative(c[n - 1]));
      ExponentSum(c, x, n - 1) + NonNegative(c[n - 1]) * e
  }

  lemma {:induction false} CommitmentsMultiplyUp(g: int, c: seq<int>, x: int, n: nat)
    requires n <= |c|
    ensures Cong(CommitmentProduct(Commitments(g, c), x, n), Pow(g, ExponentSum(c, x, n)), PRIME)
  {
    hide Mod, Pow;
    if n == 0 {
      PowZero(g);
    } else {
      CommitmentsMultiplyUp(g, c, x, n - 1);
      var a, e := NonNegative(c[n - 1]), PowMod(x, n - 1, PRIME);
      MulMonotone(e, 0, a);
      CongMod(Pow(g, a), PRIME);
      PowCong(Mod(Pow(g, a), PRIME), Pow(g, a), e, PRIME);
      PowMul(g, a, e);
      PowAdd(g, ExponentSum(c, x, n - 1), a * e);
      CongMul(CommitmentProduct(Commitments(g, c), x, n - 1), Pow(g, ExponentSum(c, x, n - 1)),
              Pow(Mod(Pow(g, a), PRIME), e), Pow(g, a * e), PRIME);
    }
  }

  /** Two powers of a unit agree exactly when the difference of the exponents is a period of it. */
  lemma ExponentsAgree(g: int, a: nat, b: nat)
    requires !Divides(PRIME, g)
    ensures Cong(Pow(g, a), Pow(g, b), PRIME) <==> Cong(Pow(g, Mod(a - b, PRIME - 1)), 1, PRIME)
  {
    hide Mod, Pow;
    PrimeIsPrime();
    var d := Mod(a - b, PRIME - 1);
    CongMod(a - b, PRIME - 1);
    CongAdd(d, a - b, b, b, PRIME - 1);
    PowModOrder(g, b + d, PRIME);
    PowModOrder(g, a, PRIME);
    PowAdd(g, b, d);
    if Cong(Pow(g, a), Pow(g, b), PRIME) {
      PowUnit(g, b, PRIME);
      Cancel(Pow(g, b), Pow(g, d), 1, PRIME);
    }
    if Cong(Pow(g, d), 1, PRIME) {
      CongMul(Pow(g, b), Pow(g, b), Pow(g, d), 1, PRIME);
    }
  }

  /** The share that an honest dealer hands to the party at position x. */
  function HonestShare(c: seq<int>, x: int): int {
    Mod(Eval(c, x), PRIME)
  }

  /** The exact condition, for every polynomial and every generator that is a unit. */
  lemma HonestShareAccepted(g: int, c: seq<int>, x: int)
    requires !Divides(PRIME, g)
    ensures Accepts(g, Commitments(g, c), HonestShare(c, x), x)
       <==> Cong(Pow(g, Mod(ExponentSum(c, x, |c|) - HonestShare(c, x), PRIME - 1)), 1, PRIME)
  {
    hide Mod, Pow, Eval, ExponentSum, CommitmentProduct;
    CommitmentsMultiplyUp(g, c, x, |c|);
    var a, b: nat := ExponentSum(c, x, |c|), HonestShare(c, x);
    ExponentsAgree(g, a, b);
  }

  /** S, the sum of a_j * (x^j mod p) over the coefficients, reduced nowhere. */
  function TermSum(c: seq<int>, x: int, n: nat): int
    requires n <= |c|
  {
    if n == 0 then 0 else TermSum(c, x, n - 1) + c[n - 1] * PowMod(x, n - 1, PRIME)
  }

  lemma {:induction false} SumIsValue(c: seq<int>, x: int, n: nat)
    requires n <= |c|
    ensures Cong(TermSum(c, x, n), Eval(c[..n], x), PRIME)
  {
    hide Mod, Pow;
    if n == 0 {
      assert c[..0] == [];
    } else {
      SumIsValue(c, x, n - 1);
      EvalSnoc(c[..n - 1], c[n - 1], x);
      assert c[..n] == c[..n - 1] + [c[n - 1]];
      CongMod(Pow(x, n - 1), PRIME);
      TermCong(TermSum(c, x, n - 1), Eval(c[..n - 1], x), c[n - 1], PowMod(x, n - 1, PRIME), Pow(x, n - 1), PRIME);
    }
  }

  /** The magnitude of a negative secret, to which the dealer commits as if it were 0. */
  function Uncommitted(c: seq<int>): nat {
    if c != [] && c[0] < 0 then -c[0] else 0
  }

  /** Only the constant term can be negative, and x^0 is 1. */
  lemma {:induction false} ExponentIsTermSum(c: seq<int>, x: int, n: nat)
    requires n <= |c| && forall j :: 1 <= j < |c| ==> c[j] >= 0
    ensures ExponentSum(c, x, n) == TermSum(c, x, n) + if n > 0 then Uncommitted(c) else 0
  {
    hide Mod, Pow;
    if n == 1 {
      PowZero(x);
      CongSmall(1, PRIME);
    } else if n > 1 {
      ExponentIsTermSum(c, x, n - 1);
    }
  }

  /** What the reduction modulo p takes off the exponent, in multiples of p; g has to cancel it. */
  function Excess(c: seq<int>, x: int): (k: int) {
    TermSum(c, x, |c|) / PRIME + Uncommitted(c)
  }

  lemma ExcessNonNegative(c: seq<int>, x: int)
    requires forall j :: 1 <= j < |c| ==> c[j] >= 0
    ensures Excess(c, x) >= 0
  {
    ExponentIsTermSum(c, x, |c|);
    hide TermSum, ExponentSum, Uncommitted;
    QuotientBound(TermSum(c, x, |c|), Uncommitted(c));
  }

  lemma QuotientBound(s: int, u: nat)
    requires s + u >= 0
    ensures s / PRIME + u >= 0
  {
  }

  lemma QuotientPeriod(s: int, u: int)
    ensures Mod(s + u - Mod(s, PRIME), PRIME - 1) == Mod(s / PRIME + u, PRIME - 1)
  {
    assert s + u - Mod(s, PRIME) == s / PRIME + u + (s / PRIME) * (PRIME - 1);
    CongIntro(s + u - Mod(s, PRIME), s / PRIME + u, s / PRIME, PRIME - 1);
  }

  lemma HonestIffExcess(g: int, c: seq<int>, x: int)
    requires !Divides(PRIME, g) && forall j :: 1 <= j < |c| ==> c[j] >= 0
    ensures Excess(c, x) >= 0
    ensures Accepts(g, Commitments(g, c), HonestShare(c, x), x) <==> Cong(Pow(g, Excess(c, x)), 1, PRIME)
  {
    hide Mod, Pow, Eval, ExponentSum, TermSum, Accepts;
    HonestShareAccepted(g, c, x);
    SumIsValue(c, x, |c|);
    assert c[..|c|] == c;
    ExponentIsTermSum(c, x, |c|);
    QuotientPeriod(TermSum(c, x, |c|), Uncommitted(c));
    ExcessNonNegative(c, x);
    PrimeIsPrime();
    PowModOrder(g, Excess(c, x), PRIME);
  }

  /**
   For every secret: the check accepts the honest share exactly when g to the power S / p is 1,
   with the magnitude of a negative secret added to the exponent.
   */
  lemma HonestShareAcceptedIff(g: int, secret: int, threshold: nat, x: int)
    requires !Divides(PRIME, g)
    ensures var c := VssPolynomial(secret, threshold);
            && Excess(c, x) >= 0
            && (Accepts(g, Commitments(g, c), HonestShare(c, x), x) <==> Cong(Pow(g, Excess(c, x)), 1, PRIME))
  {
    hide Mod, Pow, Eval, Accepts, Excess;
    HonestIffExcess(g, VssPolynomial(secret, threshold), x);
  }

  /** A generator divisible by the prime: accepted exactly if both exponents vanish or neither does. */
  lemma ZeroGeneratorAcceptedIff(g: int, secret: int, threshold: nat, x: int)
    requires Divides(PRIME, g)
    ensures var c := VssPolynomial(secret, threshold);
            var s := TermSum(c, x, |c|);
            Accepts(g, Commitments(g, c), HonestShare(c, x), x)
            <==> (Divides(PRIME, s) <==> s + Uncommitted(c) == 0)
  {
    hide Mod, Pow, Eval, ExponentSum, TermSum, CommitmentProduct, DealerPolynomial;
    var c := VssPolynomial(secret, threshold);
    CommitmentsMultiplyUp(g, c, x, |c|);
    SumIsValue(c, x, |c|);
    assert c[..|c|] == c;
    ExponentIsTermSum(c, x, |c|);
    ZeroBase(g, ExponentSum(c, x, |c|));
    ZeroBase(g, HonestShare(c, x));
    CongSmall(0, PRIME);
    CongSmall(1, PRIME);
  }

  lemma ZeroBase(g: int, e: nat)
    requires Divides(PRIME, g)
    ensures Cong(Pow(g, e), if e == 0 then 1 else 0, PRIME)
  {
    hide Mod, Pow;
    PowZero(g);
    if e > 0 {
      CongSmall(0, PRIME);
      PowCong(g, 0, e, PRIME);
      ZeroPower(e);
    }
  }

  /**
   An unreduced sum within [0, p) is not shortened at all: a non-negative secret's share is then
   accepted, a negative secret's share exactly if g to its magnitude is 1.
   */
  lemma SmallSumAccepted(g: int, secret: int, threshold: nat, x: int)
    requires !Divides(PRIME, g)
    requires var c := VssPolynomial(secret, threshold); 0 <= TermSum(c, x, |c|) < PRIME
    ensures var c := VssPolynomial(secret, threshold);
            Accepts(g, Commitments(g, c), HonestShare(c, x), x)
            <==> secret >= 0 || threshold == 0 || Cong(Pow(g, -secret), 1, PRIME)
  {
    hide Mod, Pow, Accepts, TermSum, Commitments, HonestShare;
    HonestShareAcceptedIff(g, secret, threshold, x);
    PowZero(g);
  }

  lemma FirstParty(secret: int)
    ensures VssPolynomial(secret, 2) == [secret, 39257]
    ensures TermSum([secret, 39257], 1, 2) == secret + 39257
  {
    PowOne(1);
    PowOne(0);
    var c := [secret, 39257];
    assert TermSum(c, 1, 0) == 0;
    assert TermSum(c, 1, 1) == secret;
  }

  /** An honest share that the check rejects: secret p - 1, threshold 2, generator 2, first party. */
  lemma HonestShareRejected()
    ensures var c := VssPolynomial(PRIME - 1, 2);
            !Accepts(2, Commitments(2, c), HonestShare(c, 1), 1)
  {
    FirstParty(PRIME - 1);
    TwoIsNoRoot();
    hide Accepts, Commitments, TermSum, VssPolynomial, Pow;
    HonestShareAcceptedIff(2, PRIME - 1, 2, 1);
  }

  /** Another one: secret -1, although its unreduced sum stays below p. */
  lemma NegativeSecretRejected()
    ensures var c := VssPolynomial(-1, 2);
            TermSum(c, 1, |c|) == 39256 && !Accepts(2, Commitments(2, c), HonestShare(c, 1), 1)
  {
    FirstParty(-1);
    TwoIsNoRoot();
    hide Accepts, Commitments, TermSum, VssPolynomial, Pow;
    SmallSumAccepted(2, -1, 2, 1);
  }

  lemma TwoIsNoRoot()
    ensures !Cong(Pow(2, 1), 1, PRIME) && !Divides(PRIME, 2)
  {
    assert Pow(2, 1) == 2 * Pow(2, 0) == 2;
  }

  // ---- Reconstruction ----

  /** `ca_vss_reconstruct`: the denominators are inverted by Fermat's theorem. */
  method Reconstruct(shares: seq<int>, indices: seq<nat>) returns (secret: int)
    requires |shares| >= |indices| && forall i :: 0 <= i < |indices| ==> indices[i] < UINT32
    requires forall i :: 0 <= i < |indices| ==> Abs(shares[i]) <= 0x8000_0000
    ensures secret == Reconstructed(IndexPositions(indices), shares[..|indices|], 0, PRIME)
  {
    hide Mod, ProductSkipping, Inverse, IndexPositions;
    var xs := IndexPositions(indices);
    ghost var ys, ws := shares[..|indices|], Inverses(xs, 0, PRIME);
    var result := 0;
    for i := 0 to |xs|
      invariant 0 <= result < PRIME && Cong(result, LagrangeSum(0, xs, ys, ws, i), PRIME)
    {
      var numerator, denominator := LagrangeFactors(xs, i);
      var inverse := ModPow(denominator, PRIME - 2, PRIME);
      FermatIsInverse(ProductSkipping(xs[i], xs, i, |xs|), denominator);
      InterpolationStep(result, LagrangeSum(0, xs, ys, ws, i), ys[i], numerator,
                        ProductSkipping(0, xs, i, |xs|), inverse);
      var lagrange := Reduce(numerator * inverse, PRIME);
      result := Reduce(result + shares[i] * lagrange, PRIME);
    }
    CongSmall(result, PRIME);
    secret := result;
  }

  function IndexPositions(indices: seq<nat>): (xs: seq<int>)
    ensures |xs| == |indices| && forall i :: 0 <= i < |xs| ==> 0 <= xs[i] <= 0xFFFF_FFFF
  {
    seq(|indices|, i requires 0 <= i < |indices| => (indices[i] + 1) % UINT32)
  }

  /** The position of an index, one more than it, in 32 bits. */
  lemma IndexPositionAt(indices: seq<nat>, i: nat)
    requires i < |indices| && indices[i] < 0x1_0000_0000
    ensures IndexPositions(indices)[i] == if indices[i] == 0xFFFF_FFFF then 0 else indices[i] + 1
  {
  }

  lemma FermatIsInverse(d: int, r: int)
    requires r == Mod(d, PRIME)
    ensures PowMod(r, PRIME - 2, PRIME) == Inverse(d, 0, PRIME)
  {
    hide Mod, Pow;
    CongMod(d, PRIME);
    PowCong(r, d, PRIME - 2, PRIME);
    if r == 0 {
      ZeroPower(PRIME - 2);
      CongSmall(0, PRIME);
    }
  }

  lemma ZeroPower(e: nat)
    requires e > 0
    ensures Pow(0, e) == 0
  {
  }

  /**
   The reconstructions by Euclid's algorithm (mpc_proto.c, threshold_sig.c) and by Fermat's
   theorem agree on any values at distinct positions.
   */
  lemma ReconstructionsAgree(xs: seq<int>, ys: seq<int>)
    requires |xs| == |ys| && DistinctMod(xs, PRIME)
    ensures Reconstructed(xs, ys, 1, PRIME) == Reconstructed(xs, ys, 0, PRIME)
  {
    PrimeIsPrime();
    hide Mod, LagrangeSum, ProductSkipping;
    forall i | 0 <= i < |xs| ensures Inverses(xs, 1, PRIME)[i] == Inverses(xs, 0, PRIME)[i] {
      ProductSkippingUnit(xs[i], xs, i, |xs|, PRIME);
    }
    assert Inverses(xs, 1, PRIME) == Inverses(xs, 0, PRIME);
  }

  /** Any qualified choice of the dealer's shares reconstructs the secret. */
  lemma SetupReconstruct(secret: int, threshold: nat, total: nat, indices: seq<nat>)
    requires 1 <= threshold <= total <= MAX_SHARES && |indices| >= threshold && NoDuplicates(indices)
    requires forall i :: 0 <= i < |indices| ==> indices[i] < total
    ensures var s := DealtShares(VssPolynomial(secret, threshold), total);
            var ys := seq(|indices|, i requires 0 <= i < |indices| => s[indices[i]]);
            Reconstructed(IndexPositions(indices), ys, 0, PRIME) == Mod(secret, PRIME)
  {
    hide Mod, Eval, Reconstructed, DealerPolynomial;
    var c, xs := VssPolynomial(secret, threshold), IndexPositions(indices);
    var s := DealtShares(c, total);
    var ys := seq(|indices|, i requires 0 <= i < |indices| => s[indices[i]]);
    IndexPositionsDistinct(indices);
    forall i | 0 <= i < |xs| ensures Cong(ys[i], Eval(c, xs[i]), PRIME) {
      assert xs[i] == indices[i] + 1;
      CongMod(Eval(c, xs[i]), PRIME);
    }
    hide IndexPositions, DealtShares, VssPolynomial;
    PrimeIsPrime();
    QualifiedPointsRecover(c, xs, ys, 0, PRIME);
  }

  lemma IndexPositionsDistinct(indices: seq<nat>)
    requires NoDuplicates(indices) && forall i :: 0 <= i < |indices| ==> indices[i] < MAX_SHARES
    ensures DistinctMod(IndexPositions(indices), PRIME)
  {
    hide Mod, IndexPositions;
    var xs := IndexPositions(indices);
    forall i, j | 0 <= i < j < |xs| ensures !Cong(xs[i], xs[j], PRIME) {
      IndexPositionAt(indices, i);
      IndexPositionAt(indices, j);
      CongSmall(xs[i], PRIME);
      CongSmall(xs[j], PRIME);
    }
  }

  // ---- The calls together ----

  lemma CommitmentsInRange(g: int, c: seq<int>)
    ensures forall j :: 0 <= j < |c| ==> 0 <= Commitments(g, c)[j] < PRIME
  {
  }

  /** Dealing, and the check of one party's share: it passes under the exact condition above. */
  method ShareRound(dealer: Dealer, secret: int, threshold: nat, total: nat, g: int, party: nat)
      returns (status: int)
    requires dealer.commitments.Length == MAX_SHARES && dealer.shares.Length == MAX_SHARES
    requires dealer.commitments != dealer.shares && Int64(secret) && Int64(g) && !Divides(PRIME, g)
    requires threshold <= total <= MAX_SHARES && party < total
    modifies dealer, dealer.commitments, dealer.shares
    ensures status == 0 || status == -1
    ensures var k := Excess(VssPolynomial(secret, threshold), party + 1);
            k >= 0 && (status == 0 <==> Cong(Pow(g, k), 1, PRIME))
  {
    hide Mod, Pow, Eval, Accepts, Excess, Commitments, VssPolynomial, PowMod;
    var _ := dealer.Setup(secret, threshold, total, g);
    ghost var c := VssPolynomial(secret, threshold);
    CommitmentsInRange(g, c);
    assert forall j :: 0 <= j < threshold ==> dealer.commitments[j] == dealer.commitments[..threshold][j];
    assert dealer.shares[party] == dealer.shares[..total][party] == HonestShare(c, party + 1);
    status := dealer.PartyVerify(dealer.shares[party], party);
    HonestShareAcceptedIff(g, secret, threshold, party + 1);
  }

  /** Dealing and reconstructing from chosen parties' shares. */
  method SecretRound(dealer: Dealer, secret: int, threshold: nat, total: nat, g: int, indices: seq<nat>)
      returns (r: int)
    requires dealer.commitments.Length == MAX_SHARES && dealer.shares.Length == MAX_SHARES
    requires dealer.commitments != dealer.shares && Int64(secret) && Int64(g)
    requires 1 <= threshold <= total <= MAX_SHARES && |indices| >= threshold && NoDuplicates(indices)
    requires forall i :: 0 <= i < |indices| ==> indices[i] < total
    modifies dealer, dealer.commitments, dealer.shares
    ensures r == Mod(secret, PRIME)
  {
    hide Mod, Pow, Eval, Commitments, VssPolynomial, Reconstructed;
    var _ := dealer.Setup(secret, threshold, total, g);
    ghost var s := DealtShares(VssPolynomial(secret, threshold), total);
    assert forall k :: 0 <= k < total ==> dealer.shares[k] == dealer.shares[..total][k] == s[k];
    var chosen := seq(|indices|, i requires 0 <= i < |indices| reads dealer.shares => dealer.shares[indices[i]]);
    assert chosen == seq(|indices|, i requires 0 <= i < |indices| => s[indices[i]]);
    assert chosen[..|indices|] == chosen;
    r := Reconstruct(chosen, indices);
    SetupReconstruct(secret, threshold, total, indices);
  }
}
