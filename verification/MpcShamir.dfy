/**
 Shamir sharing for multi-party computation (mpc_proto.c): dealing, reconstruction through
 every given share, and arithmetic on shares.
 */
module MpcShamir {
  import opened Modular
  import opened Primes
  import opened MersennePrime
  import opened Polynomials
  import opened MachineArithmetic
  import opened SecretSharing

  const MAX_PARTIES := 32
  const MAX_THRESHOLD := 16

  datatype Share = Share(x: int, y: int, threshold: nat, total: nat)

  /** The share of party i. */
  function DealtShare(secret: int, threshold: nat, total: nat, i: nat): Share
    requires threshold >= 1
  {
    Share(i + 1, Mod(Eval(DealerPolynomial(secret, threshold), i + 1), PRIME), threshold, total)
  }

  function Dealt(secret: int, threshold: nat, total: nat): (s: seq<Share>)
    requires total > 0 ==> threshold >= 1
    ensures |s| == total
  {
    seq(total, i requires 0 <= i < total => DealtShare(secret, threshold, total, i))
  }

  predicate ValidIndices(indices: seq<nat>, n: nat) {
    forall i :: 0 <= i < |indices| ==> indices[i] < n
  }

  function Xs(shares: seq<Share>, indices: seq<nat>): (xs: seq<int>)
    requires ValidIndices(indices, |shares|)
    ensures |xs| == |indices|
  {
    seq(|indices|, i requires 0 <= i < |indices| => shares[indices[i]].x)
  }

  function Ys(shares: seq<Share>, indices: seq<nat>): (ys: seq<int>)
    requires ValidIndices(indices, |shares|)
    ensures |ys| == |indices|
  {
    seq(|indices|, i requires 0 <= i < |indices| => shares[indices[i]].y)
  }

  class Context {
    const shares: array<Share>
    var threshold: nat
    var total: nat
    var secret: int

    constructor ()
      ensures shares.Length == MAX_PARTIES && fresh(shares)
    {
      shares := new Share[MAX_PARTIES](_ => Share(0, 0, 0, 0));
      threshold, total, secret := 0, 0, 0;
    }

    /**
     Deals `total` shares of the secret.  The coefficient buffer holds 16 entries, which the
     code does not check; a threshold of 0 is harmless only if there is nobody to deal to.
     */
    method Split(secret: int, threshold: nat, total: nat) returns (status: int)
      requires shares.Length == MAX_PARTIES && Int64(secret)
      requires threshold <= total <= MAX_PARTIES ==> threshold <= MAX_THRESHOLD
      requires threshold <= total <= MAX_PARTIES && total > 0 ==> threshold >= 1
      modifies this, shares
      ensures status == if threshold > total || total > MAX_PARTIES then -1 else 0
      ensures status != 0 ==> unchanged(this) && unchanged(shares)
      ensures status == 0 ==>
                && this.threshold == threshold && this.total == total && this.secret == secret
                && shares[..total] == Dealt(secret, threshold, total)
                && (forall k :: 0 <= k < total ==>
                      && shares[k].x == k + 1 && shares[k].threshold == threshold && shares[k].total == total
                      && shares[k].y == Mod(Eval(DealerPolynomial(secret, threshold), k + 1), PRIME))
                && shares[total..] == old(shares[total..])
    {
      hide Mod, Eval, DealerPolynomial;
      if threshold > total || total > MAX_PARTIES {
        return -1;
      }
      this.threshold := threshold;
      this.total := total;
      this.secret := secret;
      var coeffs := DealerCoefficients(secret, threshold, MAX_THRESHOLD);
      for i := 0 to total
        invariant forall k :: 0 <= k < i ==> shares[k] == DealtShare(secret, threshold, total, k)
        invariant shares[total..] == old(shares[total..])
        modifies shares
      {
        assert coeffs[..threshold - 1 + 1] == DealerPolynomial(secret, threshold);
        var y := EvalPoly(coeffs, threshold - 1, i + 1, PRIME);
        shares[i] := Share(i + 1, y, threshold, total);
      }
      return 0;
    }

    /** Interpolates through all the chosen shares; -1 in the source is None here. */
    method Reconstruct(indices: seq<nat>) returns (secret: Option<int>)
      requires ValidIndices(indices, shares.Length)
      requires SmallPoints(Xs(shares[..], indices), Ys(shares[..], indices))
      ensures secret.None? <==> |indices| < threshold
      ensures secret.Some? ==>
                secret.value == Reconstructed(Xs(shares[..], indices), Ys(shares[..], indices), 1, PRIME)
    {
      if |indices| < threshold {
        return None;
      }
      var r := InterpolateAtZero(Xs(shares[..], indices), Ys(shares[..], indices));
      return Some(r);
    }
  }

  // ---- Dealing and reconstructing ----

  /** Parties 0 .. n-1 sit at the distinct positions 1 .. n. */
  lemma PositionsDistinct(xs: seq<int>, indices: seq<nat>, n: nat)
    requires n < PRIME && ValidIndices(indices, n) && NoDuplicates(indices) && |xs| == |indices|
    requires forall i :: 0 <= i < |xs| ==> xs[i] == indices[i] + 1
    ensures DistinctMod(xs, PRIME)
  {
    forall i, j | 0 <= i < j < |xs| ensures !Cong(xs[i], xs[j], PRIME) {
      CongSmall(xs[i], PRIME);
      CongSmall(xs[j], PRIME);
    }
  }

  /** Any choice of at least `threshold` distinct shares reconstructs the secret modulo the prime. */
  lemma SplitReconstruct(secret: int, threshold: nat, total: nat, indices: seq<nat>)
    requires 1 <= threshold <= total <= MAX_PARTIES
    requires ValidIndices(indices, total) && NoDuplicates(indices) && |indices| >= threshold
    ensures var s := Dealt(secret, threshold, total);
            && SmallPoints(Xs(s, indices), Ys(s, indices))
            && Reconstructed(Xs(s, indices), Ys(s, indices), 1, PRIME) == Mod(secret, PRIME)
  {
    hide Mod, Eval, LagrangeSum;
    var s, c := Dealt(secret, threshold, total), DealerPolynomial(secret, threshold);
    var xs, ys := Xs(s, indices), Ys(s, indices);
    PositionsDistinct(xs, indices, total);
    forall i | 0 <= i < |xs| ensures Cong(ys[i], Eval(c, xs[i]), PRIME) {
      CongMod(Eval(c, xs[i]), PRIME);
    }
    PrimeIsPrime();
    QualifiedPointsRecover(c, xs, ys, 1, PRIME);
  }

  lemma DealtIsSmall(secret: int, threshold: nat, total: nat, indices: seq<nat>)
    requires threshold >= 1 && total <= MAX_PARTIES && ValidIndices(indices, total)
    ensures var s := Dealt(secret, threshold, total); SmallPoints(Xs(s, indices), Ys(s, indices))
  {
    hide Eval, DealerPolynomial;
  }

  /** The shares of the secret 0 at threshold 3, in numbers. */
  lemma DealtAtThree()
    ensures var s := Dealt(0, 3, 3);
            s == [Share(1, 109851, 3, 3), Share(2, 360890, 3, 3), Share(3, 753117, 3, 3)]
  {
    var c := DealerPolynomial(0, 3);
    assert c == [0, 39257, 70594] && c[1..] == [39257, 70594] && c[2..] == [70594];
    ThreeTerms(0, 39257, 70594, 1);
    ThreeTerms(0, 39257, 70594, 2);
    ThreeTerms(0, 39257, 70594, 3);
    CongSmall(109851, PRIME);
    CongSmall(360890, PRIME);
    CongSmall(753117, PRIME);
  }

  lemma ThreeTerms(a: int, b: int, c: int, x: int)
    ensures Eval([a, b, c], x) == a + x * (b + x * c)
  {
    assert [a, b, c][1..] == [b, c] && [b, c][1..] == [c] && [c][1..] == [];
    assert Eval([c], x) == c;
  }

  /** Dealing and reconstructing, as calls: the secret modulo the prime, or a refusal. */
  method RoundTrip(ctx: Context, secret: int, threshold: nat, total: nat, indices: seq<nat>)
      returns (r: Option<int>)
    requires ctx.shares.Length == MAX_PARTIES && Int64(secret)
    requires 1 <= threshold <= total <= MAX_PARTIES && threshold <= MAX_THRESHOLD
    requires ValidIndices(indices, total) && NoDuplicates(indices)
    modifies ctx, ctx.shares
    ensures r == if |indices| >= threshold then Some(Mod(secret, PRIME)) else None
  {
    hide Mod, DealtShare, Reconstructed, SmallPoints, NoDuplicates;
    var _ := ctx.Split(secret, threshold, total);
    ghost var s := Dealt(secret, threshold, total);
    assert forall k :: 0 <= k < total ==> ctx.shares[k] == ctx.shares[..total][k] == s[k];
    assert Xs(ctx.shares[..], indices) == Xs(s, indices) && Ys(ctx.shares[..], indices) == Ys(s, indices);
    DealtIsSmall(secret, threshold, total, indices);
    r := ctx.Reconstruct(indices);
    if |indices| >= threshold {
      SplitReconstruct(secret, threshold, total, indices);
    }
  }

  // ---- Arithmetic on shares ----

  function AddShare(a: Share, b: Share): Share
    requires Int64(a.y + b.y)
  {
    Share(a.x, Reduce(a.y + b.y, PRIME), a.threshold, a.total)
  }

  /** The recorded threshold is a uint32_t, hence the wrap-around for two zero thresholds. */
  function MulShare(a: Share, b: Share): Share
    requires Int64(a.y * b.y)
  {
    Share(a.x, Reduce(a.y * b.y, PRIME), (a.threshold + b.threshold - 1) % UINT32, a.total)
  }

  /** A computation on shared inputs, carried out by each party on its own shares. */
  datatype Circuit = Input(index: nat) | Add(left: Circuit, right: Circuit) | Mul(left: Circuit, right: Circuit)

  predicate UsesInputs(g: Circuit, n: nat) {
    match g
    case Input(i) => i < n
    case Add(l, r) => UsesInputs(l, n) && UsesInputs(r, n)
    case Mul(l, r) => UsesInputs(l, n) && UsesInputs(r, n)
  }

  /** The value computed, on the secrets themselves. */
  function Value(g: Circuit, secrets: seq<int>): int
    requires UsesInputs(g, |secrets|)
  {
    match g
    case Input(i) => secrets[i]
    case Add(l, r) => Value(l, secrets) + Value(r, secrets)
    case Mul(l, r) => Value(l, secrets) * Value(r, secrets)
  }

  predicate Reduced(inputs: seq<Share>) {
    forall i :: 0 <= i < |inputs| ==> 0 <= inputs[i].y < PRIME
  }

  /** One party's share of the result. */
  function ShareOf(g: Circuit, inputs: seq<Share>): (s: Share)
    requires UsesInputs(g, |inputs|) && Reduced(inputs)
    ensures 0 <= s.y < PRIME
  {
    match g
    case Input(i) => inputs[i]
    case Add(l, r) => AddShare(ShareOf(l, inputs), ShareOf(r, inputs))
    case Mul(l, r) =>
      var a, b := ShareOf(l, inputs), ShareOf(r, inputs);
      ProductRange(a.y, b.y, PRIME, PRIME);
      MulShare(a, b)
  }

  predicate Positive(thresholds: seq<nat>) {
    forall i :: 0 <= i < |thresholds| ==> thresholds[i] >= 1
  }

  function Max(a: int, b: int): int {
    if a >= b then a else b
  }

  /** How many shares of the result determine it. */
  function NeededThreshold(g: Circuit, thresholds: seq<nat>): (t: int)
    requires UsesInputs(g, |thresholds|) && Positive(thresholds)
    ensures t >= 1
  {
    match g
    case Input(i) => thresholds[i]
    case Add(l, r) => Max(NeededThreshold(l, thresholds), NeededThreshold(r, thresholds))
    case Mul(l, r) => NeededThreshold(l, thresholds) + NeededThreshold(r, thresholds) - 1
  }

  /** The sum of two polynomials of any sizes. */
  function SumPolynomial(a: seq<int>, b: seq<int>): (c: seq<int>)
    requires a != [] && b != []
    ensures |c| == Max(|a|, |b|) && c[0] == a[0] + b[0]
  {
    var n := Max(|a|, |b|);
    Combine(a + Zeros(n - |a|), 1, b + Zeros(n - |b|))
  }

  lemma ValueOfSum(a: seq<int>, b: seq<int>, x: int)
    requires a != [] && b != []
    ensures Eval(SumPolynomial(a, b), x) == Eval(a, x) + Eval(b, x)
  {
    hide Eval, Combine;
    var n := Max(|a|, |b|);
    EvalCombine(a + Zeros(n - |a|), 1, b + Zeros(n - |b|), x);
    EvalPadded(a, n - |a|, x);
    EvalPadded(b, n - |b|, x);
  }

  /** The polynomial on which the shares of the result lie. */
  ghost function ResultPolynomial(g: Circuit, secrets: seq<int>, thresholds: seq<nat>): (c: seq<int>)
    requires |secrets| == |thresholds| && UsesInputs(g, |secrets|) && Positive(thresholds)
    ensures c != [] && |c| == NeededThreshold(g, thresholds) && c[0] == Value(g, secrets)
  {
    match g
    case Input(i) => DealerPolynomial(secrets[i], thresholds[i])
    case Add(l, r) =>
      SumPolynomial(ResultPolynomial(l, secrets, thresholds), ResultPolynomial(r, secrets, thresholds))
    case Mul(l, r) =>
      var a, b := ResultPolynomial(l, secrets, thresholds), ResultPolynomial(r, secrets, thresholds);
      TimesConstant(a, b);
      Times(a, b)
  }

  /** The shares of all inputs that party k holds. */
  function InputShares(secrets: seq<int>, thresholds: seq<nat>, total: nat, k: nat): (s: seq<Share>)
    requires |secrets| == |thresholds| && Positive(thresholds)
    ensures |s| == |secrets| && Reduced(s)
  {
    seq(|secrets|, i requires 0 <= i < |secrets| => DealtShare(secrets[i], thresholds[i], total, k))
  }

  lemma ReducedSum(a: int, b: int, s: int, t: int)
    requires Cong(a, s, PRIME) && Cong(b, t, PRIME)
    ensures Cong(Mod(a + b, PRIME), s + t, PRIME)
  {
    hide Mod;
    CongAdd(a, s, b, t, PRIME);
    CongMod(a + b, PRIME);
  }

  lemma ReducedProduct(a: int, b: int, s: int, t: int)
    requires Cong(a, s, PRIME) && Cong(b, t, PRIME)
    ensures Cong(Mod(a * b, PRIME), s * t, PRIME)
  {
    hide Mod;
    CongMul(a, s, b, t, PRIME);
    CongMod(a * b, PRIME);
  }

  /** Adding shares adds the polynomials below them; the left threshold is recorded. */
  lemma AddShareOnSum(s: Share, t: Share, a: seq<int>, b: seq<int>, x: int)
    requires 0 <= s.y < PRIME && 0 <= t.y < PRIME && a != [] && b != []
    requires Cong(s.y, Eval(a, x), PRIME) && Cong(t.y, Eval(b, x), PRIME)
    ensures AddShare(s, t).x == s.x && AddShare(s, t).threshold == s.threshold && AddShare(s, t).total == s.total
    ensures AddShare(s, t).y == if s.y + t.y < PRIME then s.y + t.y else s.y + t.y - PRIME
    ensures Cong(AddShare(s, t).y, Eval(SumPolynomial(a, b), x), PRIME)
  {
    hide Mod, Eval, SumPolynomial;
    ValueOfSum(a, b, x);
    ReducedSum(s.y, t.y, Eval(a, x), Eval(b, x));
    OneSubtraction(s.y + t.y);
  }

  lemma OneSubtraction(a: int)
    requires 0 <= a < 2 * PRIME
    ensures Mod(a, PRIME) == if a < PRIME then a else a - PRIME
  {
    hide Mod;
    if a < PRIME {
      CongSmall(a, PRIME);
    } else {
      CongSmall(a - PRIME, PRIME);
      CongIntro(a, a - PRIME, 1, PRIME);
    }
  }

  /** Multiplying shares multiplies the polynomials below them, and the thresholds add up less one. */
  lemma MulShareOnProduct(s: Share, t: Share, a: seq<int>, b: seq<int>, x: int)
    requires 0 <= s.y < PRIME && 0 <= t.y < PRIME && a != [] && b != []
    requires Cong(s.y, Eval(a, x), PRIME) && Cong(t.y, Eval(b, x), PRIME)
    ensures Int64(s.y * t.y) && MulShare(s, t).x == s.x && MulShare(s, t).total == s.total
    ensures 0 <= MulShare(s, t).y < PRIME
    ensures s.threshold + t.threshold == 0 ==> MulShare(s, t).threshold == 0xFFFF_FFFF
    ensures 1 <= s.threshold + t.threshold <= UINT32 ==>
              MulShare(s, t).threshold == s.threshold + t.threshold - 1
    ensures Cong(MulShare(s, t).y, Eval(Times(a, b), x), PRIME)
  {
    hide Mod, Eval, Times;
    ProductRange(s.y, t.y, PRIME, PRIME);
    TimesEval(a, b, x);
    ReducedProduct(s.y, t.y, Eval(a, x), Eval(b, x));
  }

  /** Each party's result is a share, at its own position, on the result polynomial. */
  lemma {:induction false} ShareOnResultPolynomial(
      g: Circuit, secrets: seq<int>, thresholds: seq<nat>, total: nat, k: nat)
    requires |secrets| == |thresholds| && UsesInputs(g, |secrets|) && Positive(thresholds)
    ensures var s := ShareOf(g, InputShares(secrets, thresholds, total, k));
            s.x == k + 1 && Cong(s.y, Eval(ResultPolynomial(g, secrets, thresholds), k + 1), PRIME)
  {
    hide Mod, Eval, Times, SumPolynomial, AddShare, MulShare;
    var inputs := InputShares(secrets, thresholds, total, k);
    match g
    case Input(i) =>
      CongMod(Eval(DealerPolynomial(secrets[i], thresholds[i]), k + 1), PRIME);
    case Add(l, r) =>
      ShareOnResultPolynomial(l, secrets, thresholds, total, k);
      ShareOnResultPolynomial(r, secrets, thresholds, total, k);
      var a, b := ResultPolynomial(l, secrets, thresholds), ResultPolynomial(r, secrets, thresholds);
      AddShareOnSum(ShareOf(l, inputs), ShareOf(r, inputs), a, b, k + 1);
    case Mul(l, r) =>
      ShareOnResultPolynomial(l, secrets, thresholds, total, k);
      ShareOnResultPolynomial(r, secrets, thresholds, total, k);
      var a, b := ResultPolynomial(l, secrets, thresholds), ResultPolynomial(r, secrets, thresholds);
      MulShareOnProduct(ShareOf(l, inputs), ShareOf(r, inputs), a, b, k + 1);
  }

  /** The shares of the result, one per party. */
  function ResultShares(g: Circuit, secrets: seq<int>, thresholds: seq<nat>, total: nat): (s: seq<Share>)
    requires |secrets| == |thresholds| && UsesInputs(g, |secrets|) && Positive(thresholds)
    ensures |s| == total
  {
    seq(total, k requires 0 <= k < total => ShareOf(g, InputShares(secrets, thresholds, total, k)))
  }

  /**
   Whatever is computed on shares by additions and multiplications, any distinct shares of the
   result, as many as needed, reconstruct the same computation on the secrets.
   */
  lemma ComputeOnShares(g: Circuit, secrets: seq<int>, thresholds: seq<nat>, total: nat, indices: seq<nat>)
    requires |secrets| == |thresholds| && UsesInputs(g, |secrets|)
    requires Positive(thresholds) && total <= MAX_PARTIES
    requires ValidIndices(indices, total) && NoDuplicates(indices)
    requires |indices| >= NeededThreshold(g, thresholds)
    ensures var s := ResultShares(g, secrets, thresholds, total);
            Reconstructed(Xs(s, indices), Ys(s, indices), 1, PRIME) == Mod(Value(g, secrets), PRIME)
  {
    hide Mod, Eval, LagrangeSum, ShareOf, Value;
    var s, c := ResultShares(g, secrets, thresholds, total), ResultPolynomial(g, secrets, thresholds);
    var xs, ys := Xs(s, indices), Ys(s, indices);
    forall i | 0 <= i < |xs| ensures xs[i] == indices[i] + 1 && Cong(ys[i], Eval(c, xs[i]), PRIME) {
      ShareOnResultPolynomial(g, secrets, thresholds, total, indices[i]);
    }
    PositionsDistinct(xs, indices, total);
    PrimeIsPrime();
    QualifiedPointsRecover(c, xs, ys, 1, PRIME);
  }

  // ---- The threshold that the shares of a result record ----

  function RecordedThreshold(g: Circuit, thresholds: seq<nat>): (t: int)
    requires UsesInputs(g, |thresholds|) && Positive(thresholds)
    ensures t >= 1
  {
    match g
    case Input(i) => thresholds[i]
    case Add(l, r) => RecordedThreshold(l, thresholds)
    case Mul(l, r) => RecordedThreshold(l, thresholds) + RecordedThreshold(r, thresholds) - 1
  }

  lemma {:induction false} ShareRecords(g: Circuit, secrets: seq<int>, thresholds: seq<nat>, total: nat, k: nat)
    requires |secrets| == |thresholds| && UsesInputs(g, |secrets|) && Positive(thresholds)
    requires forall i :: 0 <= i < |thresholds| ==> thresholds[i] < UINT32
    ensures ShareOf(g, InputShares(secrets, thresholds, total, k)).threshold
         == RecordedThreshold(g, thresholds) % UINT32
  {
    hide Reduce, DealerPolynomial, Eval;
    match g
    case Input(i) =>
    case Add(l, r) =>
      ShareRecords(l, secrets, thresholds, total, k);
    case Mul(l, r) =>
      ShareRecords(l, secrets, thresholds, total, k);
      ShareRecords(r, secrets, thresholds, total, k);
      WrappedSum(RecordedThreshold(l, thresholds), RecordedThreshold(r, thresholds));
  }

  lemma WrappedSum(a: int, b: int)
    ensures (a % UINT32 + b % UINT32 - 1) % UINT32 == (a + b - 1) % UINT32
  {
  }

  /** At every addition the left operand records at least the threshold of the right one. */
  predicate LeftHeavy(g: Circuit, thresholds: seq<nat>)
    requires UsesInputs(g, |thresholds|) && Positive(thresholds)
  {
    match g
    case Input(i) => true
    case Add(l, r) =>
      LeftHeavy(l, thresholds) && LeftHeavy(r, thresholds)
      && RecordedThreshold(l, thresholds) >= RecordedThreshold(r, thresholds)
    case Mul(l, r) => LeftHeavy(l, thresholds) && LeftHeavy(r, thresholds)
  }

  /** What is recorded never exceeds what is needed, and equals it for left-heavy circuits. */
  lemma {:induction false} RecordedAgainstNeeded(g: Circuit, thresholds: seq<nat>)
    requires UsesInputs(g, |thresholds|) && Positive(thresholds)
    ensures RecordedThreshold(g, thresholds) <= NeededThreshold(g, thresholds)
    ensures LeftHeavy(g, thresholds) ==> RecordedThreshold(g, thresholds) == NeededThreshold(g, thresholds)
  {
    match g
    case Input(i) =>
    case Add(l, r) =>
      RecordedAgainstNeeded(l, thresholds);
      RecordedAgainstNeeded(r, thresholds);
    case Mul(l, r) =>
      RecordedAgainstNeeded(l, thresholds);
      RecordedAgainstNeeded(r, thresholds);
  }

  /** For left-heavy circuits as many shares of the result suffice as they record. */
  lemma RecordedSuffices(g: Circuit, secrets: seq<int>, thresholds: seq<nat>, total: nat, indices: seq<nat>)
    requires |secrets| == |thresholds| && UsesInputs(g, |secrets|) && Positive(thresholds)
    requires LeftHeavy(g, thresholds) && RecordedThreshold(g, thresholds) < UINT32
    requires total <= MAX_PARTIES && forall i :: 0 <= i < |thresholds| ==> thresholds[i] < UINT32
    requires ValidIndices(indices, total) && NoDuplicates(indices) && total > 0
    requires |indices| >= ResultShares(g, secrets, thresholds, total)[0].threshold
    ensures var s := ResultShares(g, secrets, thresholds, total);
            Reconstructed(Xs(s, indices), Ys(s, indices), 1, PRIME) == Mod(Value(g, secrets), PRIME)
  {
    hide Mod, Reconstructed, ShareOf, Value, LeftHeavy;
    ShareRecords(g, secrets, thresholds, total, 0);
    RecordedAgainstNeeded(g, thresholds);
    ComputeOnShares(g, secrets, thresholds, total, indices);
  }

  // ---- When the recorded threshold of a sum is too small ----

  function SumPoints(xs: seq<int>, a: seq<int>, b: seq<int>): (ys: seq<int>)
    ensures |ys| == |xs|
  {
    seq(|xs|, i requires 0 <= i < |xs| => Mod(Mod(Eval(a, xs[i]), PRIME) + Mod(Eval(b, xs[i]), PRIME), PRIME))
  }

  lemma SumPointsOnPolynomial(xs: seq<int>, a: seq<int>, b: seq<int>)
    requires a != [] && b != []
    ensures OnPolynomial(xs, SumPoints(xs, a, b), SumPolynomial(a, b), PRIME)
  {
    hide Mod, Eval, SumPolynomial;
    forall i | 0 <= i < |xs| ensures Cong(SumPoints(xs, a, b)[i], Eval(SumPolynomial(a, b), xs[i]), PRIME) {
      var s, t := Eval(a, xs[i]), Eval(b, xs[i]);
      CongMod(s, PRIME);
      CongMod(t, PRIME);
      ReducedSum(Mod(s, PRIME), Mod(t, PRIME), s, t);
      ValueOfSum(a, b, xs[i]);
    }
  }

  /**
   A sum records the left threshold.  That many shares are enough, whatever the two sharings,
   exactly when the left threshold is not the smaller one.
   */
  lemma SumThresholdExact(xs: seq<int>, t1: nat, t2: nat)
    requires 1 <= t1 == |xs| && 1 <= t2 && Positions(xs, PRIME)
    ensures (forall a: seq<int>, b: seq<int> :: |a| == t1 && |b| == t2 ==>
               Reconstructed(xs, SumPoints(xs, a, b), 1, PRIME) == Mod(a[0] + b[0], PRIME))
       <==> t1 >= t2
  {
    hide Mod, Eval, LagrangeSum;
    PrimeIsPrime();
    if t1 >= t2 {
      forall a: seq<int>, b: seq<int> | |a| == t1 && |b| == t2
        ensures Reconstructed(xs, SumPoints(xs, a, b), 1, PRIME) == Mod(a[0] + b[0], PRIME)
      {
        SumPointsOnPolynomial(xs, a, b);
        QualifiedPointsRecover(SumPolynomial(a, b), xs, SumPoints(xs, a, b), 1, PRIME);
      }
    } else {
      var a := Zeros(t1);
      var b := FreeValue(Zeros(t2), xs, 0, 1, PRIME);
      forall i | 0 <= i < t1 ensures Cong(SumPoints(xs, a, b)[i], Eval(a, xs[i]), PRIME) {
        EvalZeros(t1, xs[i]);
        EvalZeros(t2, xs[i]);
        CongSmall(0, PRIME);
      }
      QualifiedPointsRecover(a, xs, SumPoints(xs, a, b), 1, PRIME);
      EvalAtZero(b);
      CongSmall(0, PRIME);
      CongSmall(1, PRIME);
      assert Reconstructed(xs, SumPoints(xs, a, b), 1, PRIME) != Mod(a[0] + b[0], PRIME);
    }
  }

  /** The sums of two dealt sharings, party by party. */
  function SumShares(s: seq<Share>, t: seq<Share>): (r: seq<Share>)
    requires |s| == |t| && Reduced(s) && Reduced(t)
    ensures |r| == |s|
  {
    seq(|s|, i requires 0 <= i < |s| => AddShare(s[i], t[i]))
  }

  lemma DealtIsReduced(secret: int, threshold: nat, total: nat)
    requires threshold >= 1
    ensures Reduced(Dealt(secret, threshold, total))
  {
  }

  /** The positions of distinct parties. */
  lemma PartyPositions(xs: seq<int>, indices: seq<nat>, n: nat)
    requires n <= MAX_PARTIES && ValidIndices(indices, n) && NoDuplicates(indices) && |xs| == |indices|
    requires forall i :: 0 <= i < |xs| ==> xs[i] == indices[i] + 1
    ensures Positions(xs, PRIME)
  {
    PositionsDistinct(xs, indices, n);
    CongSmall(0, PRIME);
    forall i | 0 <= i < |xs| ensures !Cong(0, xs[i], PRIME) {
      CongSmall(xs[i], PRIME);
    }
  }

  lemma UnitBelowPrime(a: int)
    requires 1 <= a < PRIME
    ensures !Divides(PRIME, a)
  {
    CongSmall(a, PRIME);
  }

  /** One dealt share too few always reconstructs something else than the secret. */
  lemma OneShareShort(secret: int, threshold: nat, total: nat, indices: seq<nat>)
    requires 2 <= threshold <= total <= MAX_PARTIES
    requires ValidIndices(indices, total) && NoDuplicates(indices) && |indices| == threshold - 1
    ensures var s := Dealt(secret, threshold, total);
            Reconstructed(Xs(s, indices), Ys(s, indices), 1, PRIME) != Mod(secret, PRIME)
  {
    hide Mod, Eval, LagrangeSum;
    var s, c := Dealt(secret, threshold, total), DealerPolynomial(secret, threshold);
    var xs, ys := Xs(s, indices), Ys(s, indices);
    PartyPositions(xs, indices, total);
    forall i | 0 <= i < |xs| ensures Cong(ys[i], Eval(c, xs[i]), PRIME) {
      CongMod(Eval(c, xs[i]), PRIME);
    }
    PrimeIsPrime();
    UnitBelowPrime(c[threshold - 1]);
    OneShortIsWrong(c, xs, ys, 1, PRIME);
  }

  /**
   For any two secrets dealt with thresholds t and t + 1, in this order: the sum records t, and t
   of its shares always reconstruct something else than the sum of the secrets.
   */
  lemma SumOfNextThresholdFails(s1: int, s2: int, t: nat, total: nat, indices: seq<nat>)
    requires 1 <= t < total <= MAX_PARTIES
    requires ValidIndices(indices, total) && NoDuplicates(indices) && |indices| == t
    ensures Reduced(Dealt(s1, t, total)) && Reduced(Dealt(s2, t + 1, total))
    ensures var s := SumShares(Dealt(s1, t, total), Dealt(s2, t + 1, total));
            && (forall k :: 0 <= k < total ==> s[k].threshold == t)
            && Reconstructed(Xs(s, indices), Ys(s, indices), 1, PRIME) != Mod(s1 + s2, PRIME)
  {
    DealtIsReduced(s1, t, total);
    DealtIsReduced(s2, t + 1, total);
    hide Mod, Eval, LagrangeSum, AddShare, SumPolynomial;
    var l, r := Dealt(s1, t, total), Dealt(s2, t + 1, total);
    var a, b := DealerPolynomial(s1, t), DealerPolynomial(s2, t + 1);
    var s, c := SumShares(l, r), SumPolynomial(a, b);
    forall k | 0 <= k < total
      ensures s[k].x == k + 1 && s[k].threshold == t && Cong(s[k].y, Eval(c, k + 1), PRIME)
    {
      CongMod(Eval(a, k + 1), PRIME);
      CongMod(Eval(b, k + 1), PRIME);
      AddShareOnSum(l[k], r[k], a, b, k + 1);
    }
    var xs, ys := Xs(s, indices), Ys(s, indices);
    PartyPositions(xs, indices, total);
    PrimeIsPrime();
    LastOfSum(a, b);
    UnitBelowPrime(b[t]);
    OneShortIsWrong(c, xs, ys, 1, PRIME);
  }

  lemma LastOfSum(a: seq<int>, b: seq<int>)
    requires a != [] && |b| == |a| + 1
    ensures SumPolynomial(a, b)[|a|] == b[|a|]
  {
  }

  /** The coefficients from t on of what a dealer with threshold t2 uses; they are public. */
  function Tail(t: nat, t2: nat): (c: seq<int>)
    requires t2 >= 1
    ensures |c| == t2
  {
    seq(t2, i requires 0 <= i < t2 => if i < t then 0 else DealerPolynomial(0, t2)[i])
  }

  lemma HeadAndTail(s: int, t: nat, t2: nat, x: int)
    requires t >= 1 && t2 >= 1
    ensures var b := DealerPolynomial(s, t2);
            Eval(b, x) == Eval(Head(s, t, t2), x) + Eval(Tail(t, t2), x)
  {
    var b, c, head := DealerPolynomial(s, t2), Tail(t, t2), Head(s, t, t2);
    var padded := head + Zeros(t2 - |head|);
    forall i | 0 <= i < t2 ensures padded[i] + 1 * c[i] == b[i] {
      if i < |head| {
        assert padded[i] == head[i] == b[i] && c[i] == 0;
      } else {
        assert padded[i] == 0 && c[i] == DealerPolynomial(0, t2)[i] == b[i];
      }
    }
    assert Combine(padded, 1, c) == b;
    hide Eval, Combine, DealerPolynomial, Tail, Head;
    EvalCombine(padded, 1, c, x);
    EvalPadded(head, t2 - |head|, x);
  }

  /** The coefficients that t shares can tell apart. */
  function Head(s: int, t: nat, t2: nat): (c: seq<int>)
    requires t >= 1 && t2 >= 1
    ensures 1 <= |c| <= t && c[0] == s
  {
    if t < t2 then DealerPolynomial(s, t2)[..t] else DealerPolynomial(s, t2)
  }

  lemma SumShareSplits(s1: int, t1: nat, s2: int, t2: nat, total: nat, k: nat)
    requires 1 <= t1 && 1 <= t2
    ensures var l, r := DealtShare(s1, t1, total, k), DealtShare(s2, t2, total, k);
            var low := SumPolynomial(DealerPolynomial(s1, t1), Head(s2, t1, t2));
            && 0 <= l.y < PRIME && 0 <= r.y < PRIME && AddShare(l, r).x == k + 1
            && Cong(AddShare(l, r).y, Eval(low, k + 1) + Eval(Tail(t1, t2), k + 1), PRIME)
  {
    hide Mod, Eval, SumPolynomial, Tail;
    var l, r := DealtShare(s1, t1, total, k), DealtShare(s2, t2, total, k);
    var a, b := DealerPolynomial(s1, t1), DealerPolynomial(s2, t2);
    CongMod(Eval(a, k + 1), PRIME);
    CongMod(Eval(b, k + 1), PRIME);
    AddShareOnSum(l, r, a, b, k + 1);
    ValueOfSum(a, b, k + 1);
    ValueOfSum(a, Head(s2, t1, t2), k + 1);
    HeadAndTail(s2, t1, t2, k + 1);
  }

  lemma ZeroDifference(r: int, m: int, v: int)
    requires Cong(r, m + v, PRIME) && 0 <= r < PRIME && 0 <= m < PRIME && 0 <= v < PRIME
    ensures r == m <==> v == 0
  {
    hide Mod;
    CongDiff(r, m + v, PRIME);
    CongSmall(v, PRIME);
    CongSmall(r, PRIME);
    CongSmall(m, PRIME);
    if r == m {
      CongSub(m, m, m, m + v, PRIME);
      CongSmall(0, PRIME);
      CongSub(0, 0, 0 - v, 0, PRIME);
    }
  }

  /**
   For any two secrets dealt with any two thresholds: as many shares of the sum as it records
   reconstruct the sum exactly if the tail of the second polynomial, which does not depend on
   the secrets, interpolates to zero through their positions.
   */
  lemma DealtSumExact(s1: int, t1: nat, s2: int, t2: nat, total: nat, indices: seq<nat>)
    requires 1 <= t1 && 1 <= t2 && total <= MAX_PARTIES
    requires ValidIndices(indices, total) && NoDuplicates(indices) && |indices| == t1
    ensures Reduced(Dealt(s1, t1, total)) && Reduced(Dealt(s2, t2, total))
    ensures var s := SumShares(Dealt(s1, t1, total), Dealt(s2, t2, total));
            var xs := Xs(s, indices);
            var tail := seq(t1, i requires 0 <= i < t1 => Eval(Tail(t1, t2), xs[i]));
            Reconstructed(xs, Ys(s, indices), 1, PRIME) == Mod(s1 + s2, PRIME)
            <==> Reconstructed(xs, tail, 1, PRIME) == 0
  {
    DealtIsReduced(s1, t1, total);
    DealtIsReduced(s2, t2, total);
    hide Mod, Eval, Reconstructed, AddShare, SumPolynomial, Tail, Head, DealerPolynomial;
    var s := SumShares(Dealt(s1, t1, total), Dealt(s2, t2, total));
    var low := SumPolynomial(DealerPolynomial(s1, t1), Head(s2, t1, t2));
    var xs, ys := Xs(s, indices), Ys(s, indices);
    var us := seq(t1, i requires 0 <= i < t1 => Eval(low, xs[i]));
    var vs := seq(t1, i requires 0 <= i < t1 => Eval(Tail(t1, t2), xs[i]));
    forall i | 0 <= i < t1 ensures xs[i] == indices[i] + 1 && Cong(ys[i], us[i] + vs[i], PRIME) {
      SumShareSplits(s1, t1, s2, t2, total, indices[i]);
    }
    PositionsDistinct(xs, indices, total);
    PrimeIsPrime();
    QualifiedPointsRecover(low, xs, us, 1, PRIME);
    ReconstructedAdds(xs, ys, us, vs, 1, PRIME);
    ReconstructedRange(xs, ys, 1, PRIME);
    ReconstructedRange(xs, vs, 1, PRIME);
    ZeroDifference(Reconstructed(xs, ys, 1, PRIME), Mod(s1 + s2, PRIME), Reconstructed(xs, vs, 1, PRIME));
  }

  /** At an input: twice the secret 0, thresholds 1 and 2; the first share of the sum gives 39257. */
  lemma SumOfZeros()
    ensures Reduced(Dealt(0, 1, 2)) && Reduced(Dealt(0, 2, 2))
    ensures var s := SumShares(Dealt(0, 1, 2), Dealt(0, 2, 2));
            s[0] == Share(1, 39257, 1, 2) && Reconstructed(Xs(s, [0]), Ys(s, [0]), 1, PRIME) == 39257
  {
    DealtIsReduced(0, 1, 2);
    DealtIsReduced(0, 2, 2);
    var s := SumShares(Dealt(0, 1, 2), Dealt(0, 2, 2));
    assert DealerPolynomial(0, 1) == [0] && DealerPolynomial(0, 2) == [0, 39257];
    assert Eval([0], 1) == 0 && Eval([39257], 1) == 39257 && Eval([0, 39257], 1) == 39257;
    assert s[0] == Share(1, 39257, 1, 2);
    assert Xs(s, [0]) == [1] && Ys(s, [0]) == [39257];
    hide LagrangeSum;
    PrimeIsPrime();
    QualifiedPointsRecover([39257], [1], [39257], 1, PRIME);
    CongSmall(39257, PRIME);
  }
}
