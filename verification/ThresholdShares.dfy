/**
 Shamir sharing for threshold signatures (threshold_sig.c): dealing, reconstruction through
 the first shares given, arithmetic on shares, Lagrange coefficients and proactive refresh.
 */
module ThresholdShares {
  import opened Modular
  import opened Primes
  import opened MersennePrime
  import opened Polynomials
  import opened MachineArithmetic
  import opened SecretSharing

  const MAX_PARTIES := 32
  const MAX_SHARES := 64

  datatype Share = Share(x: int, y: int, id: nat)

  function DealtShare(secret: int, threshold: nat, i: nat): Share
    requires threshold >= 1
  {
    Share(i + 1, Mod(Eval(DealerPolynomial(secret, threshold), i + 1), PRIME), i)
  }

  function Dealt(secret: int, threshold: nat, total: nat): (s: seq<Share>)
    requires total > 0 ==> threshold >= 1
    ensures |s| == total
  {
    seq(total, i requires 0 <= i < total => DealtShare(secret, threshold, i))
  }

  function Xs(shares: seq<Share>): (xs: seq<int>)
    ensures |xs| == |shares|
  {
    seq(|shares|, i requires 0 <= i < |shares| => shares[i].x)
  }

  function Ys(shares: seq<Share>): (ys: seq<int>)
    ensures |ys| == |shares|
  {
    seq(|shares|, i requires 0 <= i < |shares| => shares[i].y)
  }

  /** `ts_sss_reconstruct`: of the shares given, the first `threshold` are used. */
  method Reconstruct(shares: seq<Share>, threshold: nat) returns (secret: Option<int>)
    requires threshold <= |shares| ==> SmallPoints(Xs(shares[..threshold]), Ys(shares[..threshold]))
    ensures secret.None? <==> |shares| < threshold
    ensures secret.Some? ==> secret.value == ReconstructedFrom(shares[..threshold])
  {
    if |shares| < threshold {
      return None;
    }
    var r := InterpolateAtZero(Xs(shares[..threshold]), Ys(shares[..threshold]));
    return Some(r);
  }

  function ReconstructedFrom(shares: seq<Share>): int {
    Reconstructed(Xs(shares), Ys(shares), 1, PRIME)
  }

  // ---- Refresh ----

  /** The per-epoch multiplier; the product is computed in 32 bits. */
  function Noise(epoch: nat): nat {
    ((epoch * 7919 + 31337) % UINT32) % (PRIME - 1)
  }

  /** The polynomial added by a refresh: its constant term is zero. */
  function RefreshPolynomial(threshold: nat, epoch: nat): (c: seq<int>)
    requires threshold >= 1
    ensures |c| == threshold && c[0] == 0
    ensures forall i :: 1 <= i < threshold ==> 1 <= c[i] < PRIME
  {
    [0] + seq(threshold - 1, i => ((i + 1) * Noise(epoch)) % (PRIME - 1) + 1)
  }

  /** The noise: 7919 more with every epoch, except where the 32-bit product wraps or reaches p - 1. */
  lemma NoiseLaw(epoch: nat)
    ensures Noise(0) == 31337
    ensures (epoch * 7919 + 31337) % 0x1_0000_0000 < 2147483646 - 7919 ==> Noise(epoch + 1) == Noise(epoch) + 7919
  {
    if (epoch * 7919 + 31337) % 0x1_0000_0000 < 2147483646 - 7919 {
      NoiseStep(epoch * 7919 + 31337);
    }
  }

  lemma NoiseStep(product: nat)
    requires product % 0x1_0000_0000 < 2147483646 - 7919
    ensures product % 0x1_0000_0000 % 2147483646 == product % 0x1_0000_0000
    ensures (product + 7919) % 0x1_0000_0000 % 2147483646 == product % 0x1_0000_0000 + 7919
  {
    CongIntro(product + 7919, product % 0x1_0000_0000 + 7919, product / 0x1_0000_0000, 0x1_0000_0000);
    CongSmall(product % 0x1_0000_0000 + 7919, 0x1_0000_0000);
  }

  /** One epoch whose product leaves the 31-bit range, and one whose product wraps at 32 bits. */
  lemma NoiseSamples()
    ensures Noise(271200) == 180491 && Noise(542359) == 4962
  {
  }

  /** The k-th coefficient of a refresh is k times the noise modulo p - 1, plus 1. */
  lemma RefreshCoefficientLaw(threshold: nat, epoch: nat, k: nat)
    requires 1 <= k < threshold
    ensures var c := RefreshPolynomial(threshold, epoch);
            && c[0] == 0 && c[1] == Noise(epoch) + 1
            && Cong(c[k] - 1, k * (c[1] - 1), 2147483646) && 1 <= c[k] <= 2147483646
  {
    CongMod(k * Noise(epoch), PRIME - 1);
    NoiseRange(epoch);
  }

  lemma NoiseRange(epoch: nat)
    ensures 0 <= Noise(epoch) < PRIME - 1
  {
  }

  function RefreshedShare(s: Share, threshold: nat, epoch: nat): Share
    requires threshold >= 1
  {
    s.(y := Mod(s.y + Mod(Eval(RefreshPolynomial(threshold, epoch), s.x), PRIME), PRIME))
  }

  function Refreshed(shares: seq<Share>, threshold: nat, epoch: nat): (s: seq<Share>)
    requires threshold >= 1
    ensures |s| == |shares|
  {
    seq(|shares|, i requires 0 <= i < |shares| => RefreshedShare(shares[i], threshold, epoch))
  }

  function RefreshRun(shares: seq<Share>, threshold: nat, epochs: seq<nat>): (s: seq<Share>)
    requires threshold >= 1
    ensures |s| == |shares|
    decreases |epochs|
  {
    if epochs == [] then shares
    else RefreshRun(Refreshed(shares, threshold, epochs[0]), threshold, epochs[1..])
  }

  method RefreshCoefficients(threshold: nat, epoch: nat) returns (coeffs: array<int>)
    requires threshold <= MAX_PARTIES
    ensures fresh(coeffs) && coeffs.Length == MAX_PARTIES
    ensures threshold >= 1 ==> coeffs[..threshold] == RefreshPolynomial(threshold, epoch)
  {
    var noise := Noise(epoch);
    coeffs := new int[MAX_PARTIES](_ => 0);
    coeffs[0] := 0;
    var i := 1;
    while i < threshold
      invariant i >= 1 && coeffs[0] == 0
      invariant forall k :: 1 <= k < i && k < threshold ==> coeffs[k] == (k * noise) % (PRIME - 1) + 1
    {
      coeffs[i] := (i * noise) % (PRIME - 1) + 1;
      i := i + 1;
    }
  }

  predicate SmallShare(s: Share) {
    Abs(s.x) <= 0x8000_0000 && Abs(s.y) <= 0x8000_0000
  }

  /** `ts_refresh_share` computes for one share what RefreshProactive does for all of them. */
  method RefreshShare(share: Share, threshold: nat, epoch: nat) returns (refreshed: Share)
    requires 1 <= threshold <= MAX_PARTIES && SmallShare(share)
    ensures refreshed == RefreshedShare(share, threshold, epoch)
  {
    hide Mod, Eval;
    var coeffs := RefreshCoefficients(threshold, epoch);
    SliceElements(coeffs[..], threshold, RefreshPolynomial(threshold, epoch));
    var add := EvalPoly(coeffs, threshold - 1, share.x, PRIME);
    refreshed := Share(share.x, Reduce(share.y + add, PRIME), share.id);
  }

  lemma SliceElements(s: seq<int>, n: nat, c: seq<int>)
    requires n <= |s| && s[..n] == c
    ensures forall i :: 0 <= i < n ==> s[i] == c[i]
    ensures n > 0 ==> s[..n - 1 + 1] == c
  {
    forall i | 0 <= i < n ensures s[i] == c[i] {
      assert s[i] == s[..n][i];
    }
  }

  class Context {
    const shares: array<Share>
    var threshold: nat
    var total: nat
    var secret: int

    constructor ()
      ensures shares.Length == MAX_SHARES && fresh(shares)
    {
      shares := new Share[MAX_SHARES](_ => Share(0, 0, 0));
      threshold, total, secret := 0, 0, 0;
    }

    /** As in MpcShamir, with room for 64 shares and 32 coefficients. */
    method Split(secret: int, threshold: nat, total: nat) returns (status: int)
      requires shares.Length == MAX_SHARES && Int64(secret)
      requires threshold <= total <= MAX_SHARES ==> threshold <= MAX_PARTIES
      requires threshold <= total <= MAX_SHARES && total > 0 ==> threshold >= 1
      modifies this, shares
      ensures status == if threshold > total || total > MAX_SHARES then -1 else 0
      ensures status != 0 ==> unchanged(this) && unchanged(shares)
      ensures status == 0 ==>
                && this.threshold == threshold && this.total == total && this.secret == secret
                && shares[..total] == Dealt(secret, threshold, total)
                && (forall k :: 0 <= k < total ==>
                      && shares[k].x == k + 1 && shares[k].id == k
                      && shares[k].y == Mod(Eval(DealerPolynomial(secret, threshold), k + 1), PRIME))
                && shares[total..] == old(shares[total..])
    {
      hide Mod, Eval, DealerPolynomial;
      if threshold > total || total > MAX_SHARES {
        return -1;
      }
      this.threshold := threshold;
      this.total := total;
      this.secret := secret;
      var coeffs := DealerCoefficients(secret, threshold, MAX_PARTIES);
      for i := 0 to total
        invariant forall k :: 0 <= k < i ==> shares[k] == DealtShare(secret, threshold, k)
        invariant shares[total..] == old(shares[total..])
        modifies shares
      {
        assert coeffs[..threshold - 1 + 1] == DealerPolynomial(secret, threshold);
        var y := EvalPoly(coeffs, threshold - 1, i + 1, PRIME);
        shares[i] := Share(i + 1, y, i);
      }
      return 0;
    }

    /** Every share is overwritten in place by its refreshed value. */
    method RefreshProactive(epoch: nat)
      requires threshold <= MAX_PARTIES && total <= shares.Length
      requires total > 0 ==> threshold >= 1
      requires forall i :: 0 <= i < total ==> SmallShare(shares[i])
      modifies shares
      ensures threshold >= 1 ==> shares[..total] == Refreshed(old(shares[..total]), threshold, epoch)
      ensures shares[total..] == old(shares[total..])
    {
      hide Mod, Eval, RefreshPolynomial;
      var coeffs := RefreshCoefficients(threshold, epoch);
      if threshold >= 1 {
        SliceElements(coeffs[..], threshold, RefreshPolynomial(threshold, epoch));
      }
      for i := 0 to total
        invariant forall k :: 0 <= k < i ==> shares[k] == RefreshedShare(old(shares[k]), threshold, epoch)
        invariant forall k :: i <= k < shares.Length ==> shares[k] == old(shares[k])
        modifies shares
      {
        assert coeffs[..threshold - 1 + 1] == RefreshPolynomial(threshold, epoch);
        var add := EvalPoly(coeffs, threshold - 1, shares[i].x, PRIME);
        shares[i] := shares[i].(y := Reduce(shares[i].y + add, PRIME));
      }
    }
  }

  /** `ts_refresh_verify`: do the first `threshold` shares of both contexts agree on the secret? */
  method RefreshVerify(oldContext: Context, newContext: Context, threshold: nat) returns (status: int)
    requires threshold <= oldContext.shares.Length && threshold <= newContext.shares.Length
    requires SmallPoints(Xs(oldContext.shares[..threshold]), Ys(oldContext.shares[..threshold]))
    requires SmallPoints(Xs(newContext.shares[..threshold]), Ys(newContext.shares[..threshold]))
    ensures status == 0 || status == -1
    ensures status == 0 <==> ReconstructedFrom(oldContext.shares[..threshold])
                             == ReconstructedFrom(newContext.shares[..threshold])
  {
    hide SmallPoints, ReconstructedFrom;
    assert oldContext.shares[..threshold][..threshold] == oldContext.shares[..threshold];
    assert newContext.shares[..threshold][..threshold] == newContext.shares[..threshold];
    var oldSecret := Reconstruct(oldContext.shares[..threshold], threshold);
    var newSecret := Reconstruct(newContext.shares[..threshold], threshold);
    status := if oldSecret == newSecret then 0 else -1;
  }

  /** In numbers: a share at position 2, threshold 3, first epoch. */
  lemma RefreshedInNumbers(id: nat)
    ensures RefreshedShare(Share(2, 5, id), 3, 0) == Share(2, 313381, id)
  {
    FirstRefresh();
    hide RefreshPolynomial, Mod;
    var c := RefreshPolynomial(3, 0);
    assert c[1..] == [31338, 62675] && c[2..] == [62675];
    assert Eval([62675], 2) == 62675;
    assert Eval([31338, 62675], 2) == 31338 + 2 * 62675;
    assert Eval(c, 2) == 2 * (31338 + 2 * 62675) == 313376;
    CongSmall(313376, PRIME);
    CongSmall(313381, PRIME);
  }

  lemma FirstRefresh()
    ensures RefreshPolynomial(3, 0) == [0, 31338, 62675]
  {
    assert Noise(0) == 31337;
    var c := RefreshPolynomial(3, 0);
    assert c[1] == 31338 && c[2] == 62675;
  }

  // ---- Sharings: what every operation keeps ----

  /** The shares sit at positions 1 .. n, reduced, on the polynomial c. */
  ghost predicate SharingOf(shares: seq<Share>, c: seq<int>) {
    && |shares| < PRIME
    && forall i :: 0 <= i < |shares| ==>
         && shares[i].x == i + 1 && 0 <= shares[i].y < PRIME
         && Cong(shares[i].y, Eval(c, i + 1), PRIME)
  }

  lemma DealtIsSharing(secret: int, threshold: nat, total: nat)
    requires threshold >= 1 && total <= MAX_SHARES
    ensures SharingOf(Dealt(secret, threshold, total), DealerPolynomial(secret, threshold))
  {
    hide Mod, Eval;
    var c := DealerPolynomial(secret, threshold);
    forall i | 0 <= i < total
      ensures Cong(Dealt(secret, threshold, total)[i].y, Eval(c, i + 1), PRIME)
    {
      CongMod(Eval(c, i + 1), PRIME);
    }
  }

  lemma RefreshIsSharing(shares: seq<Share>, c: seq<int>, epoch: nat)
    requires c != [] && SharingOf(shares, c)
    ensures SharingOf(Refreshed(shares, |c|, epoch), Combine(c, 1, RefreshPolynomial(|c|, epoch)))
    ensures Combine(c, 1, RefreshPolynomial(|c|, epoch))[0] == c[0]
  {
    hide Mod, Eval, RefreshPolynomial;
    var r := RefreshPolynomial(|c|, epoch);
    forall i | 0 <= i < |shares|
      ensures Cong(Refreshed(shares, |c|, epoch)[i].y, Eval(Combine(c, 1, r), i + 1), PRIME)
    {
      var e := Eval(r, i + 1);
      EvalCombine(c, 1, r, i + 1);
      CongMod(e, PRIME);
      CongAdd(shares[i].y, Eval(c, i + 1), Mod(e, PRIME), e, PRIME);
      CongMod(shares[i].y + Mod(e, PRIME), PRIME);
    }
  }

  lemma {:induction false} RunIsSharing(shares: seq<Share>, c: seq<int>, epochs: seq<nat>)
      returns (d: seq<int>)
    requires c != [] && SharingOf(shares, c)
    ensures |d| == |c| && d[0] == c[0] && SharingOf(RefreshRun(shares, |c|, epochs), d)
    decreases |epochs|
  {
    hide SharingOf, Combine, Refreshed;
    d := c;
    if epochs != [] {
      RefreshIsSharing(shares, c, epochs[0]);
      d := RunIsSharing(Refreshed(shares, |c|, epochs[0]),
                        Combine(c, 1, RefreshPolynomial(|c|, epochs[0])), epochs[1..]);
    }
  }

  /** The shares picked by a list of distinct indices. */
  function Chosen(shares: seq<Share>, indices: seq<nat>): (s: seq<Share>)
    requires forall i :: 0 <= i < |indices| ==> indices[i] < |shares|
    ensures |s| == |indices|
  {
    seq(|indices|, i requires 0 <= i < |indices| => shares[indices[i]])
  }

  ghost predicate Qualified(indices: seq<nat>, total: nat, threshold: nat) {
    && NoDuplicates(indices) && |indices| >= threshold
    && forall i :: 0 <= i < |indices| ==> indices[i] < total
  }

  /** Any qualified choice from a sharing reconstructs the constant term of its polynomial. */
  lemma SharingReconstructs(shares: seq<Share>, c: seq<int>, indices: seq<nat>)
    requires c != [] && SharingOf(shares, c) && Qualified(indices, |shares|, |c|)
    ensures ReconstructedFrom(Chosen(shares, indices)[..|c|]) == Mod(c[0], PRIME)
  {
    hide Mod, Eval, Reconstructed;
    var s := Chosen(shares, indices)[..|c|];
    forall i, j | 0 <= i < j < |s| ensures !Cong(Xs(s)[i], Xs(s)[j], PRIME) {
      CongSmall(indices[i] + 1, PRIME);
      CongSmall(indices[j] + 1, PRIME);
    }
    PrimeIsPrime();
    QualifiedPointsRecover(c, Xs(s), Ys(s), 1, PRIME);
  }

  /** Split, any run of refreshes, any qualified choice: the reconstruction is the secret. */
  lemma RefreshKeepsSecret(secret: int, threshold: nat, total: nat, epochs: seq<nat>, indices: seq<nat>)
    requires 1 <= threshold <= total <= MAX_SHARES && Qualified(indices, total, threshold)
    ensures var s := RefreshRun(Dealt(secret, threshold, total), threshold, epochs);
            var chosen := Chosen(s, indices)[..threshold];
            && SmallPoints(Xs(chosen), Ys(chosen))
            && ReconstructedFrom(chosen) == Mod(secret, PRIME)
  {
    var c := DealerPolynomial(secret, threshold);
    DealtIsSharing(secret, threshold, total);
    var d := RunIsSharing(Dealt(secret, threshold, total), c, epochs);
    SharingReconstructs(RefreshRun(Dealt(secret, threshold, total), threshold, epochs), d, indices);
  }

  /** RefreshVerify compares equal values for any two contexts of one run. */
  lemma RefreshVerifyAccepts(secret: int, threshold: nat, total: nat, before: seq<nat>, after: seq<nat>)
    requires 1 <= threshold <= total <= MAX_SHARES
    ensures var s := Dealt(secret, threshold, total);
            ReconstructedFrom(RefreshRun(s, threshold, before)[..threshold])
            == ReconstructedFrom(RefreshRun(s, threshold, after)[..threshold])
  {
    var first: seq<nat> := seq(threshold, i => i);
    var s := Dealt(secret, threshold, total);
    RefreshKeepsSecret(secret, threshold, total, before, first);
    RefreshKeepsSecret(secret, threshold, total, after, first);
    assert Chosen(RefreshRun(s, threshold, before), first)[..threshold]
           == RefreshRun(s, threshold, before)[..threshold];
    assert Chosen(RefreshRun(s, threshold, after), first)[..threshold]
           == RefreshRun(s, threshold, after)[..threshold];
  }

  /** The run grows by one RefreshProactive call at a time. */
  lemma {:induction false} RefreshRunExtends(shares: seq<Share>, threshold: nat, epochs: seq<nat>, epoch: nat)
    requires threshold >= 1
    ensures RefreshRun(shares, threshold, epochs + [epoch])
            == Refreshed(RefreshRun(shares, threshold, epochs), threshold, epoch)
    decreases |epochs|
  {
    hide Refreshed;
    if epochs == [] {
      assert [epoch][1..] == [];
    } else {
      assert (epochs + [epoch])[1..] == epochs[1..] + [epoch];
      RefreshRunExtends(Refreshed(shares, threshold, epochs[0]), threshold, epochs[1..], epoch);
    }
  }

  lemma SharingIsSmall(shares: seq<Share>, c: seq<int>)
    requires SharingOf(shares, c)
    ensures forall i :: 0 <= i < |shares| ==> SmallShare(shares[i])
    ensures SmallPoints(Xs(shares), Ys(shares))
  {
  }

  lemma RunIsSmall(secret: int, threshold: nat, total: nat, epochs: seq<nat>)
    requires 1 <= threshold <= total <= MAX_SHARES
    ensures var s := RefreshRun(Dealt(secret, threshold, total), threshold, epochs);
            && (forall i :: 0 <= i < total ==> SmallShare(s[i]))
            && SmallPoints(Xs(s[..threshold]), Ys(s[..threshold]))
  {
    hide SharingOf, SmallShare, SmallPoints, RefreshRun;
    var c := DealerPolynomial(secret, threshold);
    DealtIsSharing(secret, threshold, total);
    var d := RunIsSharing(Dealt(secret, threshold, total), c, epochs);
    var s := RefreshRun(Dealt(secret, threshold, total), threshold, epochs);
    SharingIsSmall(s, d);
    SharingPrefix(s, d, threshold);
    SharingIsSmall(s[..threshold], d);
  }

  lemma SharingPrefix(shares: seq<Share>, c: seq<int>, n: nat)
    requires SharingOf(shares, c) && n <= |shares|
    ensures SharingOf(shares[..n], c)
  {
  }

  /**
   Dealing, any run of refreshes, and verification, as calls: the second context starts as a copy
   of the first, is refreshed epoch by epoch, and verifies against it.
   */
  method RefreshRound(before: Context, after: Context, secret: int, threshold: nat, total: nat, epochs: seq<nat>)
      returns (status: int)
    requires before.shares.Length == after.shares.Length == MAX_SHARES && before.shares != after.shares
    requires before != after && Int64(secret) && 1 <= threshold <= total <= MAX_SHARES && threshold <= MAX_PARTIES
    modifies before, before.shares, after, after.shares
    ensures status == 0
    ensures before.shares[..total] == Dealt(secret, threshold, total)
    ensures after.shares[..total] == RefreshRun(Dealt(secret, threshold, total), threshold, epochs)
  {
    hide DealtShare, Refreshed, RefreshRun, SmallShare, SmallPoints, ReconstructedFrom;
    ghost var s := Dealt(secret, threshold, total);
    var _ := before.Split(secret, threshold, total);
    var _ := after.Split(secret, threshold, total);
    NoRefresh(s, threshold);
    assert epochs[..0] == [];
    for i := 0 to |epochs|
      invariant after.threshold == threshold && after.total == total
      invariant before.shares[..total] == s
      invariant after.shares[..total] == RefreshRun(s, threshold, epochs[..i])
    {
      RunIsSmall(secret, threshold, total, epochs[..i]);
      assert forall k :: 0 <= k < total ==> after.shares[k] == after.shares[..total][k];
      after.RefreshProactive(epochs[i]);
      RefreshRunExtends(s, threshold, epochs[..i], epochs[i]);
      assert epochs[..i + 1] == epochs[..i] + [epochs[i]];
    }
    assert epochs[..|epochs|] == epochs;
    RunIsSmall(secret, threshold, total, []);
    RunIsSmall(secret, threshold, total, epochs);
    RefreshVerifyAccepts(secret, threshold, total, [], epochs);
    assert before.shares[..threshold] == before.shares[..total][..threshold];
    assert after.shares[..threshold] == after.shares[..total][..threshold];
    status := RefreshVerify(before, after, threshold);
  }

  lemma NoRefresh(shares: seq<Share>, threshold: nat)
    requires threshold >= 1
    ensures RefreshRun(shares, threshold, []) == shares
  {
  }

  // ---- Arithmetic on shares ----

  /** A missing modulus stands for the default prime. */
  function Modulus(prime: Option<int>): int {
    if prime.Some? then prime.value else PRIME
  }

  function AddShare(a: Share, b: Share, prime: Option<int>): Share
    requires Int64(a.y + b.y) && Modulus(prime) > 0
  {
    Share(a.x, Reduce(a.y + b.y, Modulus(prime)), a.id)
  }

  function MulShare(a: Share, b: Share, prime: Option<int>): Share
    requires Int64(a.y * b.y) && Modulus(prime) > 0
  {
    Share(a.x, Reduce(a.y * b.y, Modulus(prime)), a.id)
  }

  /** Position and identifier of the left operand; the given modulus, or the default prime. */
  lemma ShareArithmetic(a: Share, b: Share, m: int)
    requires m > 0 && Int64(a.y + b.y) && Int64(a.y * b.y)
    ensures AddShare(a, b, Some(m)) == Share(a.x, Mod(a.y + b.y, m), a.id)
    ensures MulShare(a, b, Some(m)) == Share(a.x, Mod(a.y * b.y, m), a.id)
    ensures AddShare(a, b, None) == AddShare(a, b, Some(2147483647))
    ensures MulShare(a, b, None) == MulShare(a, b, Some(2147483647))
  {
  }

  function SumShares(s: seq<Share>, t: seq<Share>): (r: seq<Share>)
    requires |s| == |t|
    requires forall i :: 0 <= i < |s| ==> 0 <= s[i].y < PRIME && 0 <= t[i].y < PRIME
    ensures |r| == |s|
  {
    seq(|s|, i requires 0 <= i < |s| => AddShare(s[i], t[i], None))
  }

  function ProductShares(s: seq<Share>, t: seq<Share>): (r: seq<Share>)
    requires |s| == |t|
    requires forall i :: 0 <= i < |s| ==> 0 <= s[i].y < PRIME && 0 <= t[i].y < PRIME
    ensures |r| == |s|
  {
    seq(|s|, i requires 0 <= i < |s| =>
      ProductRange(s[i].y, t[i].y, PRIME, PRIME); MulShare(s[i], t[i], None))
  }

  lemma SumIsSharing(s: seq<Share>, t: seq<Share>, a: seq<int>, b: seq<int>)
    requires |a| == |b| && |s| == |t| && SharingOf(s, a) && SharingOf(t, b)
    ensures SharingOf(SumShares(s, t), Combine(a, 1, b))
  {
    hide Mod, Eval, Combine;
    forall i | 0 <= i < |s| ensures Cong(SumShares(s, t)[i].y, Eval(Combine(a, 1, b), i + 1), PRIME) {
      EvalCombine(a, 1, b, i + 1);
      CongAdd(s[i].y, Eval(a, i + 1), t[i].y, Eval(b, i + 1), PRIME);
      CongMod(s[i].y + t[i].y, PRIME);
    }
  }

  lemma ProductIsSharing(s: seq<Share>, t: seq<Share>, a: seq<int>, b: seq<int>)
    requires a != [] && b != [] && |s| == |t| && SharingOf(s, a) && SharingOf(t, b)
    ensures SharingOf(ProductShares(s, t), Times(a, b))
  {
    hide Mod, Eval, Times;
    forall i | 0 <= i < |s| ensures Cong(ProductShares(s, t)[i].y, Eval(Times(a, b), i + 1), PRIME) {
      TimesEval(a, b, i + 1);
      CongMul(s[i].y, Eval(a, i + 1), t[i].y, Eval(b, i + 1), PRIME);
      ProductRange(s[i].y, t[i].y, PRIME, PRIME);
      CongMod(s[i].y * t[i].y, PRIME);
    }
  }

  /** Pointwise sums of two sharings of one threshold share the sum of the secrets. */
  lemma SumReconstructs(s: seq<Share>, t: seq<Share>, a: seq<int>, b: seq<int>, indices: seq<nat>)
    requires a != [] && |a| == |b| && |s| == |t| && SharingOf(s, a) && SharingOf(t, b)
    requires Qualified(indices, |s|, |a|)
    ensures ReconstructedFrom(Chosen(SumShares(s, t), indices)[..|a|]) == Mod(a[0] + b[0], PRIME)
  {
    SumIsSharing(s, t, a, b);
    var c := Combine(a, 1, b);
    assert c[0] == a[0] + b[0];
    hide Mod, Combine, SharingOf, ReconstructedFrom, Qualified;
    SharingReconstructs(SumShares(s, t), c, indices);
  }

  /** Pointwise products share the product of the secrets, at threshold t1 + t2 - 1. */
  lemma ProductReconstructs(s: seq<Share>, t: seq<Share>, a: seq<int>, b: seq<int>, indices: seq<nat>)
    requires a != [] && b != [] && |s| == |t| && SharingOf(s, a) && SharingOf(t, b)
    requires Qualified(indices, |s|, |a| + |b| - 1)
    ensures ReconstructedFrom(Chosen(ProductShares(s, t), indices)[..|a| + |b| - 1]) == Mod(a[0] * b[0], PRIME)
  {
    ProductIsSharing(s, t, a, b);
    TimesConstant(a, b);
    hide Mod, Times, SharingOf, ReconstructedFrom;
    SharingReconstructs(ProductShares(s, t), Times(a, b), indices);
  }

  // ---- Lagrange coefficients ----

  /** The product of z - xs[j] over j < n with xs[j] different from the target. */
  function ProductAvoiding(z: int, xs: seq<int>, target: int, n: nat): int
    requires n <= |xs|
  {
    if n == 0 then 1
    else if xs[n - 1] == target then ProductAvoiding(z, xs, target, n - 1)
    else ProductAvoiding(z, xs, target, n - 1) * (z - xs[n - 1])
  }

  predicate Index32(i: int) {
    0 <= i <= 0xFFFF_FFFF
  }

  /** No product that the loop and the last line form leaves 64 bits. */
  ghost predicate NoOverflow(indices: seq<int>, target: int, prime: int)
    requires prime > 0
  {
    && (forall j :: 0 <= j < |indices| && indices[j] != target ==>
          && Int64(Mod(ProductAvoiding(0, indices, target, j), prime) * (-indices[j]))
          && Int64(Mod(ProductAvoiding(target, indices, target, j), prime) * (target - indices[j])))
    && (forall w :: 1 <= w < prime && Cong(ProductAvoiding(target, indices, target, |indices|) * w, 1, prime) ==>
          Int64(Mod(ProductAvoiding(0, indices, target, |indices|), prime) * w))
  }

  /** With a modulus of at most 2^31 nothing overflows, whatever the indices. */
  lemma SmallModulusFits(indices: seq<int>, target: int, prime: int)
    requires 1 <= prime <= 0x8000_0000 && Index32(target)
    requires forall j :: 0 <= j < |indices| ==> Index32(indices[j])
    ensures NoOverflow(indices, target, prime)
  {
    hide ProductAvoiding, Cong;
    forall j | 0 <= j < |indices| && indices[j] != target
      ensures Int64(Mod(ProductAvoiding(0, indices, target, j), prime) * (-indices[j]))
      ensures Int64(Mod(ProductAvoiding(target, indices, target, j), prime) * (target - indices[j]))
    {
      ProductRange(Mod(ProductAvoiding(0, indices, target, j), prime), -indices[j], 0x7FFF_FFFF, 0xFFFF_FFFF);
      ProductRange(Mod(ProductAvoiding(target, indices, target, j), prime), target - indices[j],
                   0x7FFF_FFFF, 0xFFFF_FFFF);
    }
    forall w | 1 <= w < prime ensures Int64(Mod(ProductAvoiding(0, indices, target, |indices|), prime) * w) {
      ProductRange(Mod(ProductAvoiding(0, indices, target, |indices|), prime), w, 0x8000_0000, 0x8000_0000);
    }
  }

  /** A running product: reduced, except that the initial 1 is not. */
  ghost predicate Running(a: int, product: int, p: int)
    requires p > 0
  {
    a == Mod(product, p) || (a == 1 && product == 1)
  }

  /**
   `ts_sss_lagrange_coeff`, for every modulus that keeps the products within 64 bits: None is the
   division by zero of the inverse loop, which a prime modulus excludes.
   */
  method LagrangeCoeff(indices: seq<int>, target: int, prime: int) returns (coeff: Option<int>)
    requires prime >= 1 && Int64(prime) && Index32(target) && NoOverflow(indices, target, prime)
    requires forall j :: 0 <= j < |indices| ==> Index32(indices[j])
    ensures var d := Mod(ProductAvoiding(target, indices, target, |indices|), prime);
            coeff.Some? <==> d <= 1 || Coprime(d, prime)
    ensures var d := ProductAvoiding(target, indices, target, |indices|);
            coeff.Some? && Mod(d, prime) != 0 ==>
              && 0 <= coeff.value < prime
              && Cong(d * coeff.value, ProductAvoiding(0, indices, target, |indices|), prime)
    ensures Mod(ProductAvoiding(target, indices, target, |indices|), prime) == 0 ==>
              coeff == Some(Mod(ProductAvoiding(0, indices, target, |indices|), prime))
  {
    hide Mod, Coprime, ProductAvoiding;
    NothingToAvoid(indices, target);
    var numerator, denominator := 1, 1;
    for j := 0 to |indices|
      invariant Running(numerator, ProductAvoiding(0, indices, target, j), prime)
      invariant Running(denominator, ProductAvoiding(target, indices, target, j), prime)
    {
      AvoidingStep(numerator, 0, indices, target, j, prime);
      AvoidingStep(denominator, target, indices, target, j, prime);
      if indices[j] == target {
        continue;
      }
      numerator := Reduce(numerator * (-indices[j]), prime);
      denominator := Reduce(denominator * (target - indices[j]), prime);
    }
    ghost var n := ProductAvoiding(0, indices, target, |indices|);
    ghost var d := ProductAvoiding(target, indices, target, |indices|);
    RunningEnd(numerator, n, prime);
    RunningEnd(denominator, d, prime);
    var inverse := ModInverse(denominator, prime);
    if inverse.None? {
      return None;
    }
    InverseFits(numerator, denominator, inverse.value, n, d, prime);
    CoefficientCong(numerator, denominator, inverse.value, n, d, prime);
    return Some(Reduce(numerator * inverse.value, prime));
  }

  lemma RunningEnd(a: int, product: int, p: int)
    requires p > 0 && Running(a, product, p)
    ensures Cong(a, product, p) && (p > 1 ==> a == Mod(product, p)) && (a == 1 || 0 <= a < p)
    ensures p == 1 ==> Mod(product, p) == 0 && 0 <= a <= 1
  {
    hide Mod;
    CongMod(product, p);
    if p > 1 {
      CongSmall(1, p);
    }
  }

  lemma InverseFits(num: int, den: int, w: int, n: int, d: int, p: int)
    requires p > 0 && Int64(p) && Running(num, n, p) && Running(den, d, p)
    requires if p == 1 then w == 0 else if den <= 1 then w == 1 else 1 <= w < p && Cong(den * w, 1, p)
    requires forall w :: 1 <= w < p && Cong(d * w, 1, p) ==> Int64(Mod(n, p) * w)
    ensures Int64(num * w)
    ensures p > 1 && den <= 1 ==> Mod(num * w, p) == num
  {
    hide Mod;
    RunningEnd(num, n, p);
    RunningEnd(den, d, p);
    if p > 1 {
      CongSmall(num, p);
      if den > 1 {
        CongMul(d, den, w, w, p);
      }
    }
  }

  /** The division by zero occurs: for the indices 1 and 5 modulo 6 the denominator of 5 is 4. */
  method LagrangeCoeffFails() returns (coeff: Option<int>)
    ensures coeff.None?
  {
    assert ProductAvoiding(5, [1, 5], 5, 1) == ProductAvoiding(5, [1, 5], 5, 0) * 4;
    assert ProductAvoiding(5, [1, 5], 5, 2) == 4;
    FourAndSix();
    SmallModulusFits([1, 5], 5, 6);
    coeff := LagrangeCoeff([1, 5], 5, 6);
  }

  lemma AvoidingStep(a: int, z: int, xs: seq<int>, target: int, j: nat, p: int)
    requires p > 0 && j < |xs| && Abs(z - xs[j]) <= 0xFFFF_FFFF
    requires Running(a, ProductAvoiding(z, xs, target, j), p)
    requires xs[j] != target ==> Int64(Mod(ProductAvoiding(z, xs, target, j), p) * (z - xs[j]))
    ensures xs[j] == target ==> Running(a, ProductAvoiding(z, xs, target, j + 1), p)
    ensures xs[j] != target ==>
              Int64(a * (z - xs[j])) && Running(Mod(a * (z - xs[j]), p), ProductAvoiding(z, xs, target, j + 1), p)
  {
    hide Mod;
    RunningEnd(a, ProductAvoiding(z, xs, target, j), p);
    FactorCong(a, ProductAvoiding(z, xs, target, j), z - xs[j], p);
  }

  lemma NothingToAvoid(xs: seq<int>, target: int)
    ensures ProductAvoiding(0, xs, target, 0) == ProductAvoiding(target, xs, target, 0) == 1
  {
  }

  lemma CoefficientCong(num: int, den: int, w: int, n: int, d: int, p: int)
    requires p > 0 && Cong(num, n, p) && Cong(den, d, p)
    ensures Cong(den * w, 1, p) ==> Cong(d * Mod(num * w, p), n, p)
  {
    hide Mod;
    if Cong(den * w, 1, p) {
      CongMod(num * w, p);
      CongMul(d, den, Mod(num * w, p), num * w, p);
      assert den * (num * w) == num * (den * w);
      CongMul(num, n, den * w, 1, p);
    }
  }

  lemma {:induction false} AvoidingIsSkipping(z: int, xs: seq<int>, i: nat, n: nat)
    requires i < |xs| && n <= |xs| && forall j :: 0 <= j < |xs| && j != i ==> xs[j] != xs[i]
    ensures ProductAvoiding(z, xs, xs[i], n) == ProductSkipping(z, xs, i, n)
  {
    if n != 0 {
      AvoidingIsSkipping(z, xs, i, n - 1);
    }
  }

  /** The combination of values with coefficients, as the signers apply it. */
  function WeightedSum(ys: seq<int>, ks: seq<int>, n: nat): int
    requires n <= |ys| == |ks|
  {
    if n == 0 then 0 else WeightedSum(ys, ks, n - 1) + ys[n - 1] * ks[n - 1]
  }

  /** ks are coefficients for the positions xs, in the sense of LagrangeCoeff's contract. */
  ghost predicate Coefficients(ks: seq<int>, xs: seq<int>, p: int)
    requires p > 0
  {
    && |ks| == |xs|
    && forall i :: 0 <= i < |xs| ==>
         Cong(ProductAvoiding(xs[i], xs, xs[i], |xs|) * ks[i], ProductAvoiding(0, xs, xs[i], |xs|), p)
  }

  lemma CoefficientIsWeight(k: int, d: int, n: int, w: int, p: int)
    requires p > 0 && Cong(d * k, n, p) && Cong(d * w, 1, p)
    ensures Cong(k, n * w, p)
  {
    hide Mod;
    CongMul(d * k, n, w, w, p);
    CongMul(d * w, 1, k, k, p);
    assert d * k * w == (d * w) * k;
  }

  lemma {:induction false} WeightedSumIsLagrange(
      xs: seq<int>, ys: seq<int>, ks: seq<int>, ws: seq<int>, n: nat, p: int)
    requires p > 0 && DistinctMod(xs, p) && |ys| == |xs| && n <= |xs|
    requires Coefficients(ks, xs, p) && Inverts(ws, xs, p)
    ensures Cong(WeightedSum(ys, ks, n), LagrangeSum(0, xs, ys, ws, n), p)
  {
    hide Mod, ProductAvoiding, ProductSkipping;
    if n != 0 {
      var i := n - 1;
      WeightedSumIsLagrange(xs, ys, ks, ws, i, p);
      AvoidingIsSkipping(xs[i], xs, i, |xs|);
      AvoidingIsSkipping(0, xs, i, |xs|);
      var num := ProductSkipping(0, xs, i, |xs|);
      CoefficientIsWeight(ks[i], ProductSkipping(xs[i], xs, i, |xs|), num, ws[i], p);
      CongMul(ys[i], ys[i], ks[i], num * ws[i], p);
      CongAdd(WeightedSum(ys, ks, i), LagrangeSum(0, xs, ys, ws, i), ys[i] * ks[i], ys[i] * (num * ws[i]), p);
    }
  }

  /** Weighting the values of a polynomial with its Lagrange coefficients gives the constant term. */
  lemma CoefficientsRecover(c: seq<int>, xs: seq<int>, ys: seq<int>, ks: seq<int>, p: int)
    requires IsPrime(p) && DistinctMod(xs, p) && c != [] && |c| <= |xs|
    requires OnPolynomial(xs, ys, c, p) && Coefficients(ks, xs, p)
    ensures Cong(WeightedSum(ys, ks, |xs|), c[0], p)
  {
    hide Mod, Eval, LagrangeSum, WeightedSum;
    var ws := Inverses(xs, 1, p);
    InversesInvert(xs, 1, p);
    WeightedSumIsLagrange(xs, ys, ks, ws, |xs|, p);
    LagrangeRecovers(c, xs, ys, ws, 0, p);
    EvalAtZero(c);
  }
}
