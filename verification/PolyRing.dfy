/**
 The polynomial arithmetic of post_quantum.c: multiplication in Z_q[X]/(X^n + 1), the ring
 of section 2.3 of FIPS 203, for any n.  Results are C remainders, so only congruent to the
 ring values until `pq_poly_reduce` picks the representatives in [0, q).
 */
module PolyRing {
  import opened Modular
  import opened Polynomials
  import opened MachineArithmetic

  const Q := 3329

  predicate Int16(a: int) {
    -0x8000 <= a < 0x8000
  }

  predicate Int32(a: int) {
    -0x8000_0000 <= a < 0x8000_0000
  }

  /** `%` on int32 operands; the result also fits int16. */
  function RemQ(a: int): (r: int)
    requires Int32(a)
    ensures -Q < r < Q && Cong(r, a, Q) && Int16(r)
    ensures (a >= 0 ==> r >= 0) && (a <= 0 ==> r <= 0)
  {
    Rem(a, Q)
  }

  // ---- The ring, over the integers ----

  /** X * b modulo X^n + 1. */
  function Shift(b: seq<int>): (r: seq<int>)
    requires b != []
    ensures |r| == |b|
  {
    [-b[|b| - 1]] + b[..|b| - 1]
  }

  /** a * b modulo X^n + 1 for n = |b|, by Horner's rule on a. */
  function Mul(a: seq<int>, b: seq<int>): (r: seq<int>)
    requires b != []
    ensures |r| == |b|
  {
    if a == [] then Zeros(|b|) else Combine(Shift(Mul(a[1..], b)), a[0], b)
  }

  function One(n: nat): (r: seq<int>)
    requires n > 0
    ensures |r| == n
  {
    [1] + Zeros(n - 1)
  }

  lemma ShiftCombine(b: seq<int>, k: int, c: seq<int>)
    requires |b| == |c| > 0
    ensures Shift(Combine(b, k, c)) == Combine(Shift(b), k, Shift(c))
  {
    var l, r := Shift(Combine(b, k, c)), Combine(Shift(b), k, Shift(c));
    forall i | 0 <= i < |b| ensures l[i] == r[i] {
    }
  }

  lemma ShiftZeros(n: nat)
    requires n > 0
    ensures Shift(Zeros(n)) == Zeros(n)
  {
  }

  lemma CombineZeros(n: nat, k: int)
    ensures Combine(Zeros(n), k, Zeros(n)) == Zeros(n)
  {
    forall i | 0 <= i < n ensures Combine(Zeros(n), k, Zeros(n))[i] == 0 {
      assert k * 0 == 0;
    }
  }

  /** (s + a*b) + k*(t + a*c) == (s + k*t) + a*(b + k*c), coefficientwise. */
  lemma CombineExchange(s: seq<int>, t: seq<int>, a: int, b: seq<int>, c: seq<int>, k: int)
    requires |s| == |t| == |b| == |c|
    ensures Combine(Combine(s, a, b), k, Combine(t, a, c)) == Combine(Combine(s, k, t), a, Combine(b, k, c))
  {
    var l, r := Combine(Combine(s, a, b), k, Combine(t, a, c)), Combine(Combine(s, k, t), a, Combine(b, k, c));
    forall i | 0 <= i < |s| ensures l[i] == r[i] {
      Exchange(s[i], t[i], a, b[i], c[i], k);
    }
  }

  lemma Exchange(s: int, t: int, a: int, b: int, c: int, k: int)
    ensures (s + a * b) + k * (t + a * c) == (s + k * t) + a * (b + k * c)
  {
  }

  lemma {:induction false} MulCombine(a: seq<int>, b: seq<int>, k: int, c: seq<int>)
    requires |b| == |c| > 0
    ensures Mul(a, Combine(b, k, c)) == Combine(Mul(a, b), k, Mul(a, c))
  {
    hide Combine, Shift;
    if a == [] {
      CombineZeros(|b|, k);
    } else {
      MulCombine(a[1..], b, k, c);
      var s, t := Mul(a[1..], b), Mul(a[1..], c);
      ShiftCombine(s, k, t);
      CombineExchange(Shift(s), Shift(t), a[0], b, c, k);
    }
  }

  lemma {:induction false} MulShift(a: seq<int>, b: seq<int>)
    requires b != []
    ensures Mul(a, Shift(b)) == Shift(Mul(a, b))
  {
    hide Combine, Shift;
    if a == [] {
      ShiftZeros(|b|);
    } else {
      MulShift(a[1..], b);
      ShiftCombine(Shift(Mul(a[1..], b)), a[0], b);
    }
  }

  lemma {:induction false} MulZeros(a: seq<int>, n: nat)
    requires n > 0
    ensures Mul(a, Zeros(n)) == Zeros(n)
  {
    hide Combine, Shift;
    if a != [] {
      MulZeros(a[1..], n);
      ShiftZeros(n);
      CombineZeros(n, a[0]);
    }
  }

  /** Multiplications by a and by b commute. */
  lemma {:induction false} MulExchange(a: seq<int>, b: seq<int>, c: seq<int>)
    requires c != []
    ensures Mul(a, Mul(b, c)) == Mul(b, Mul(a, c))
  {
    hide Combine, Shift;
    if a == [] {
      MulZeros(b, |c|);
    } else {
      MulExchange(a[1..], b, c);
      MulShift(b, Mul(a[1..], c));
      MulCombine(b, Shift(Mul(a[1..], c)), a[0], c);
    }
  }

  // ---- The convolution formula ----

  function Coefficient(b: seq<int>, k: int): int {
    if 0 <= k < |b| then b[k] else 0
  }

  /** Coefficient k of the plain product of a and b. */
  function Convolution(a: seq<int>, b: seq<int>, k: int): int {
    if a == [] then 0 else a[0] * Coefficient(b, k) + Convolution(a[1..], b, k - 1)
  }

  lemma {:induction false} ConvolutionOutside(a: seq<int>, b: seq<int>, k: int)
    requires k < 0 || k >= |a| + |b| - 1
    ensures b != [] ==> Convolution(a, b, k) == 0
  {
    if a != [] && b != [] {
      ConvolutionOutside(a[1..], b, k - 1);
    }
  }

  lemma {:induction false} ConvolutionSnoc(a: seq<int>, x: int, b: seq<int>, k: int)
    ensures Convolution(a + [x], b, k) == Convolution(a, b, k) + x * Coefficient(b, k - |a|)
  {
    if a == [] {
      assert [x][1..] == [];
    } else {
      assert (a + [x])[1..] == a[1..] + [x];
      ConvolutionSnoc(a[1..], x, b, k - 1);
    }
  }

  /** Multiplication modulo X^n + 1 folds the high half of the plain product onto the low half. */
  lemma {:induction false} MulIsFoldedConvolution(a: seq<int>, b: seq<int>, k: nat)
    requires |a| <= |b| && k < |b|
    ensures Mul(a, b)[k] == Convolution(a, b, k) - Convolution(a, b, k + |b|)
  {
    hide Mul, Convolution;
    var n := |b|;
    if a == [] {
      EmptyProduct(b, k);
    } else {
      var t := a[1..];
      MulUnfold(a, b, k);
      ConvolutionUnfold(a, b, k);
      ConvolutionUnfold(a, b, k + n);
      assert a[0] * 0 == 0;
      if k == 0 {
        MulIsFoldedConvolution(t, b, n - 1);
        ConvolutionOutside(t, b, -1);
        ConvolutionOutside(t, b, 2 * n - 1);
      } else {
        MulIsFoldedConvolution(t, b, k - 1);
      }
    }
  }

  lemma {:induction false} EmptyProduct(b: seq<int>, k: nat)
    requires k < |b|
    ensures Mul([], b)[k] == 0 && Convolution([], b, k) == 0 && Convolution([], b, k + |b|) == 0
  {
  }

  lemma {:induction false} MulUnfold(a: seq<int>, b: seq<int>, k: nat)
    requires a != [] && k < |b|
    ensures var t := Mul(a[1..], b);
            Mul(a, b)[k] == (if k == 0 then -t[|b| - 1] else t[k - 1]) + a[0] * b[k]
  {
    var t := Mul(a[1..], b);
    assert Mul(a, b) == Combine(Shift(t), a[0], b);
    hide Mul;
    CombineAt(Shift(t), a[0], b, k);
  }

  lemma CombineAt(s: seq<int>, a: int, b: seq<int>, k: nat)
    requires |s| == |b| && k < |b|
    ensures Combine(s, a, b)[k] == s[k] + a * b[k]
  {
  }

  lemma {:induction false} ConvolutionUnfold(a: seq<int>, b: seq<int>, k: int)
    requires a != []
    ensures Convolution(a, b, k) == a[0] * Coefficient(b, k) + Convolution(a[1..], b, k - 1)
  {
  }

  lemma {:induction false} ConvolutionWithOne(a: seq<int>, n: nat, k: int)
    requires n > 0
    ensures Convolution(a, One(n), k) == Coefficient(a, k)
  {
    if a != [] {
      ConvolutionWithOne(a[1..], n, k - 1);
      assert a[0] * Coefficient(One(n), k) == if k == 0 then a[0] else 0;
    }
  }

  lemma MulOne(a: seq<int>)
    requires a != []
    ensures Mul(a, One(|a|)) == a
  {
    hide Mul, Convolution, One;
    forall k | 0 <= k < |a| ensures Mul(a, One(|a|))[k] == a[k] {
      MulIsFoldedConvolution(a, One(|a|), k);
      ConvolutionWithOne(a, |a|, k);
      ConvolutionWithOne(a, |a|, k + |a|);
    }
  }

  // ---- Ring laws ----

  lemma MulCommutes(a: seq<int>, b: seq<int>)
    requires |a| == |b| > 0
    ensures Mul(a, b) == Mul(b, a)
  {
    hide Mul, One;
    MulOne(a);
    MulOne(b);
    MulExchange(a, b, One(|a|));
  }

  lemma MulAssociates(a: seq<int>, b: seq<int>, c: seq<int>)
    requires |a| == |b| == |c| > 0
    ensures Mul(Mul(a, b), c) == Mul(a, Mul(b, c))
  {
    hide Mul;
    MulCommutes(Mul(a, b), c);
    MulExchange(c, a, b);
    MulCommutes(c, b);
  }

  /** The defining relation: X to the n-th is -1. */
  lemma {:induction false} ShiftPower(b: seq<int>, i: nat)
    requires i <= |b| && b != []
    ensures Mul(Zeros(i) + [1], b) == seq(|b|, k requires 0 <= k < |b| => if k < i then -b[k + |b| - i] else b[k - i])
  {
    hide Combine;
    var z, n := Zeros(i) + [1], |b|;
    if i == 0 {
      assert z[1..] == [] && Mul([], b) == Zeros(n);
      ShiftZeros(n);
      CombineUnit(b);
    } else {
      assert z[1..] == Zeros(i - 1) + [1];
      ShiftPower(b, i - 1);
      CombineNothing(Shift(Mul(z[1..], b)), b);
    }
  }

  lemma CombineUnit(b: seq<int>)
    ensures Combine(Zeros(|b|), 1, b) == b
  {
  }

  lemma CombineNothing(s: seq<int>, b: seq<int>)
    requires |s| == |b|
    ensures Combine(s, 0, b) == s
  {
    forall i | 0 <= i < |s| ensures Combine(s, 0, b)[i] == s[i] {
      assert 0 * b[i] == 0;
    }
  }

  // ---- Modulo q ----

  ghost predicate SameModQ(a: seq<int>, b: seq<int>) {
    |a| == |b| && forall k :: 0 <= k < |a| ==> Cong(a[k], b[k], Q)
  }

  lemma CombineModQ(a: seq<int>, a': seq<int>, k: int, k': int, b: seq<int>, b': seq<int>)
    requires SameModQ(a, a') && SameModQ(b, b') && |a| == |b| && Cong(k, k', Q)
    ensures SameModQ(Combine(a, k, b), Combine(a', k', b'))
  {
    hide Mod;
    forall i | 0 <= i < |a| ensures Cong(Combine(a, k, b)[i], Combine(a', k', b')[i], Q) {
      CongMul(k, k', b[i], b'[i], Q);
      CongAdd(a[i], a'[i], k * b[i], k' * b'[i], Q);
    }
  }

  lemma ShiftModQ(a: seq<int>, b: seq<int>)
    requires SameModQ(a, b) && a != []
    ensures SameModQ(Shift(a), Shift(b))
  {
    hide Mod;
    var n := |a|;
    forall i | 0 <= i < n ensures Cong(Shift(a)[i], Shift(b)[i], Q) {
      if i == 0 {
        CongSub(0, 0, a[n - 1], b[n - 1], Q);
      } else {
        assert Cong(a[i - 1], b[i - 1], Q);
      }
    }
  }

  /** The product modulo q depends only on the operands modulo q. */
  lemma {:induction false} MulModQ(a: seq<int>, a': seq<int>, b: seq<int>, b': seq<int>)
    requires SameModQ(a, a') && SameModQ(b, b') && b != []
    ensures SameModQ(Mul(a, b), Mul(a', b'))
  {
    hide Mod, Combine, Shift;
    if a != [] {
      MulModQ(a[1..], a'[1..], b, b');
      ShiftModQ(Mul(a[1..], b), Mul(a'[1..], b'));
      CombineModQ(Shift(Mul(a[1..], b)), Shift(Mul(a'[1..], b')), a[0], a'[0], b, b');
    }
  }

  /** The representatives that `pq_poly_reduce` leaves. */
  function Canonical(a: seq<int>): (r: seq<int>)
    ensures |r| == |a| && forall k :: 0 <= k < |r| ==> 0 <= r[k] < Q
  {
    seq(|a|, k requires 0 <= k < |a| => Mod(a[k], Q))
  }

  /** They are the only ones in range, and equal exactly for polynomials equal modulo q. */
  lemma CanonicalIsUnique(a: seq<int>, b: seq<int>)
    ensures SameModQ(a, b) <==> Canonical(a) == Canonical(b)
    ensures SameModQ(a, b) && (forall k :: 0 <= k < |b| ==> 0 <= b[k] < Q) ==> b == Canonical(a)
  {
    if Canonical(a) == Canonical(b) {
      assert |a| == |b|;
      forall k | 0 <= k < |a| ensures Cong(a[k], b[k], Q) {
        assert Canonical(a)[k] == Canonical(b)[k];
      }
    }
  }

  // ---- The operations ----

  predicate Int16s(s: seq<int>) {
    forall k :: 0 <= k < |s| ==> Int16(s[k])
  }

  /** What a call stores: C remainders of the ring value. */
  ghost predicate Stores(r: seq<int>, ringValue: seq<int>) {
    && SameModQ(r, ringValue)
    && forall k :: 0 <= k < |r| ==> -Q < r[k] < Q
  }

  /** The destination may be one of the operands. */
  method Add(r: array<int>, a: array<int>, b: array<int>)
    requires a.Length == b.Length == r.Length && Int16s(a[..]) && Int16s(b[..])
    modifies r
    ensures Stores(r[..], old(Combine(a[..], 1, b[..]))) && Int16s(r[..])
    ensures forall k :: 0 <= k < r.Length ==> r[k] == RemQ(old(a[k]) + old(b[k]))
  {
    ghost var s, t := a[..], b[..];
    for i := 0 to r.Length
      invariant forall k :: i <= k < r.Length ==> a[k] == s[k] && b[k] == t[k]
      invariant forall k :: 0 <= k < i ==> r[k] == RemQ(s[k] + t[k])
    {
      assert a[i] == s[i] && b[i] == t[i];
      r[i] := RemQ(a[i] + b[i]);
    }
  }

  method Sub(r: array<int>, a: array<int>, b: array<int>)
    requires a.Length == b.Length == r.Length && Int16s(a[..]) && Int16s(b[..])
    modifies r
    ensures Stores(r[..], old(Combine(a[..], -1, b[..]))) && Int16s(r[..])
    ensures forall k :: 0 <= k < r.Length ==> r[k] == RemQ(old(a[k]) - old(b[k]) + 3329)
  {
    ghost var s, t := a[..], b[..];
    for i := 0 to r.Length
      invariant forall k :: i <= k < r.Length ==> a[k] == s[k] && b[k] == t[k]
      invariant forall k :: 0 <= k < i ==> r[k] == RemQ(s[k] - t[k] + Q) && Cong(r[k], s[k] - t[k], Q)
    {
      assert a[i] == s[i] && b[i] == t[i];
      r[i] := RemQ(a[i] - b[i] + Q);
    }
  }

  method Reduce(p: array<int>)
    requires Int16s(p[..])
    modifies p
    ensures p[..] == old(Canonical(p[..]))
  {
    ghost var s := p[..];
    for i := 0 to p.Length
      invariant forall k :: i <= k < p.Length ==> p[k] == s[k]
      invariant forall k :: 0 <= k < i ==> p[k] == Mod(s[k], Q)
    {
      assert p[i] == s[i];
      p[i] := RemQ(RemQ(p[i]) + Q);
    }
    assert p[..] == Canonical(s);
  }

  /** What the buffer of `pq_poly_mul` holds at position k: the convolution, a C remainder after every step. */
  function RemConvolution(a: seq<int>, b: seq<int>, k: int): (r: int)
    requires Int16s(a) && Int16s(b)
    ensures -Q < r < Q
  {
    if a == [] then 0
    else
      var i := |a| - 1;
      var before := RemConvolution(a[..i], b, k);
      if 0 <= k - i < |b| then
        EntryFits(before, a[i], b[k - i]);
        RemQ(before + a[i] * b[k - i])
      else before
  }

  lemma EntryFits(t: int, x: int, y: int)
    requires -Q < t < Q && Int16(x) && Int16(y)
    ensures Int32(x * y) && Int32(t + x * y)
  {
    ProductRange(x, y, 0x8000, 0x8000);
  }

  /** It is congruent to the convolution ... */
  lemma {:induction false} RemConvolutionCong(a: seq<int>, b: seq<int>, k: int)
    requires Int16s(a) && Int16s(b)
    ensures Cong(RemConvolution(a, b, k), Convolution(a, b, k), Q)
  {
    hide Mod, RemQ;
    if a != [] {
      hide Convolution;
      var i := |a| - 1;
      var before, x := RemConvolution(a[..i], b, k), a[i] * Coefficient(b, k - i);
      RemConvolutionCong(a[..i], b, k);
      ConvolutionSnoc(a[..i], a[i], b, k);
      assert a == a[..i] + [a[i]];
      CongAdd(before, Convolution(a[..i], b, k), x, x, Q);
      if 0 <= k - i < |b| {
        EntryFits(before, a[i], b[k - i]);
      } else {
        assert a[i] * 0 == 0;
      }
    }
  }

  predicate NonNegatives(s: seq<int>) {
    forall k :: 0 <= k < |s| ==> s[k] >= 0
  }

  /** ... and not negative if no coefficient is. */
  lemma {:induction false} RemConvolutionSign(a: seq<int>, b: seq<int>, k: int)
    requires Int16s(a) && Int16s(b) && NonNegatives(a) && NonNegatives(b)
    ensures RemConvolution(a, b, k) >= 0
  {
    if a != [] {
      var i := |a| - 1;
      RemConvolutionSign(a[..i], b, k);
      if 0 <= k - i < |b| {
        EntryFits(RemConvolution(a[..i], b, k), a[i], b[k - i]);
        NonNegativeProduct(a[i], b[k - i], 0x8000, 0x8000);
      }
    }
  }

  /** tmp holds these values for the first i coefficients of a ... */
  ghost predicate Partial(tmp: seq<int>, a: seq<int>, b: seq<int>, i: nat)
    requires i <= |a| && Int16s(a) && Int16s(b)
  {
    forall k :: 0 <= k < |tmp| ==> tmp[k] == RemConvolution(a[..i], b, k)
  }

  /** ... and within row i, at the positions that the first j coefficients of b reach, one more. */
  ghost predicate PartialRow(tmp: seq<int>, a: seq<int>, b: seq<int>, i: nat, j: nat)
    requires i < |a| && j <= |b| && Int16s(a) && Int16s(b)
  {
    forall k :: 0 <= k < |tmp| ==>
      tmp[k] == if i <= k < i + j then RemConvolution(a[..i + 1], b, k) else RemConvolution(a[..i], b, k)
  }

  lemma {:induction false} RemConvolutionNext(a: seq<int>, b: seq<int>, i: nat, k: int)
    requires i < |a| && Int16s(a) && Int16s(b)
    ensures 0 <= k - i < |b| ==>
              var before := RemConvolution(a[..i], b, k);
              && Int32(a[i] * b[k - i]) && Int32(before + a[i] * b[k - i])
              && RemConvolution(a[..i + 1], b, k) == RemQ(before + a[i] * b[k - i])
    ensures !(0 <= k - i < |b|) ==> RemConvolution(a[..i + 1], b, k) == RemConvolution(a[..i], b, k)
  {
    hide RemQ, Mod;
    assert a[..i + 1][..i] == a[..i];
    if 0 <= k - i < |b| {
      EntryFits(RemConvolution(a[..i], b, k), a[i], b[k - i]);
    }
  }

  lemma RowStep(tmp: seq<int>, a: seq<int>, b: seq<int>, i: nat, j: nat)
    requires Int16s(a) && Int16s(b)
    requires i < |a| && j < |b| && i + j < |tmp| && PartialRow(tmp, a, b, i, j)
    ensures Int32(a[i] * b[j]) && Int32(tmp[i + j] + a[i] * b[j])
    ensures PartialRow(tmp[i + j := RemQ(tmp[i + j] + a[i] * b[j])], a, b, i, j + 1)
  {
    hide RemConvolution;
    RemConvolutionNext(a, b, i, i + j);
  }

  lemma RowDone(tmp: seq<int>, a: seq<int>, b: seq<int>, i: nat)
    requires Int16s(a) && Int16s(b) && i < |a| && PartialRow(tmp, a, b, i, |b|)
    ensures Partial(tmp, a, b, i + 1)
  {
    hide RemConvolution;
    forall k | 0 <= k < |tmp| ensures tmp[k] == RemConvolution(a[..i + 1], b, k) {
      RemConvolutionNext(a, b, i, k);
    }
  }

  lemma RowStart(tmp: seq<int>, a: seq<int>, b: seq<int>, i: nat)
    requires Int16s(a) && Int16s(b) && i < |a| && Partial(tmp, a, b, i)
    ensures PartialRow(tmp, a, b, i, 0)
  {
    hide RemConvolution;
  }

  lemma NothingYet(tmp: seq<int>, a: seq<int>, b: seq<int>)
    requires Int16s(a) && Int16s(b) && forall k :: 0 <= k < |tmp| ==> tmp[k] == 0
    ensures Partial(tmp, a, b, 0)
  {
  }

  lemma Completed(tmp: seq<int>, a: seq<int>, b: seq<int>)
    requires Int16s(a) && Int16s(b) && Partial(tmp, a, b, |a|)
    ensures forall k :: 0 <= k < |tmp| ==> tmp[k] == RemConvolution(a, b, k)
  {
    assert a[..|a|] == a;
  }

  /** What the whole operation stores: the high half folded onto the low half, as C remainders. */
  function StoredProduct(a: seq<int>, b: seq<int>): (r: seq<int>)
    requires |a| == |b| && Int16s(a) && Int16s(b)
    ensures |r| == |a|
  {
    seq(|a|, k requires 0 <= k < |a| =>
      RemQ(RemConvolution(a, b, k) - RemConvolution(a, b, k + |a|) + 3329))
  }

  /** It represents the product in the ring; for coefficients that are not negative, canonically. */
  lemma {:induction false} StoredProductInRing(a: seq<int>, b: seq<int>)
    requires |a| == |b| > 0 && Int16s(a) && Int16s(b)
    ensures Stores(StoredProduct(a, b), Mul(a, b))
    ensures NonNegatives(a) && NonNegatives(b) ==> StoredProduct(a, b) == Canonical(Mul(a, b))
  {
    hide Mod, Mul, RemConvolution, RemQ;
    forall k | 0 <= k < |a|
      ensures var r, m := StoredProduct(a, b)[k], Mul(a, b)[k];
              && Cong(r, m, Q) && -Q < r < Q
              && (NonNegatives(a) && NonNegatives(b) ==> r == Mod(m, Q))
    {
      FoldStored(a, b, k);
    }
  }

  lemma {:induction false} FoldStored(a: seq<int>, b: seq<int>, k: nat)
    requires |a| == |b| && Int16s(a) && Int16s(b) && k < |b|
    ensures var r := RemQ(RemConvolution(a, b, k) - RemConvolution(a, b, k + |b|) + Q);
            && Cong(r, Mul(a, b)[k], Q)
            && (NonNegatives(a) && NonNegatives(b) ==> r == Mod(Mul(a, b)[k], Q))
  {
    hide Mod, Mul, Convolution, RemConvolution, RemQ, Int16s;
    var low, high := RemConvolution(a, b, k), RemConvolution(a, b, k + |b|);
    RemConvolutionCong(a, b, k);
    RemConvolutionCong(a, b, k + |b|);
    MulIsFoldedConvolution(a, b, k);
    FoldCong(low, high, Convolution(a, b, k), Convolution(a, b, k + |b|));
    if NonNegatives(a) && NonNegatives(b) {
      RemConvolutionSign(a, b, k);
    }
  }

  lemma FoldCong(low: int, high: int, x: int, y: int)
    requires Cong(low, x, Q) && Cong(high, y, Q) && -Q < low < Q && -Q < high < Q
    ensures Cong(RemQ(low - high + Q), x - y, Q)
    ensures low >= 0 ==> RemQ(low - high + Q) == Mod(x - y, Q)
  {
    hide Mod, RemQ;
    CongSub(low, x, high, y, Q);
    CongIntro(low - high + Q, low - high, 1, Q);
    if low >= 0 {
      CongSmall(RemQ(low - high + Q), Q);
    }
  }

  /** The same for sums and differences. */
  lemma CanonicalSums(x: int, y: int)
    requires Int16(x) && Int16(y)
    ensures x >= 0 && y >= 0 ==> RemQ(x + y) == Mod(x + y, Q)
    ensures x - y + Q >= 0 ==> RemQ(x - y + Q) == Mod(x - y, Q)
  {
    hide Mod;
    if x >= 0 && y >= 0 {
      CongSmall(RemQ(x + y), Q);
    }
    if x - y + Q >= 0 {
      CongSmall(RemQ(x - y + Q), Q);
      CongIntro(x - y + Q, x - y, 1, Q);
    }
  }

  /** The inner loop of `pq_poly_mul`: row i of the convolution. */
  method AddRow(tmp: array<int>, a: array<int>, b: array<int>, i: nat)
    requires a.Length == b.Length && tmp.Length == 2 * a.Length && i < a.Length && tmp != a && tmp != b
    requires Int16s(a[..]) && Int16s(b[..]) && Partial(tmp[..], a[..], b[..], i)
    modifies tmp
    ensures Partial(tmp[..], a[..], b[..], i + 1)
  {
    hide Mod, Partial, PartialRow;
    ghost var s, t := a[..], b[..];
    RowStart(tmp[..], s, t, i);
    for j := 0 to b.Length
      invariant PartialRow(tmp[..], s, t, i, j) && a[..] == s && b[..] == t
    {
      ghost var u := tmp[..];
      RowStep(u, s, t, i, j);
      assert u[i + j] == tmp[i + j] && s[i] == a[i] && t[j] == b[j];
      tmp[i + j] := RemQ(tmp[i + j] + a[i] * b[j]);
      assert tmp[..] == u[i + j := RemQ(u[i + j] + s[i] * t[j])];
    }
    RowDone(tmp[..], s, t, i);
  }

  /** `pq_poly_mul`: convolution into a double-length buffer, then the fold.  No int32 overflows. */
  method Multiply(r: array<int>, a: array<int>, b: array<int>)
    requires a.Length == b.Length == r.Length > 0 && Int16s(a[..]) && Int16s(b[..])
    modifies r
    ensures r[..] == old(StoredProduct(a[..], b[..])) && Int16s(r[..])
    ensures Stores(r[..], old(Mul(a[..], b[..])))
  {
    hide Mod, Mul, RemConvolution, RemQ, Stores, Partial;
    var n := a.Length;
    ghost var s, t := a[..], b[..];
    StoredProductInRing(s, t);
    var tmp := new int[2 * n](_ => 0);
    NothingYet(tmp[..], s, t);
    for i := 0 to n
      invariant Partial(tmp[..], s, t, i) && a[..] == s && b[..] == t
      modifies tmp
    {
      AddRow(tmp, a, b, i);
    }
    Completed(tmp[..], s, t);
    Fold(r, tmp, s, t);
  }

  /** The last loop of `pq_poly_mul`: the high half of the buffer, subtracted from the low half. */
  method Fold(r: array<int>, tmp: array<int>, ghost s: seq<int>, ghost t: seq<int>)
    requires |s| == |t| == r.Length && tmp.Length == 2 * r.Length && tmp != r && Int16s(s) && Int16s(t)
    requires forall k :: 0 <= k < tmp.Length ==> tmp[k] == RemConvolution(s, t, k)
    modifies r
    ensures r[..] == StoredProduct(s, t) && Int16s(r[..])
  {
    hide RemConvolution, RemQ;
    var n := r.Length;
    for i := 0 to n
      invariant forall k :: 0 <= k < i ==> r[k] == StoredProduct(s, t)[k]
      invariant forall k :: 0 <= k < i ==> Int16(r[k])
    {
      r[i] := RemQ(tmp[i] - tmp[i + n] + Q);
    }
  }

  // ---- The laws, for the stored results ----

  lemma CallsCommute(a: seq<int>, b: seq<int>, ab: seq<int>, ba: seq<int>)
    requires |a| == |b| > 0 && Stores(ab, Mul(a, b)) && Stores(ba, Mul(b, a))
    ensures Canonical(ab) == Canonical(ba)
  {
    hide Mod, Mul, Canonical;
    MulCommutes(a, b);
    CanonicalIsUnique(ab, ba);
  }

  /** Chained calls associate once reduced, whatever representatives the inner calls stored. */
  lemma CallsAssociate(a: seq<int>, b: seq<int>, c: seq<int>,
                       ab: seq<int>, abThenC: seq<int>, bc: seq<int>, aThenBc: seq<int>)
    requires |a| == |b| == |c| > 0
    requires Stores(ab, Mul(a, b)) && Stores(abThenC, Mul(ab, c))
    requires Stores(bc, Mul(b, c)) && Stores(aThenBc, Mul(a, bc))
    ensures Canonical(abThenC) == Canonical(aThenBc)
  {
    hide Mod, Mul, Canonical;
    MulModQ(ab, Mul(a, b), c, c);
    MulModQ(a, a, bc, Mul(b, c));
    MulAssociates(a, b, c);
    CanonicalIsUnique(abThenC, aThenBc);
  }

  lemma CallsDistribute(a: seq<int>, b: seq<int>, c: seq<int>,
                        sum: seq<int>, product: seq<int>, ab: seq<int>, ac: seq<int>, total: seq<int>)
    requires |a| == |b| == |c| > 0
    requires Stores(sum, Combine(b, 1, c)) && Stores(product, Mul(a, sum))
    requires Stores(ab, Mul(a, b)) && Stores(ac, Mul(a, c)) && Stores(total, Combine(ab, 1, ac))
    ensures Canonical(product) == Canonical(total)
  {
    hide Mod, Mul, Canonical, Combine;
    MulModQ(a, a, sum, Combine(b, 1, c));
    MulCombine(a, b, 1, c);
    CombineModQ(ab, Mul(a, b), 1, 1, ac, Mul(a, c));
    CanonicalIsUnique(product, total);
  }
}
