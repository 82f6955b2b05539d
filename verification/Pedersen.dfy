/**
 Pedersen commitments (crypto_apps.c): 64-bit wrapping arithmetic, and the homomorphic sum.
 */
module Pedersen {
  import opened Modular
  import opened Primes
  import opened MachineArithmetic

  const ALPHA := 123456789

  /** (g^m mod p) * (h^r mod p) mod p, as the machine computes it. */
  function CommitValue(g: int, h: int, p: int, m: nat, r: nat): int
    requires p > 0
  {
    (WrappedPow(1, g, m, p) * WrappedPow(1, h, r, p)) % UINT64 % p
  }

  class Commitment {
    var g: int
    var h: int
    var p: int
    var commitment: int
    var randomness: nat
    var message: nat

    predicate WordSized()
      reads this
    {
      Uint64(g) && Uint64(h) && Uint64(p) && Uint64(commitment) && Uint64(randomness) && Uint64(message)
    }

    constructor Setup(g: int, p: int)
      requires Uint64(g) && Uint64(p) && p > 0
      ensures this.g == g && this.p == p && h == WrappedPow(1, g, 123456789, p)
      ensures commitment == 0 && randomness == 0 && message == 0
    {
      var power := PowLoop(g, ALPHA, p);
      this.g, this.h, this.p := g, power, p;
      commitment, randomness, message := 0, 0, 0;
    }

    method Commit(msg: nat, rand: nat)
      requires Uint64(g) && Uint64(h) && Uint64(p) && p > 0 && Uint64(msg) && Uint64(rand)
      modifies this
      ensures g == old(g) && h == old(h) && p == old(p)
      ensures commitment == CommitValue(g, h, p, msg, rand) && message == msg && randomness == rand
    {
      var gm := PowLoop(g, msg, p);
      var hr := PowLoop(h, rand, p);
      commitment := (gm * hr) % UINT64 % p;
      message := msg;
      randomness := rand;
    }

    method Verify(msg: nat, rand: nat) returns (status: int)
      requires Uint64(g) && Uint64(h) && Uint64(p) && p > 0 && Uint64(msg) && Uint64(rand)
      ensures status == if commitment == CommitValue(g, h, p, msg, rand) then 0 else -1
    {
      var gm := PowLoop(g, msg, p);
      var hr := PowLoop(h, rand, p);
      var expected := (gm * hr) % UINT64 % p;
      status := if expected == commitment then 0 else -1;
    }

    /** The receiver may be one of the operands. */
    method HomomorphicAdd(a: Commitment, b: Commitment)
      requires a.WordSized() && b.WordSized() && a.p > 0
      modifies this
      ensures g == old(a.g) && h == old(a.h) && p == old(a.p)
      ensures commitment == (old(a.commitment) * old(b.commitment)) % UINT64 % old(a.p)
      ensures message == (old(a.message) + old(b.message)) % UINT64
      ensures randomness == (old(a.randomness) + old(b.randomness)) % UINT64
    {
      g := a.g;
      h := a.h;
      p := a.p;
      commitment := (a.commitment * b.commitment) % UINT64 % a.p;
      message := (a.message + b.message) % UINT64;
      randomness := (a.randomness + b.randomness) % UINT64;
    }
  }

  // ---- What a commitment is, when nothing wraps ----

  /** Parameters of at most 32 bits. */
  predicate Small(g: int, h: int, p: int) {
    0 <= g < UINT32 && 0 <= h < UINT32 && 1 <= p < UINT32
  }

  lemma SetupIsSmall(g: int, p: int)
    requires 0 <= g < UINT32 && 1 <= p < UINT32
    ensures Small(g, WrappedPow(1, g, ALPHA, p), p)
  {
    hide Mod, Pow;
    WrappedPowIsPow(1, g, ALPHA, p);
  }

  /** The value committed to is g^m * h^r modulo p. */
  lemma CommitIsPower(g: int, h: int, p: int, m: nat, r: nat)
    requires Small(g, h, p)
    ensures CommitValue(g, h, p, m, r) == Mod(Pow(g, m) * Pow(h, r), p)
  {
    hide Mod, Pow, WrappedPow;
    WrappedPowIsPow(1, g, m, p);
    WrappedPowIsPow(1, h, r, p);
    var gm, hr := WrappedPow(1, g, m, p), WrappedPow(1, h, r, p);
    SmallProduct(gm, hr, p);
    CongMul(gm, 1 * Pow(g, m), hr, 1 * Pow(h, r), p);
  }

  /** Beyond 32 bits the last product wraps: 2^63 times 2 is 0, not 1, modulo 2^64 - 1. */
  lemma CommitmentWraps()
    ensures CommitValue(0x8000_0000_0000_0000, 2, 0xFFFF_FFFF_FFFF_FFFF, 1, 1) == 0
    ensures (0x8000_0000_0000_0000 * 2) % 0xFFFF_FFFF_FFFF_FFFF == 1
  {
    var p := 0xFFFF_FFFF_FFFF_FFFF;
    OneRound(0x8000_0000_0000_0000, p);
    OneRound(2, p);
  }

  lemma RemainderOfSmall(a: int, m: int)
    requires 0 <= a < m
    ensures a % m == a
  {
  }

  lemma OneRound(b: int, p: int)
    requires 0 <= b < p < UINT64
    ensures WrappedPow(1, b, 1, p) == b
  {
    hide WrappedPow;
    WrappedPowRound(1, b, 1, p);
    RemainderOfSmall(b, UINT64);
    RemainderOfSmall(b, p);
    var square := (b * b) % UINT64 % p;
    assert WrappedPow(1, b, 1, p) == WrappedPow(b, square, 0, p);
    WrappedPowRound(b, square, 0, p);
  }

  lemma PowersCombine(g: int, h: int, m1: nat, m2: nat, r1: nat, r2: nat)
    ensures (Pow(g, m1) * Pow(h, r1)) * (Pow(g, m2) * Pow(h, r2)) == Pow(g, m1 + m2) * Pow(h, r1 + r2)
  {
    hide Pow;
    PowAdd(g, m1, m2);
    PowAdd(h, r1, r2);
    MulSwap(Pow(g, m1), Pow(h, r1), Pow(g, m2), Pow(h, r2));
  }

  /** The product of two commitments is the commitment to the unbounded sums. */
  lemma CommitmentsMultiply(g: int, h: int, p: int, m1: nat, r1: nat, m2: nat, r2: nat)
    requires Small(g, h, p)
    ensures (CommitValue(g, h, p, m1, r1) * CommitValue(g, h, p, m2, r2)) % UINT64 % p
            == CommitValue(g, h, p, m1 + m2, r1 + r2)
  {
    hide Mod, Pow, CommitValue;
    CommitIsPower(g, h, p, m1, r1);
    CommitIsPower(g, h, p, m2, r2);
    CommitIsPower(g, h, p, m1 + m2, r1 + r2);
    var a, b := Pow(g, m1) * Pow(h, r1), Pow(g, m2) * Pow(h, r2);
    CongMod(a, p);
    CongMod(b, p);
    CongMul(Mod(a, p), a, Mod(b, p), b, p);
    SmallProduct(Mod(a, p), Mod(b, p), p);
    PowersCombine(g, h, m1, m2, r1, r2);
  }

  /** The sum of two commitments verifies for what it records. */
  ghost predicate SumVerifies(g: int, h: int, p: int, m1: nat, r1: nat, m2: nat, r2: nat)
    requires p > 0
  {
    (CommitValue(g, h, p, m1, r1) * CommitValue(g, h, p, m2, r2)) % UINT64 % p
    == CommitValue(g, h, p, (m1 + m2) % UINT64, (r1 + r2) % UINT64)
  }

  /**
   The homomorphic sum of two commitments records both sums modulo 2^64.  When neither sum
   overflows it verifies for what it records.
   */
  lemma HomomorphicSumVerifies(g: int, h: int, p: int, m1: nat, r1: nat, m2: nat, r2: nat)
    requires Small(g, h, p) && m1 + m2 < UINT64 && r1 + r2 < UINT64
    ensures SumVerifies(g, h, p, m1, r1, m2, r2)
  {
    hide CommitValue;
    CommitmentsMultiply(g, h, p, m1, r1, m2, r2);
  }

  /** What a sum that overflows loses: g, respectively h, to the power 2^64. */
  function Lost(b: int, sum: nat): int {
    if sum < UINT64 then 1 else Pow(b, UINT64 * (sum / UINT64))
  }

  lemma SplitPower(b: int, sum: nat)
    ensures Pow(b, sum) == Lost(b, sum) * Pow(b, sum % UINT64)
  {
    hide Pow;
    if sum >= UINT64 {
      PowAdd(b, UINT64 * (sum / UINT64), sum % UINT64);
      assert sum == UINT64 * (sum / UINT64) + sum % UINT64;
    }
  }

  /** With overflow, for any modulus: exactly when the lost powers do not change what is kept. */
  lemma OverflowingSumVerifiesIff(g: int, h: int, p: int, m1: nat, r1: nat, m2: nat, r2: nat)
    requires Small(g, h, p)
    ensures var kept := Pow(g, (m1 + m2) % UINT64) * Pow(h, (r1 + r2) % UINT64);
            var lost := Lost(g, m1 + m2) * Lost(h, r1 + r2);
            SumVerifies(g, h, p, m1, r1, m2, r2) <==> Cong(kept * lost, kept, p)
  {
    hide Mod, Pow, CommitValue, Lost;
    var m, r := (m1 + m2) % UINT64, (r1 + r2) % UINT64;
    CommitmentsMultiply(g, h, p, m1, r1, m2, r2);
    CommitIsPower(g, h, p, m1 + m2, r1 + r2);
    CommitIsPower(g, h, p, m, r);
    SplitPower(g, m1 + m2);
    SplitPower(h, r1 + r2);
    var lost, kept := Lost(g, m1 + m2) * Lost(h, r1 + r2), Pow(g, m) * Pow(h, r);
    MulSwap(Lost(g, m1 + m2), Pow(g, m), Lost(h, r1 + r2), Pow(h, r));
    assert Pow(g, m1 + m2) * Pow(h, r1 + r2) == lost * kept == kept * lost;
  }

  /** Modulo a prime, with units: exactly when the lost powers cancel. */
  lemma OverflowModuloPrime(g: int, h: int, p: int, m1: nat, r1: nat, m2: nat, r2: nat)
    requires Small(g, h, p) && IsPrime(p) && !Divides(p, g) && !Divides(p, h)
    ensures SumVerifies(g, h, p, m1, r1, m2, r2) <==> Cong(Lost(g, m1 + m2) * Lost(h, r1 + r2), 1, p)
  {
    hide Mod, Pow, CommitValue, Lost, SumVerifies;
    OverflowingSumVerifiesIff(g, h, p, m1, r1, m2, r2);
    var m, r := (m1 + m2) % UINT64, (r1 + r2) % UINT64;
    var lost, kept := Lost(g, m1 + m2) * Lost(h, r1 + r2), Pow(g, m) * Pow(h, r);
    PowUnit(g, m, p);
    PowUnit(h, r, p);
    EuclidLemma(Pow(g, m), Pow(h, r), p);
    if Cong(kept * lost, kept, p) {
      assert kept * 1 == kept;
      Cancel(kept, lost, 1, p);
    }
    if Cong(lost, 1, p) {
      CongMul(kept, kept, lost, 1, p);
    }
  }

  /** A sum that does not verify: g = 3, p = 7, messages 2^64 - 1 and 1, randomness 0. */
  lemma OverflowingSumRejected()
    ensures var h := WrappedPow(1, 3, ALPHA, 7);
            h == 6 && !SumVerifies(3, h, 7, UINT64 - 1, 0, 1, 0)
  {
    SmallPowersOfThree();
    hide Pow, WrappedPow, SumVerifies;
    var h := WrappedPow(1, 3, ALPHA, 7);
    WrappedPowIsPow(1, 3, ALPHA, 7);
    PowerOfThree(ALPHA);
    CongSmall(h, 7);
    assert h == 6;
    SevenIsPrime();
    PowerOfThree(UINT64);
    OverflowModuloPrime(3, h, 7, UINT64 - 1, 0, 1, 0);
  }

  // ---- Openings of one commitment ----

  /**
   The second generator is the power ALPHA of the first, so an amount moved from the randomness
   to the message, ALPHA times as large, leaves the commitment as it is.
   */
  lemma OpeningsCoincide(g: int, p: int, m: nat, r: nat, k: nat)
    requires 0 <= g < UINT32 && 1 <= p < UINT32
    ensures var h := WrappedPow(1, g, ALPHA, p);
            CommitValue(g, h, p, m + ALPHA * k, r) == CommitValue(g, h, p, m, r + k)
  {
    hide Mod, Pow, WrappedPow, CommitValue;
    var h := WrappedPow(1, g, ALPHA, p);
    SetupIsSmall(g, p);
    WrappedPowIsPow(1, g, ALPHA, p);
    CommitIsPower(g, h, p, m + ALPHA * k, r);
    CommitIsPower(g, h, p, m, r + k);
    PowAdd(g, m, ALPHA * k);
    PowMul(g, ALPHA, k);
    PowAdd(h, r, k);
    PowCong(h, Pow(g, ALPHA), k, p);
    var gm, hr, a, b := Pow(g, m), Pow(h, r), Pow(Pow(g, ALPHA), k), Pow(h, k);
    CongMul(gm * hr, gm * hr, b, a, p);
    MoveFactor(gm, hr, a);
    MoveFactor(gm, hr, b);
  }

  lemma MoveFactor(a: int, b: int, c: int)
    ensures (a * b) * c == (a * c) * b == a * (b * c)
  {
  }

  // ---- Summing up any number of commitments ----

  datatype Opening = Opening(message: nat, randomness: nat)

  function Total(s: seq<Opening>): Opening {
    if s == [] then Opening(0, 0)
    else
      var t := Total(s[..|s| - 1]);
      Opening(t.message + s[|s| - 1].message, t.randomness + s[|s| - 1].randomness)
  }

  /** The commitment field after adding up commitments to the openings, one at a time. */
  function SummedCommitment(g: int, h: int, p: int, s: seq<Opening>): int
    requires p > 0 && s != []
  {
    var o := s[|s| - 1];
    var c := CommitValue(g, h, p, o.message, o.randomness);
    if |s| == 1 then c else (SummedCommitment(g, h, p, s[..|s| - 1]) * c) % UINT64 % p
  }

  /** Any run of homomorphic additions commits to the totals. */
  lemma {:induction false} RunOfSums(g: int, h: int, p: int, s: seq<Opening>)
    requires Small(g, h, p) && s != []
    ensures SummedCommitment(g, h, p, s) == CommitValue(g, h, p, Total(s).message, Total(s).randomness)
  {
    hide CommitValue;
    var o := s[|s| - 1];
    if |s| == 1 {
      assert s[..0] == [] && Total([]) == Opening(0, 0);
    } else {
      var t := Total(s[..|s| - 1]);
      RunOfSums(g, h, p, s[..|s| - 1]);
      CommitmentsMultiply(g, h, p, t.message, t.randomness, o.message, o.randomness);
    }
  }

  // ---- The calls together ----

  /** Two commitments under one setup and their sum: it verifies for the sums, if these fit. */
  method SumRound(g: int, p: int, m1: nat, r1: nat, m2: nat, r2: nat) returns (status: int)
    requires 0 <= g < UINT32 && 1 <= p < UINT32 && m1 + m2 < UINT64 && r1 + r2 < UINT64
    ensures status == 0
  {
    hide CommitValue, WrappedPow, SumVerifies;
    SetupIsSmall(g, p);
    var a := new Commitment.Setup(g, p);
    var b := new Commitment.Setup(g, p);
    CommitInRange(g, a.h, p, m1, r1);
    CommitInRange(g, a.h, p, m2, r2);
    a.Commit(m1, r1);
    b.Commit(m2, r2);
    var sum := new Commitment.Setup(g, p);
    sum.HomomorphicAdd(a, b);
    SumIsCommitment(g, a.h, p, m1, r1, m2, r2);
    status := sum.Verify(m1 + m2, r1 + r2);
  }

  lemma SumIsCommitment(g: int, h: int, p: int, m1: nat, r1: nat, m2: nat, r2: nat)
    requires Small(g, h, p) && m1 + m2 < UINT64 && r1 + r2 < UINT64
    ensures (CommitValue(g, h, p, m1, r1) * CommitValue(g, h, p, m2, r2)) % UINT64 % p
            == CommitValue(g, h, p, m1 + m2, r1 + r2)
    ensures (m1 + m2) % UINT64 == m1 + m2 && (r1 + r2) % UINT64 == r1 + r2
  {
    hide CommitValue;
    CommitmentsMultiply(g, h, p, m1, r1, m2, r2);
  }

  lemma CommitInRange(g: int, h: int, p: int, m: nat, r: nat)
    requires Small(g, h, p)
    ensures 0 <= CommitValue(g, h, p, m, r) < p
  {
  }
}
