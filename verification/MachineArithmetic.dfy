/**
 The arithmetic of the C sources: 64-bit operands, the truncating `%`, and the helper
 loops that every secret-sharing file repeats (modular inverse, polynomial evaluation).
 An operand typed int64_t is required to be `Int64`, so verifying a caller proves that its
 intermediate results do not overflow.
 */
module MachineArithmetic {
  import opened Modular
  import opened Primes
  import opened Polynomials

  type Bytes = seq<bv8>

  datatype Option<+T> = None | Some(value: T)

  predicate Int64(a: int) {
    -0x8000_0000_0000_0000 <= a <= 0x7FFF_FFFF_FFFF_FFFF
  }

  function Abs(a: int): nat {
    if a < 0 then -a else a
  }

  /** C's `%`: the remainder takes the sign of the dividend. */
  function Rem(a: int, m: int): (r: int)
    requires Int64(a) && m > 0
    ensures -m < r < m && Cong(r, a, m)
    ensures (a >= 0 ==> r >= 0) && (a <= 0 ==> r <= 0)
  {
    var r := if a >= 0 then a % m else -((-a) % m);
    RemCong(a, m);
    r
  }

  lemma RemCong(a: int, m: int)
    requires m > 0
    ensures Cong(if a >= 0 then a % m else -((-a) % m), a, m)
  {
    if a >= 0 {
      CongMod(a, m);
    } else {
      CongIntro(-((-a) % m), a, (-a) / m, m);
    }
  }

  /** `mpc_mod`, `ts_mod` and `ca_vss_mod`: the remainder made non-negative. */
  function Reduce(a: int, m: int): (r: int)
    requires Int64(a) && m > 0
    ensures r == Mod(a, m)
  {
    var r := Rem(a, m);
    ReduceIsMod(a, r, m);
    if r < 0 then r + m else r
  }

  lemma ReduceIsMod(a: int, r: int, m: int)
    requires m > 0 && -m < r < m && Cong(r, a, m)
    ensures Mod(a, m) == if r < 0 then r + m else r
  {
    hide Mod;
    if r < 0 {
      CongIntro(r + m, r, 1, m);
      CongSmall(r + m, m);
    } else {
      CongSmall(r, m);
    }
  }

  // ---- The modular inverse ----

  ghost predicate Coprime(a: int, b: int) {
    forall d :: d >= 2 ==> !(Divides(d, a) && Divides(d, b))
  }

  lemma CommonDivisor(d: int, a: int, b: int, q: int, r: int)
    requires d > 0 && a == q * b + r
    ensures Divides(d, a) && Divides(d, b) <==> Divides(d, b) && Divides(d, r)
  {
    hide Mod;
    CongSmall(0, d);
    if Divides(d, b) {
      CongMul(q, q, b, 0, d);
      if Divides(d, a) {
        CongSub(a, 0, q * b, 0, d);
      }
      if Divides(d, r) {
        CongAdd(q * b, 0, r, 0, d);
      }
    }
  }

  lemma CoprimeStep(a: int, b: int, q: int, r: int)
    requires a == q * b + r
    ensures Coprime(a, b) <==> Coprime(b, r)
  {
    hide Mod, Divides;
    forall d | d >= 2
      ensures Divides(d, a) && Divides(d, b) <==> Divides(d, b) && Divides(d, r)
    {
      CommonDivisor(d, a, b, q, r);
    }
  }

  lemma CoprimeOne(m: int)
    ensures Coprime(1, m)
  {
    forall d | d >= 2 ensures !Divides(d, 1) {
      CongSmall(1, d);
    }
  }

  lemma NotCoprimeZero(a: int)
    requires a >= 2
    ensures !Coprime(a, 0)
  {
    CongSmall(0, a);
    DividesIntro(a, 1, a);
  }

  lemma CoprimeToPrime(a: int, p: int)
    requires IsPrime(p) && 1 <= a < p
    ensures Coprime(a, p)
  {
    hide Mod;
    forall d | d >= 2 ensures !(Divides(d, a) && Divides(d, p)) {
      if Divides(d, a) {
        DivisorBound(d, a);
      }
    }
  }

  /** The coefficients of the extended Euclidean loop: opposite signs, and |x|m + |y|a fixed. */
  ghost predicate Balanced(x: int, y: int, a: int, m: int, m0: int) {
    && (x >= 0 >= y || x <= 0 <= y)
    && Abs(x) * m + Abs(y) * a == m0
  }

  lemma BalancedStep(x: int, y: int, a: int, m: int, m0: int, q: int, r: int)
    requires Balanced(x, y, a, m, m0) && a == q * m + r && q >= 0 && r >= 0 && m >= 1
    ensures Balanced(y, x - q * y, m, r, m0)
    ensures Abs(q * y) <= Abs(x - q * y) <= m0
  {
    var u: int, v: int := Abs(x), Abs(y);
    SignStep(x, y, q);
    BalanceIdentity(u, v, q, m, r);
    MulMonotone(r, 0, v);
    MultipleAtLeast(u + q * v, m);
  }

  lemma SignStep(x: int, y: int, q: int)
    requires q >= 0 && (x >= 0 >= y || x <= 0 <= y)
    ensures Abs(q * y) == q * Abs(y) && Abs(x - q * y) == Abs(x) + q * Abs(y)
    ensures y >= 0 >= x - q * y || y <= 0 <= x - q * y
  {
    MulMonotone(q, 0, Abs(y));
    assert y < 0 ==> q * y == -(q * -y);
  }

  lemma BalanceIdentity(u: int, v: int, q: int, m: int, r: int)
    ensures v * r + (u + q * v) * m == u * m + v * (q * m + r)
  {
    assert v * (q * m) == (q * v) * m;
  }

  lemma MultipleAtLeast(k: int, m: int)
    requires k >= 0 && m >= 1
    ensures k * m >= k
  {
  }

  /** x' = y still satisfies 2|x'| <= m0 because it was multiplied by a >= 2. */
  lemma HalfBound(x: int, y: int, a: int, m: int, m0: int)
    requires Balanced(x, y, a, m, m0) && a >= 2 && m >= 0
    ensures 2 * Abs(y) <= m0
  {
    assert Abs(x) * m >= 0;
    assert Abs(y) * a >= Abs(y) * 2;
  }

  lemma BezoutStep(x: int, y: int, q: int, a: int, m: int, r: int, a0: int, m0: int)
    requires m0 > 0 && Cong(x * a0, a, m0) && Cong(y * a0, m, m0) && a == q * m + r
    ensures Cong((x - q * y) * a0, r, m0)
  {
    hide Mod;
    CongMul(q, q, y * a0, m, m0);
    CongSub(x * a0, a, q * (y * a0), q * m, m0);
    assert (x - q * y) * a0 == x * a0 - q * (y * a0);
  }

  /** What the Euclidean loop keeps about its four variables. */
  ghost predicate Euclid(x: int, y: int, a: int, m: int, a0: int, m0: int)
    requires m0 > 0
  {
    && Balanced(x, y, a, m, m0)
    && Cong(x * a0, a, m0) && Cong(y * a0, m, m0)
    && (Coprime(a, m) <==> Coprime(a0, m0))
  }

  lemma EuclidInit(a0: int, m0: int)
    requires m0 > 0
    ensures Euclid(1, 0, a0, m0, a0, m0)
  {
    hide Mod;
    CongSmall(0, m0);
    CongIntro(m0, 0, 1, m0);
  }

  lemma EuclidStep(x: int, y: int, a: int, m: int, q: int, r: int, a0: int, m0: int)
    requires m0 > 0 && a >= 2 && m >= 1 && a == q * m + r && q >= 0 && r >= 0
    requires Euclid(x, y, a, m, a0, m0)
    ensures Euclid(y, x - q * y, m, r, a0, m0)
    ensures Abs(q * y) <= m0 && Abs(x - q * y) <= m0 && 2 * Abs(y) <= m0
  {
    hide Mod, Coprime, Balanced;
    HalfBound(x, y, a, m, m0);
    BalancedStep(x, y, a, m, m0, q, r);
    BezoutStep(x, y, q, a, m, r, a0, m0);
    CoprimeStep(a, m, q, r);
  }

  lemma Quotient(a: int, m: int)
    requires a >= 0 && m >= 1
    ensures a == (a / m) * m + a % m && a / m >= 0
  {
  }

  /**
   `mpc_mod_inv` and `ts_mod_inv`.  `None` is the division by zero that the C code runs into
   exactly when a0 > 1 shares a factor with the modulus; no operand leaves the range of m0.
   */
  method ModInverse(a0: int, m0: int) returns (inv: Option<int>)
    requires Int64(a0) && Int64(m0) && m0 >= 1
    ensures m0 == 1 ==> inv == Some(0)
    ensures m0 > 1 && a0 <= 1 ==> inv == Some(1)
    ensures m0 > 1 && a0 > 1 ==> (inv.Some? <==> Coprime(a0, m0))
    ensures m0 > 1 && a0 > 1 && inv.Some? ==> 1 <= inv.value < m0 && Cong(a0 * inv.value, 1, m0)
  {
    hide Mod, Coprime;
    var a, m, y, x := a0, m0, 0, 1;
    if m0 == 1 {
      return Some(0);
    }
    EuclidInit(a0, m0);
    while a > 1
      invariant m >= 0 && Euclid(x, y, a, m, a0, m0)
      invariant if a0 > 1 then a >= 1 && (a == 1 ==> 2 * Abs(x) <= m0) else a == a0 && x == 1
      decreases m
    {
      if m == 0 {
        NotCoprimeZero(a);
        return None;
      }
      hide Euclid;
      Quotient(a, m);
      EuclidStep(x, y, a, m, a / m, a % m, a0, m0);
      var q := a / m;
      var t := m;
      m := a % m;
      a := t;
      t := y;
      assert Int64(q * y) && Int64(x - q * y);
      y := x - q * y;
      x := t;
    }
    if a0 > 1 {
      CoprimeOne(m);
      InverseRange(x, a0, m0);
    }
    if x < 0 {
      x := x + m0;
    }
    return Some(x);
  }

  lemma FourAndSix()
    ensures !Coprime(4, 6)
  {
    assert Divides(2, 4) && Divides(2, 6);
  }

  /** The division by zero, at an input: 4 and 6 have the factor 2 in common. */
  method ModInverseFails() returns (inv: Option<int>)
    ensures inv.None?
  {
    FourAndSix();
    inv := ModInverse(4, 6);
  }

  lemma InverseRange(x: int, a0: int, m0: int)
    requires m0 > 1 && 2 * Abs(x) <= m0 && Cong(x * a0, 1, m0)
    ensures x != 0
    ensures var r := if x < 0 then x + m0 else x; 1 <= r < m0 && Cong(a0 * r, 1, m0)
  {
    hide Mod;
    CongSmall(0, m0);
    CongSmall(1, m0);
    assert x == 0 ==> x * a0 == 0;
    assert a0 * x == x * a0;
    assert a0 * (x + m0) == x * a0 + a0 * m0;
    CongIntro(a0 * (x + m0), x * a0, a0, m0);
  }

  // ---- Polynomial evaluation ----

  /** `mpc_eval_poly` and `ts_eval_poly`.  Coefficient 0 may be any int64 (it is the secret). */
  method EvalPoly(coeffs: array<int>, degree: nat, x: int, mod: int) returns (y: int)
    requires degree < coeffs.Length && 0 < mod <= 0x8000_0000 && Abs(x) <= 0x8000_0000
    requires Int64(coeffs[0]) && forall i :: 1 <= i <= degree ==> Abs(coeffs[i]) <= 0x8000_0000
    ensures y == Mod(Eval(coeffs[..degree + 1], x), mod)
  {
    hide Mod, Eval;
    var result, xp := 0, 1;
    assert coeffs[..0] == [];
    EvalEmpty(x);
    for i := 0 to degree + 1
      invariant -mod < result < mod && Abs(xp) <= mod && (i == 0 ==> result == 0 && xp == 1)
      invariant Cong(result, Eval(coeffs[..i], x), mod)
      invariant Cong(xp, Pow(x, i), mod)
    {
      if i > 0 {
        ProductRange(coeffs[i], xp, 0x8000_0000, 0x8000_0000);
      }
      ProductRange(xp, x, 0x8000_0000, 0x8000_0000);
      TermCong(result, Eval(coeffs[..i], x), coeffs[i], xp, Pow(x, i), mod);
      CongMul(xp, Pow(x, i), x, x, mod);
      assert Pow(x, i + 1) == x * Pow(x, i);
      EvalSnoc(coeffs[..i], coeffs[i], x);
      assert coeffs[..i + 1] == coeffs[..i] + [coeffs[i]];
      result := Rem(result + coeffs[i] * xp, mod);
      xp := Rem(xp * x, mod);
    }
    y := Reduce(result, mod);
  }

  lemma EvalEmpty(x: int)
    ensures Eval([], x) == 0
  {
  }

  lemma ProductRange(a: int, b: int, n: int, m: int)
    requires Abs(a) <= n && Abs(b) <= m
    ensures Abs(a * b) <= n * m
  {
    var u: int, v: int := Abs(a), Abs(b);
    NonNegativeProduct(u, v, n, m);
    assert a == u || a == -u;
    assert b == v || b == -v;
    assert a * b == u * v || a * b == -(u * v);
  }

  lemma NonNegativeProduct(u: int, v: int, n: int, m: int)
    requires 0 <= u <= n && 0 <= v <= m
    ensures 0 <= u * v <= n * m
  {
    MulMonotone(v, u, n);
    MulMonotone(n, v, m);
  }

  lemma TermCong(r: int, s: int, c: int, x: int, y: int, m: int)
    requires m > 0 && Cong(r, s, m) && Cong(x, y, m)
    ensures Cong(r + c * x, s + c * y, m)
  {
    hide Mod;
    CongMul(c, c, x, y, m);
    CongAdd(r, s, c * x, c * y, m);
  }

  // ---- Square-and-multiply ----

  lemma SquareAndMultiply(r: int, b: int, e: nat, r': int, b': int, m: int)
    requires m > 0 && e > 0 && Cong(b', b * b, m)
    requires Cong(r', if e % 2 == 1 then r * b else r, m)
    ensures Cong(r' * Pow(b', e / 2), r * Pow(b, e), m)
  {
    hide Mod;
    var h := e / 2;
    PowCong(b', b * b, h, m);
    PowBase(b, b, h);
    PowAdd(b, h, h);
    if e % 2 == 1 {
      assert e == 1 + (h + h) && r * (b * Pow(b, h + h)) == (r * b) * Pow(b, h + h);
      CongMul(r', r * b, Pow(b', h), Pow(b, h + h), m);
    } else {
      assert e == h + h;
      CongMul(r', r, Pow(b', h), Pow(b, h + h), m);
    }
  }

  /** The power that the signed loop computes: a negative exponent leaves the initial 1. */
  function PowMod(base: int, exp: int, mod: int): int
    requires mod > 0
  {
    Mod(Pow(base, if exp < 0 then 0 else exp), mod)
  }

  /** `ca_vss_mod_pow`. */
  method ModPow(base: int, exp: int, mod: int) returns (result: int)
    requires Int64(base) && Int64(exp) && 2 <= mod <= 0x8000_0000
    ensures result == PowMod(base, exp, mod) && 0 <= result < mod
  {
    hide Mod, Pow;
    result := 1;
    var b := Reduce(base, mod);
    var e := exp;
    ghost var n: nat := if exp < 0 then 0 else exp;
    CongMod(base, mod);
    PowCong(b, base, n, mod);
    PowZero(b);
    while e > 0
      invariant 0 <= result < mod && 0 <= b < mod && (e < 0 ==> e == exp && result == 1) && e <= exp
      invariant e >= 0 ==> Cong(result * Pow(b, e), Pow(base, n), mod)
    {
      ProductRange(result, b, 0x8000_0000, 0x8000_0000);
      ProductRange(b, b, 0x8000_0000, 0x8000_0000);
      CongMod(result * b, mod);
      CongMod(b * b, mod);
      SquareAndMultiply(result, b, e, if e % 2 == 1 then Mod(result * b, mod) else result, Mod(b * b, mod), mod);
      if e % 2 == 1 {
        result := Reduce(result * b, mod);
      }
      b := Reduce(b * b, mod);
      e := e / 2;
    }
    PowZero(b);
    PowZero(base);
    CongSmall(result, mod);
  }

  lemma PowZero(b: int)
    ensures Pow(b, 0) == 1
  {
  }

  const UINT64: int := 0x1_0000_0000_0000_0000

  predicate Uint64(a: int) {
    0 <= a < UINT64
  }

  /** The unsigned loop of the commitments and the accumulator; its products wrap at 64 bits. */
  function WrappedPow(result: int, base: int, exp: nat, modulus: int): int
    requires exp > 0 ==> modulus > 0
    decreases exp
  {
    if exp == 0 then result
    else WrappedPow(if exp % 2 == 1 then (result * base) % UINT64 % modulus else result,
                    (base * base) % UINT64 % modulus, exp / 2, modulus)
  }

  method PowLoop(base: int, exp: nat, modulus: int) returns (result: int)
    requires Uint64(base) && Uint64(exp) && Uint64(modulus) && (exp > 0 ==> modulus > 0)
    ensures result == WrappedPow(1, base, exp, modulus)
  {
    result := 1;
    var b := base;
    var e: nat := exp;
    while e > 0
      invariant e > 0 ==> modulus > 0
      invariant WrappedPow(1, base, exp, modulus) == WrappedPow(result, b, e, modulus)
    {
      if e % 2 == 1 {
        result := (result * b) % UINT64 % modulus;
      }
      b := (b * b) % UINT64 % modulus;
      e := e / 2;
    }
  }

  const UINT32: int := 0x1_0000_0000

  lemma {:induction false} WrappedPowRound(result: int, base: int, exp: nat, modulus: int)
    requires modulus > 0
    ensures exp == 0 ==> WrappedPow(result, base, exp, modulus) == result
    ensures exp > 0 ==>
              var r := if exp % 2 == 1 then (result * base) % UINT64 % modulus else result;
              var square := (base * base) % UINT64 % modulus;
              WrappedPow(result, base, exp, modulus) == WrappedPow(r, square, exp / 2, modulus)
  {
  }

  /** Beyond 32 bits the products do wrap: 2^32 squared is 0, for every modulus. */
  lemma WrappedPowWraps(modulus: int)
    requires modulus > 0
    ensures WrappedPow(1, 0x1_0000_0000, 2, modulus) == 0
    ensures Mod(Pow(0x1_0000_0000, 2), 3) == 1
  {
    hide WrappedPow;
    WrappedPowRound(1, UINT32, 2, modulus);
    WrappedPowRound(1, 0, 1, modulus);
    WrappedPowRound(0, 0, 0, modulus);
    assert Pow(UINT32, 2) == UINT32 * Pow(UINT32, 1) && Pow(UINT32, 1) == UINT32 * Pow(UINT32, 0);
  }

  lemma SmallProduct(a: int, b: int, m: int)
    requires 0 <= a < UINT32 && 0 <= b < UINT32 && 1 <= m <= UINT32
    ensures (a * b) % UINT64 % m == Mod(a * b, m) && 0 <= Mod(a * b, m) < UINT32
    ensures Cong(Mod(a * b, m), a * b, m)
  {
    NonNegativeProduct(a, b, UINT32 - 1, UINT32 - 1);
    CongMod(a * b, m);
  }

  /** With a modulus and a base of at most 32 bits nothing wraps, and the loop is the power. */
  lemma {:induction false} WrappedPowIsPow(result: int, base: int, exp: nat, modulus: int)
    requires 0 <= result < UINT32 && 0 <= base < UINT32 && 1 <= modulus <= UINT32
    ensures 0 <= WrappedPow(result, base, exp, modulus) < UINT32
    ensures result < modulus ==> WrappedPow(result, base, exp, modulus) < modulus
    ensures Cong(WrappedPow(result, base, exp, modulus), result * Pow(base, exp), modulus)
    decreases exp
  {
    hide Mod;
    if exp == 0 {
      PowZero(base);
    } else {
      SmallProduct(result, base, modulus);
      SmallProduct(base, base, modulus);
      var r := if exp % 2 == 1 then Mod(result * base, modulus) else result;
      var b := Mod(base * base, modulus);
      WrappedPowIsPow(r, b, exp / 2, modulus);
      SquareAndMultiply(result, base, exp, r, b, modulus);
    }
  }
}
