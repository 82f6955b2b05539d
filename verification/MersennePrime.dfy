/**
 2147483647, the modulus written into all three secret-sharing sources, is prime.
 The proof is Pocklington's criterion with the factors 331 and 151 of 2147483646:
 any prime divisor is 1 modulo both, so it exceeds the square root.
 */
module MersennePrime {
  import opened Modular
  import opened Primes

  const PRIME: int := 2147483647

  // ---- Four modular powers, computed by repeated squaring ----

  lemma PowFirst(b: int)
    ensures Cong(Pow(b, 1), b, PRIME)
  {
    assert Pow(b, 1) == b * Pow(b, 0) == b;
  }

  lemma EvenStep(b: int, e: nat, x: int, y: int)
    requires Cong(Pow(b, e), x, PRIME) && y == Mod(x * x, PRIME)
    ensures Cong(Pow(b, 2 * e), y, PRIME)
  {
    hide Mod;
    PowAdd(b, e, e);
    CongMul(Pow(b, e), x, Pow(b, e), x, PRIME);
    CongMod(x * x, PRIME);
  }

  lemma OddStep(b: int, e: nat, x: int, y: int)
    requires Cong(Pow(b, e), x, PRIME) && y == Mod(Mod(x * x, PRIME) * b, PRIME)
    ensures Cong(Pow(b, 2 * e + 1), y, PRIME)
  {
    var z := Mod(x * x, PRIME);
    EvenStep(b, e, x, z);
    hide Mod;
    PowFirst(b);
    PowAdd(b, 2 * e, 1);
    CongMul(Pow(b, 2 * e), z, Pow(b, 1), b, PRIME);
    CongMod(z * b, PRIME);
  }

  lemma PowerFor331()
    ensures Cong(Pow(1143626917, 151), 1761855083, PRIME)
  {
    hide Pow;
    PowFirst(1143626917);
    EvenStep(1143626917, 1, 1143626917, 1408766669);
    EvenStep(1143626917, 2, 1408766669, 329716052);
    OddStep(1143626917, 4, 329716052, 249478271);
    EvenStep(1143626917, 9, 249478271, 1556677587);
    OddStep(1143626917, 18, 1556677587, 1512128418);
    OddStep(1143626917, 37, 1512128418, 2063643943);
    OddStep(1143626917, 75, 2063643943, 1761855083);
  }

  lemma PowerFor151()
    ensures Cong(Pow(1143626917, 331), 535044134, PRIME)
  {
    hide Pow;
    PowFirst(1143626917);
    EvenStep(1143626917, 1, 1143626917, 1408766669);
    OddStep(1143626917, 2, 1408766669, 1730649443);
    EvenStep(1143626917, 5, 1730649443, 1376674263);
    EvenStep(1143626917, 10, 1376674263, 1233326474);
    OddStep(1143626917, 20, 1233326474, 1588016686);
    EvenStep(1143626917, 41, 1588016686, 1232724551);
    OddStep(1143626917, 82, 1232724551, 414479749);
    OddStep(1143626917, 165, 414479749, 535044134);
  }

  lemma PowerBackToOne()
    ensures Cong(Pow(1761855083, 331), 1, PRIME)
  {
    hide Pow;
    PowFirst(1761855083);
    EvenStep(1761855083, 1, 1761855083, 1551098461);
    OddStep(1761855083, 2, 1551098461, 759513457);
    EvenStep(1761855083, 5, 759513457, 564620125);
    EvenStep(1761855083, 10, 564620125, 1127616031);
    OddStep(1761855083, 20, 1127616031, 1589611822);
    EvenStep(1761855083, 41, 1589611822, 111290952);
    OddStep(1761855083, 82, 111290952, 1177465442);
    OddStep(1761855083, 165, 1177465442, 1);
  }

  // ---- Pocklington's criterion ----

  lemma CongToDivisor(a: int, b: int, r: int, n: int)
    requires r > 0 && n > 0 && Divides(r, n) && Cong(a, b, n)
    ensures Cong(a, b, r)
  {
    hide Mod;
    CongDiff(a, b, n);
    var k := DividesElim(n, r);
    var l := DividesElim(a - b, n);
    assert a - b == (l * k) * r;
    DividesIntro(a - b, l * k, r);
    CongDiff(a, b, r);
  }

  /** If c to the prime q is 1 modulo a prime r but c is not, then q divides r - 1. */
  lemma OrderDivides(c: int, q: int, r: int)
    requires IsPrime(q) && IsPrime(r)
    requires Cong(Pow(c, q), 1, r) && !Cong(c, 1, r)
    ensures Divides(q, r - 1)
  {
    hide Mod;
    if !Divides(q, r - 1) {
      var v := Pow(r - 1, q - 2);
      PowPositive(r - 1, q - 2);
      FermatInverse(r - 1, q);
      var w := CongWitness((r - 1) * v, 1, q);
      ExponentIdentity(v, w, q, r);
      UnitFromPower(c, q, r);
      Fermat(c, r);
      PowerOfOne(c, r - 1, v, r);
      PowerOfOne(c, q, w, r);
      PowAdd(c, q * w, 1);
      assert Pow(c, 1) == c * Pow(c, 0) == c;
      CongMul(Pow(c, q * w), 1, c, c, r);
    }
  }

  lemma PowPositive(b: int, e: nat)
    requires b > 0
    ensures Pow(b, e) > 0
  {
  }

  lemma ExponentIdentity(v: int, w: int, q: int, r: int)
    requires q > 1 && r > 1 && v > 0 && (r - 1) * v == 1 + w * q
    ensures w >= 0 && (r - 1) * v >= 0 && q * w >= 0 && (r - 1) * v == q * w + 1
  {
    assert (r - 1) * v >= 1;
    MultipleBound(w, q);
  }

  lemma PowerOfOne(c: int, x: nat, y: nat, r: int)
    requires r > 0 && Cong(Pow(c, x), 1, r)
    ensures x * y >= 0 && Cong(Pow(c, x * y), 1, r)
  {
    hide Mod;
    PowMul(c, x, y);
    PowCong(Pow(c, x), 1, y, r);
    PowOne(y);
  }

  lemma UnitFromPower(c: int, q: nat, r: int)
    requires IsPrime(r) && q > 0 && Cong(Pow(c, q), 1, r)
    ensures !Divides(r, c)
  {
    hide Mod;
    CongSmall(0, r);
    CongSmall(1, r);
    if Divides(r, c) {
      EuclidLemma(c, Pow(c, q - 1), r);
    }
  }

  /** Every prime divisor of PRIME is 1 modulo q, given a certificate (c, u) for q. */
  lemma DivisorCongruence(c: int, u: int, q: int, r: int)
    requires IsPrime(q) && IsPrime(r) && Divides(r, PRIME)
    requires Cong(Pow(c, q), 1, PRIME) && Cong((c - 1) * u, 1, PRIME)
    ensures Divides(q, r - 1)
  {
    hide Mod;
    CongToDivisor(Pow(c, q), 1, r, PRIME);
    CongToDivisor((c - 1) * u, 1, r, PRIME);
    CongSmall(0, r);
    CongSmall(1, r);
    if Cong(c, 1, r) {
      CongSub(c, 1, 1, 1, r);
      CongMul(c - 1, 0, u, u, r);
    }
    OrderDivides(c, q, r);
  }

  lemma NoSmallDivisor(n: int, r: int)
    requires n in {151, 331} && 2 <= r < 19
    ensures !Divides(r, n)
  {
  }

  lemma SmallPrime(n: int)
    requires n in {151, 331}
    ensures IsPrime(n)
  {
    hide Mod, Divides;
    if !IsPrime(n) {
      var r := SmallestDivisor(n);
      if r >= 19 {
        SquareBound(19, r, r);
      } else {
        NoSmallDivisor(n, r);
      }
      assert false;
    }
  }

  lemma BothPowersAreOne()
    ensures Cong(Pow(1761855083, 331), 1, PRIME)
    ensures Cong(Pow(535044134, 151), 1, PRIME)
  {
    hide Mod, Pow;
    PowerBackToOne();
    PowerFor331();
    PowerFor151();
    PowMul(1143626917, 151, 331);
    PowMul(1143626917, 331, 151);
    PowCong(Pow(1143626917, 151), 1761855083, 331, PRIME);
    PowCong(Pow(1143626917, 331), 535044134, 151, PRIME);
  }

  lemma DivisorExceedsRoot(r: int)
    requires IsPrime(r) && Divides(r, PRIME)
    ensures r >= 49982
  {
    hide Pow;
    BothPowersAreOne();
    assert Cong((1761855083 - 1) * 1924809196, 1, PRIME);
    assert Cong((535044134 - 1) * 1648395377, 1, PRIME);
    SmallPrime(331);
    SmallPrime(151);
    DivisorCongruence(1761855083, 1924809196, 331, r);
    DivisorCongruence(535044134, 1648395377, 151, r);
    MultipleOfBoth(r - 1);
  }

  lemma MultipleOfBoth(n: int)
    requires n > 0 && Divides(331, n) && Divides(151, n)
    ensures n >= 49981
  {
  }

  lemma PrimeIsPrime()
    ensures IsPrime(PRIME)
  {
    hide Mod;
    if !IsPrime(PRIME) {
      var r := SmallestDivisor(PRIME);
      DivisorExceedsRoot(r);
      SquareBound(49982, r, r);
      assert false;
    }
  }
}
