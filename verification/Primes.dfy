/**
 Prime moduli: Euclid's lemma, cancellation and Fermat's little theorem.
 */
module Primes {
  import opened Modular

  ghost predicate IsPrime(p: int) {
    p >= 2 && forall d :: 2 <= d < p ==> !Divides(d, p)
  }

  /** Euclid's lemma for a factor already reduced modulo p. */
  lemma {:induction false} EuclidReduced(a: int, b: int, p: int)
    requires IsPrime(p) && 1 <= a < p
    requires Divides(p, a * b)
    ensures Divides(p, b)
    decreases a
  {
    if a != 1 {
      var r := p % a;
      assert !Divides(a, p);
      var q := p / a;
      assert r * b == b * p - q * (a * b) by {
        assert r == p - q * a;
        assert (p - q * a) * b == p * b - q * a * b;
      }
      CongMul(q, q, a * b, 0, p);
      CongIntro(b * p, 0, b, p);
      CongSub(b * p, 0, q * (a * b), 0, p);
      EuclidReduced(r, b, p);
    }
  }

  lemma EuclidLemma(a: int, b: int, p: int)
    requires IsPrime(p)
    ensures Divides(p, a * b) <==> Divides(p, a) || Divides(p, b)
  {
    CongMul(Mod(a, p), a, b, b, p);
    if Divides(p, a * b) && !Divides(p, a) {
      EuclidReduced(Mod(a, p), b, p);
    }
    if Divides(p, a) {
      CongMul(a, 0, b, b, p);
    }
    if Divides(p, b) {
      CongMul(a, a, b, 0, p);
    }
  }

  /** A factor not divisible by p may be cancelled from a congruence. */
  lemma Cancel(a: int, x: int, y: int, p: int)
    requires IsPrime(p) && !Divides(p, a) && Cong(a * x, a * y, p)
    ensures Cong(x, y, p)
  {
    CongDiff(a * x, a * y, p);
    assert a * x - a * y == a * (x - y);
    EuclidLemma(a, x - y, p);
    CongDiff(x, y, p);
  }

  lemma {:induction false} PowUnit(a: int, e: nat, p: int)
    requires IsPrime(p) && !Divides(p, a)
    ensures !Divides(p, Pow(a, e))
  {
    if e != 0 {
      PowUnit(a, e - 1, p);
      EuclidLemma(a, Pow(a, e - 1), p);
    }
  }

  // ---- Fermat's little theorem, by permuting the residues 1 .. p-1 ----

  ghost function Multiples(a: int, p: int, n: nat): (s: seq<int>)
    requires p > 0
    ensures |s| == n && forall i :: 0 <= i < n ==> s[i] == Mod(a * (i + 1), p)
  {
    seq(n, i => Mod(a * (i + 1), p))
  }

  lemma {:induction false} ProductOfMultiples(a: int, p: int, n: nat)
    requires p > 0
    ensures Cong(Product(Multiples(a, p, n)), Pow(a, n) * Product(Multiples(1, p, n)), p)
  {
    hide Mod;
    if n != 0 {
      ProductOfMultiples(a, p, n - 1);
      var s, u := Multiples(a, p, n - 1), Multiples(1, p, n - 1);
      var r := Mod(n, p);
      assert Multiples(a, p, n) == s + [Mod(a * n, p)];
      assert Multiples(1, p, n) == u + [r] by {
        assert 1 * n == n;
      }
      ProductConcat(s, [Mod(a * n, p)]);
      ProductConcat(u, [r]);
      CongMod(a * n, p);
      CongMod(n, p);
      CongMul(a, a, r, n, p);
      CongMul(Product(s), Pow(a, n - 1) * Product(u), Mod(a * n, p), a * r, p);
      MulSwap(Pow(a, n - 1), Product(u), a, r);
    }
  }

  ghost predicate NoDuplicates<T>(s: seq<T>) {
    forall i, j :: 0 <= i < j < |s| ==> s[i] != s[j]
  }

  lemma {:induction false} DistinctBound(s: seq<int>, n: nat)
    requires NoDuplicates(s) && forall i :: 0 <= i < |s| ==> 1 <= s[i] <= n
    ensures |s| <= n
  {
    if n in s {
      var k :| 0 <= k < |s| && s[k] == n;
      DistinctBound(s[..k] + s[k + 1..], n - 1);
    } else if s != [] {
      assert 1 <= s[0] <= n;
      DistinctBound(s, n - 1);
    }
  }

  /** A repetition-free sequence of n values out of 1 .. n holds each of them. */
  lemma {:induction false} Pigeonhole(s: seq<int>)
    requires NoDuplicates(s)
    requires forall i :: 0 <= i < |s| ==> 1 <= s[i] <= |s|
    ensures forall v :: 1 <= v <= |s| ==> v in s
  {
    var n := |s|;
    if n in s {
      var k :| 0 <= k < n && s[k] == n;
      var t := s[..k] + s[k + 1..];
      Pigeonhole(t);
      forall v | 1 <= v < n ensures v in s {
        assert v in t;
      }
    } else if n != 0 {
      DistinctBound(s, n - 1);
    }
  }

  lemma {:induction false} MultisetOfDistinct<T>(s: seq<T>, v: T)
    requires NoDuplicates(s)
    ensures multiset(s)[v] == if v in s then 1 else 0
  {
    if s != [] {
      MultisetOfDistinct(s[1..], v);
      assert s == [s[0]] + s[1..];
    }
  }

  lemma SameElementsSameMultiset<T>(s: seq<T>, t: seq<T>)
    requires NoDuplicates(s) && NoDuplicates(t)
    requires forall v :: v in s <==> v in t
    ensures multiset(s) == multiset(t)
  {
    forall v ensures multiset(s)[v] == multiset(t)[v] {
      MultisetOfDistinct(s, v);
      MultisetOfDistinct(t, v);
    }
  }

  lemma SmallUnit(n: int, p: int)
    requires IsPrime(p) && 1 <= n < p
    ensures !Divides(p, n)
  {
    CongSmall(n, p);
  }

  lemma MultiplesInRange(a: int, p: int, i: nat)
    requires IsPrime(p) && !Divides(p, a) && i < p - 1
    ensures 1 <= Multiples(a, p, p - 1)[i] <= p - 1
  {
    hide Mod;
    EuclidLemma(a, i + 1, p);
    SmallUnit(i + 1, p);
  }

  lemma MultiplesDistinct(a: int, p: int)
    requires IsPrime(p) && !Divides(p, a)
    ensures NoDuplicates(Multiples(a, p, p - 1))
  {
    hide Mod;
    var s := Multiples(a, p, p - 1);
    forall i, j | 0 <= i < j < p - 1 ensures s[i] != s[j] {
      if s[i] == s[j] {
        Cancel(a, i + 1, j + 1, p);
        CongSmall(i + 1, p);
        CongSmall(j + 1, p);
      }
    }
  }

  lemma MultiplesAreAPermutation(a: int, p: int)
    requires IsPrime(p) && !Divides(p, a)
    ensures multiset(Multiples(a, p, p - 1)) == multiset(Multiples(1, p, p - 1))
  {
    hide Mod;
    var s, u := Multiples(a, p, p - 1), Multiples(1, p, p - 1);
    forall i | 0 <= i < p - 1 ensures 1 <= s[i] <= p - 1 && u[i] == i + 1 {
      MultiplesInRange(a, p, i);
      CongSmall(i + 1, p);
      assert 1 * (i + 1) == i + 1;
    }
    MultiplesDistinct(a, p);
    Pigeonhole(s);
    forall v ensures v in s <==> v in u {
      if 1 <= v <= p - 1 {
        assert u[v - 1] == v;
      }
    }
    SameElementsSameMultiset(s, u);
  }

  lemma {:induction false} ProductOfUnits(s: seq<int>, p: int)
    requires IsPrime(p) && forall i :: 0 <= i < |s| ==> !Divides(p, s[i])
    ensures !Divides(p, Product(s))
  {
    if s != [] {
      ProductOfUnits(s[1..], p);
      EuclidLemma(s[0], Product(s[1..]), p);
    }
  }

  lemma ResiduesAreUnits(p: int)
    requires IsPrime(p)
    ensures !Divides(p, Product(Multiples(1, p, p - 1)))
  {
    hide Mod;
    var u := Multiples(1, p, p - 1);
    forall i | 0 <= i < p - 1 ensures !Divides(p, u[i]) {
      CongSmall(i + 1, p);
      assert 1 * (i + 1) == i + 1;
    }
    ProductOfUnits(u, p);
  }

  /** Fermat's little theorem. */
  lemma Fermat(a: int, p: int)
    requires IsPrime(p) && !Divides(p, a)
    ensures Cong(Pow(a, p - 1), 1, p)
  {
    hide Mod, Product, Pow;
    var s, u := Multiples(a, p, p - 1), Multiples(1, p, p - 1);
    MultiplesAreAPermutation(a, p);
    ProductOfPermutation(s, u);
    ProductOfMultiples(a, p, p - 1);
    ResiduesAreUnits(p);
    assert Pow(a, p - 1) * Product(u) == Product(u) * Pow(a, p - 1);
    Cancel(Product(u), Pow(a, p - 1), 1, p);
  }

  /** Exponents of a unit may be reduced modulo p - 1. */
  lemma PowModOrder(a: int, e: nat, p: int)
    requires IsPrime(p) && !Divides(p, a)
    ensures p - 1 > 0 && Cong(Pow(a, Mod(e, p - 1)), Pow(a, e), p)
  {
    var q, r := e / (p - 1), Mod(e, p - 1);
    assert e == (p - 1) * q + r;
    hide Mod;
    assert q >= 0;
    assert (p - 1) * q >= 0;
    PowAdd(a, (p - 1) * q, r);
    PowMul(a, p - 1, q);
    Fermat(a, p);
    PowCong(Pow(a, p - 1), 1, q, p);
    PowOne(q);
    CongMul(Pow(a, (p - 1) * q), 1, Pow(a, r), Pow(a, r), p);
  }

  /** The inverse of a unit is its (p-2)-nd power, and any inverse is congruent to it. */
  lemma FermatInverse(a: int, p: int)
    requires IsPrime(p) && !Divides(p, a)
    ensures Cong(a * Pow(a, p - 2), 1, p)
  {
    hide Mod;
    Fermat(a, p);
  }

  lemma InverseUnique(a: int, x: int, y: int, p: int)
    requires IsPrime(p) && Cong(a * x, 1, p) && Cong(a * y, 1, p)
    ensures Cong(x, y, p)
  {
    hide Mod;
    CongSmall(0, p);
    CongSmall(1, p);
    EuclidLemma(a, x, p);
    Cancel(a, x, y, p);
  }

  // ---- Prime divisors ----

  lemma DividesIntro(n: int, k: int, d: int)
    requires d > 0 && n == k * d
    ensures Divides(d, n)
  {
    DivModUnique(n, k, 0, d);
  }

  lemma DividesElim(n: int, d: int) returns (k: int)
    requires d > 0 && Divides(d, n)
    ensures n == k * d
  {
    k := n / d;
  }

  lemma DividesTrans(r: int, d: int, n: int)
    requires r > 0 && d > 0 && Divides(r, d) && Divides(d, n)
    ensures Divides(r, n)
  {
    hide Mod;
    var k := DividesElim(n, d);
    var l := DividesElim(d, r);
    assert n == (k * l) * r;
    DividesIntro(n, k * l, r);
  }

  lemma DivisorBound(d: int, n: int)
    requires d > 0 && n > 0 && Divides(d, n)
    ensures d <= n
  {
    hide Mod;
    var k := DividesElim(n, d);
    MultipleBound(k, d);
  }

  /** A number with no prime divisor up to its square root is prime. */
  lemma SmallestDivisor(n: int) returns (r: int)
    requires n >= 2 && !IsPrime(n)
    ensures IsPrime(r) && Divides(r, n) && r * r <= n
  {
    hide Mod;
    var d :| 2 <= d < n && Divides(d, n);
    var e := DividesElim(n, d);
    if d > e {
      MultipleBound(-e, d);
      assert e >= 1;
      assert n == d * e;
      DividesIntro(n, d, e);
      if e == 1 {
        assert false;
      }
      d, e := e, d;
    }
    r := PrimeDivisor(d);
    DividesTrans(r, d, n);
    DivisorBound(r, d);
    SquareBound(r, d, e);
  }

  lemma SquareBound(r: int, d: int, e: int)
    requires 0 <= r <= d <= e
    ensures r * r <= d * e
  {
    MulMonotone(r, r, d);
    MulMonotone(d, r, e);
  }

  lemma {:induction false} PrimeDivisor(d: int) returns (r: int)
    requires d >= 2
    ensures IsPrime(r) && Divides(r, d)
  {
    hide Mod;
    if IsPrime(d) {
      r := d;
      DividesIntro(d, 1, d);
    } else {
      var e :| 2 <= e < d && Divides(e, d);
      r := PrimeDivisor(e);
      DividesTrans(r, e, d);
    }
  }

  // ---- A modulus small enough to compute with ----

  lemma SevenIsPrime()
    ensures IsPrime(7) && !Divides(7, 3) && !Divides(7, 6)
  {
  }

  /** 3 to the power e modulo 7 depends on e modulo 6. */
  lemma PowerOfThree(e: nat)
    ensures Cong(Pow(3, e), Pow(3, e % 6), 7)
  {
    hide Pow;
    SevenIsPrime();
    PowModOrder(3, e, 7);
  }

  lemma SmallPowersOfThree()
    ensures Pow(3, 0) == 1 && Pow(3, 2) == 9 && Pow(3, 3) == 27 && Pow(3, 4) == 81
  {
    assert Pow(3, 1) == 3 * Pow(3, 0) == 3;
  }
}
