/**
 Congruences and powers over the integers.  The programs modelled in this project reduce
 after every multiplication; everything proved about them starts from the facts below.
 `%` is Dafny's (never negative); C's truncating operator is in MachineArithmetic.dfy.
 */
module Modular {

  /** The representative of a in [0, m). */
  function Mod(a: int, m: int): (r: int)
    requires m > 0
    ensures 0 <= r < m
  {
    a % m
  }

  ghost predicate Divides(d: int, n: int)
    requires d > 0
  {
    Mod(n, d) == 0
  }

  ghost predicate Cong(a: int, b: int, m: int)
    requires m > 0
  {
    Mod(a, m) == Mod(b, m)
  }

  lemma MultipleBound(k: int, m: int)
    requires m > 0
    ensures k >= 1 ==> k * m >= m
    ensures k <= -1 ==> k * m <= -m
  {
  }

  lemma MulMonotone(k: int, a: int, b: int)
    requires 0 <= k && a <= b
    ensures k * a <= k * b
  {
    assert k * (b - a) >= 0;
  }

  lemma MulSwap(a: int, b: int, c: int, d: int)
    ensures (a * b) * (c * d) == (a * c) * (b * d)
  {
    assert (a * b) * (c * d) == a * (b * c) * d == a * (c * b) * d;
  }

  lemma MulMoveFront(x: int, a: int, b: int)
    ensures a * (x * b) == x * (a * b)
  {
  }

  lemma DivModUnique(a: int, q: int, r: int, m: int)
    requires m > 0 && 0 <= r < m && a == q * m + r
    ensures a / m == q && Mod(a, m) == r
  {
    var k := q - a / m;
    assert k * m == q * m - (a / m) * m == a % m - r;
    MultipleBound(k, m);
  }

  lemma CongIntro(a: int, b: int, k: int, m: int)
    requires m > 0 && a == b + k * m
    ensures Cong(a, b, m)
  {
    assert a == (b / m + k) * m + b % m;
    DivModUnique(a, b / m + k, b % m, m);
  }

  lemma CongWitness(a: int, b: int, m: int) returns (k: int)
    requires m > 0 && Cong(a, b, m)
    ensures a == b + k * m
  {
    k := a / m - b / m;
    assert a - b == (a / m) * m - (b / m) * m;
  }

  lemma CongMod(a: int, m: int)
    requires m > 0
    ensures Cong(Mod(a, m), a, m)
  {
  }

  lemma CongAdd(a: int, a': int, b: int, b': int, m: int)
    requires m > 0 && Cong(a, a', m) && Cong(b, b', m)
    ensures Cong(a + b, a' + b', m)
  {
    hide Mod;
    var k := CongWitness(a, a', m);
    var l := CongWitness(b, b', m);
    assert a + b == a' + b' + (k + l) * m;
    CongIntro(a + b, a' + b', k + l, m);
  }

  lemma CongSub(a: int, a': int, b: int, b': int, m: int)
    requires m > 0 && Cong(a, a', m) && Cong(b, b', m)
    ensures Cong(a - b, a' - b', m)
  {
    hide Mod;
    var k := CongWitness(a, a', m);
    var l := CongWitness(b, b', m);
    assert a - b == a' - b' + (k - l) * m;
    CongIntro(a - b, a' - b', k - l, m);
  }

  lemma CongMul(a: int, a': int, b: int, b': int, m: int)
    requires m > 0 && Cong(a, a', m) && Cong(b, b', m)
    ensures Cong(a * b, a' * b', m)
  {
    hide Mod;
    var k := CongWitness(a, a', m);
    var l := CongWitness(b, b', m);
    calc {
      a * b;
      (a' + k * m) * (b' + l * m);
      a' * b' + a' * (l * m) + (k * m) * b' + (k * m) * (l * m);
      { assert a' * (l * m) == (a' * l) * m; assert (k * m) * b' == (k * b') * m;
        assert (k * m) * (l * m) == (k * m * l) * m; }
      a' * b' + (a' * l) * m + (k * b') * m + (k * m * l) * m;
      a' * b' + (a' * l + k * b' + k * m * l) * m;
    }
    CongIntro(a * b, a' * b', a' * l + k * b' + k * m * l, m);
  }

  /** Equal residues are the same as a difference that the modulus divides. */
  lemma CongDiff(a: int, b: int, m: int)
    requires m > 0
    ensures Cong(a, b, m) <==> Divides(m, a - b)
  {
    hide Mod;
    CongSmall(0, m);
    if Cong(a, b, m) {
      CongSub(a, b, b, b, m);
    }
    if Divides(m, a - b) {
      CongAdd(a - b, 0, b, b, m);
    }
  }

  lemma CongSmall(a: int, m: int)
    requires m > 0 && 0 <= a < m
    ensures Mod(a, m) == a
  {
  }

  // ---- Powers ----

  function Pow(b: int, e: nat): int {
    if e == 0 then 1 else b * Pow(b, e - 1)
  }

  lemma {:induction false} PowAdd(b: int, x: nat, y: nat)
    ensures Pow(b, x + y) == Pow(b, x) * Pow(b, y)
  {
    if x != 0 {
      PowAdd(b, x - 1, y);
      assert Pow(b, x + y) == b * (Pow(b, x - 1) * Pow(b, y)) == (b * Pow(b, x - 1)) * Pow(b, y);
    }
  }

  lemma {:induction false} PowMul(b: int, x: nat, y: nat)
    ensures x * y >= 0
    ensures Pow(b, x * y) == Pow(Pow(b, x), y)
  {
    if y != 0 {
      PowMul(b, x, y - 1);
      assert x * y == x + x * (y - 1);
      PowAdd(b, x, x * (y - 1));
    } else {
      assert x * y == 0;
    }
  }

  lemma {:induction false} PowBase(a: int, b: int, e: nat)
    ensures Pow(a * b, e) == Pow(a, e) * Pow(b, e)
  {
    if e != 0 {
      PowBase(a, b, e - 1);
      MulSwap(a, b, Pow(a, e - 1), Pow(b, e - 1));
    }
  }

  lemma {:induction false} PowCong(a: int, b: int, e: nat, m: int)
    requires m > 0 && Cong(a, b, m)
    ensures Cong(Pow(a, e), Pow(b, e), m)
  {
    hide Mod;
    if e != 0 {
      PowCong(a, b, e - 1, m);
      CongMul(a, b, Pow(a, e - 1), Pow(b, e - 1), m);
    }
  }

  lemma {:induction false} PowOne(e: nat)
    ensures Pow(1, e) == 1
  {
    if e != 0 {
      PowOne(e - 1);
    }
  }

  // ---- Products of sequences ----

  function Product(s: seq<int>): int {
    if s == [] then 1 else s[0] * Product(s[1..])
  }

  lemma {:induction false} ProductConcat(s: seq<int>, t: seq<int>)
    ensures Product(s + t) == Product(s) * Product(t)
  {
    if s == [] {
      assert s + t == t;
    } else {
      ProductConcat(s[1..], t);
      assert (s + t)[1..] == s[1..] + t;
      assert s[0] * (Product(s[1..]) * Product(t)) == (s[0] * Product(s[1..])) * Product(t);
    }
  }

  lemma ProductCons(x: int, s: seq<int>)
    ensures Product([x] + s) == x * Product(s)
  {
    assert ([x] + s)[1..] == s;
  }

  lemma ProductCut(s: seq<int>, k: nat)
    requires k < |s|
    ensures Product(s) == s[k] * Product(s[..k] + s[k + 1..])
  {
    hide Product;
    var a, b := s[..k], s[k + 1..];
    assert s == a + ([s[k]] + b);
    ProductConcat(a, [s[k]] + b);
    ProductCons(s[k], b);
    ProductConcat(a, b);
    MulMoveFront(s[k], Product(a), Product(b));
  }

  lemma MultisetCut<T>(s: seq<T>, k: nat)
    requires k < |s|
    ensures multiset(s[..k] + s[k + 1..]) == multiset(s) - multiset{s[k]}
  {
    assert s == s[..k] + [s[k]] + s[k + 1..];
  }

  lemma MatchFirst<T>(s: seq<T>, t: seq<T>) returns (k: nat)
    requires s != [] && multiset(s) == multiset(t)
    ensures k < |t| && t[k] == s[0]
    ensures multiset(s[1..]) == multiset(t[..k] + t[k + 1..])
  {
    assert s[0] in t by {
      assert s[0] in multiset(s);
    }
    k :| 0 <= k < |t| && t[k] == s[0];
    MultisetCut(t, k);
    assert multiset(s[1..]) == multiset(s) - multiset{s[0]} by {
      assert s == [s[0]] + s[1..];
    }
  }

  /** A product may be computed in any order. */
  lemma {:induction false} ProductOfPermutation(s: seq<int>, t: seq<int>)
    requires multiset(s) == multiset(t)
    ensures Product(s) == Product(t)
  {
    if s == [] {
      assert |t| == |multiset(t)|;
    } else {
      var k := MatchFirst(s, t);
      ProductOfPermutation(s[1..], t[..k] + t[k + 1..]);
      ProductCut(t, k);
    }
  }
}
