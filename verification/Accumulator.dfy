/**
 The accumulator of crypto_advanced.c.  Witnesses are computed with the exponent reduced
 modulo N - 1; all of them verify exactly when the generator to the power N - 1 is 1 modulo N.
 */
module Accumulator {
  import opened Modular
  import opened Primes
  import opened MachineArithmetic

  const MAX_ELEMENTS := 256
  const GENERATOR := 65537

  predicate AllZero(s: seq<nat>) {
    forall i :: 0 <= i < |s| ==> s[i] == 0
  }

  /** Raising to 0 divides nothing, so without a modulus only zeros can be inserted. */
  predicate Defined(elements: seq<nat>, modulus: int) {
    modulus > 0 || AllZero(elements)
  }

  /** The accumulator after inserting the elements, in order. */
  function Accumulated(elements: seq<nat>, modulus: int): int
    requires Defined(elements, modulus)
  {
    if elements == [] then GENERATOR
    else WrappedPow(1, Accumulated(elements[..|elements| - 1], modulus), elements[|elements| - 1], modulus)
  }

  /** The elements without the first occurrence of e. */
  function RemoveFirst(s: seq<nat>, e: nat): (r: seq<nat>)
    ensures AllZero(s) ==> AllZero(r)
  {
    if s == [] then []
    else
      var t, x := s[..|s| - 1], s[|s| - 1];
      if e in t then RemoveFirst(t, e) + [x] else if x == e then t else s
  }

  /** The exponent of a witness, reduced modulo N - 1 after every factor. */
  function ReducedProduct(s: seq<nat>, modulus: int): int
    requires modulus >= 2
  {
    if s == [] then 1
    else (ReducedProduct(s[..|s| - 1], modulus) * s[|s| - 1]) % UINT64 % (modulus - 1)
  }

  lemma {:induction false} ReducedProductRange(s: seq<nat>, modulus: int)
    requires 2 <= modulus < UINT64
    ensures Uint64(ReducedProduct(s, modulus))
  {
  }

  function WitnessValue(elements: seq<nat>, e: nat, modulus: int): int
    requires 2 <= modulus < UINT64
  {
    var others := RemoveFirst(elements, e);
    ReducedProductRange(others, modulus);
    WrappedPow(1, GENERATOR, ReducedProduct(others, modulus), modulus)
  }

  datatype Witness = Witness(value: int, element: nat, valid: bool)

  lemma {:induction false} AccumulatedRange(elements: seq<nat>, modulus: int)
    requires 0 <= modulus < UINT64 && Defined(elements, modulus)
    ensures Uint64(Accumulated(elements, modulus))
  {
    if elements != [] {
      WrappedPowRange(1, Accumulated(elements[..|elements| - 1], modulus), elements[|elements| - 1], modulus);
    }
  }

  lemma {:induction false} WrappedPowRange(result: int, base: int, exp: nat, modulus: int)
    requires Uint64(result) && 0 <= modulus < UINT64 && (exp > 0 ==> modulus > 0)
    ensures Uint64(WrappedPow(result, base, exp, modulus))
    decreases exp
  {
    if exp != 0 {
      var r := if exp % 2 == 1 then (result * base) % UINT64 % modulus else result;
      WrappedPowRange(r, (base * base) % UINT64 % modulus, exp / 2, modulus);
    }
  }

  predicate Words(s: seq<nat>) {
    forall i :: 0 <= i < |s| ==> Uint64(s[i])
  }

  class Acc {
    var accumulator: int
    var modulus: int
    var generator: int
    var numElements: nat
    const elements: array<nat>

    /** The list of inserted elements, in order. */
    ghost function Inserted(): seq<nat>
      requires numElements <= elements.Length
      reads this, elements
    {
      elements[..numElements]
    }

    ghost predicate Valid()
      reads this, elements
    {
      && numElements <= elements.Length == MAX_ELEMENTS
      && generator == GENERATOR && Uint64(modulus)
      && Words(Inserted()) && Defined(Inserted(), modulus)
      && accumulator == Accumulated(Inserted(), modulus)
    }

    constructor Init(modulus: int)
      requires Uint64(modulus)
      ensures Valid() && Inserted() == [] && this.modulus == modulus && fresh(elements)
    {
      elements := new nat[MAX_ELEMENTS](_ => 0);
      numElements := 0;
      this.modulus := modulus;
      generator := GENERATOR;
      accumulator := GENERATOR;
    }

    method Insert(elem: nat) returns (status: int)
      requires Valid() && Uint64(elem)
      requires numElements < MAX_ELEMENTS && elem > 0 ==> modulus > 0
      modifies this, elements
      ensures Valid() && modulus == old(modulus)
      ensures status == if old(numElements) >= 256 then -1 else 0
      ensures Inserted() == if status == 0 then old(Inserted()) + [elem] else old(Inserted())
    {
      if numElements >= MAX_ELEMENTS {
        return -1;
      }
      ghost var before := Inserted();
      AccumulatedRange(before, modulus);
      accumulator := PowLoop(accumulator, elem, modulus);
      elements[numElements] := elem;
      numElements := numElements + 1;
      assert Inserted() == before + [elem];
      assert (before + [elem])[..|before|] == before;
      return 0;
    }

    /** Recomputes the value without the element; the list itself is not shrunk. */
    method Remove(elem: nat) returns (status: int)
      requires Valid()
      modifies `accumulator
      ensures status == if elem in Inserted() then 0 else -1
      ensures accumulator == Accumulated(RemoveFirst(Inserted(), elem), modulus)
    {
      hide RemoveFirst, Accumulated, WrappedPow;
      AccumulatedEmpty(modulus);
      RemoveFirstEmpty(elem);
      var newAcc := generator;
      var found := false;
      ghost var s := Inserted();
      for i := 0 to numElements
        invariant found == (elem in s[..i]) && s == Inserted()
        invariant newAcc == Accumulated(RemoveFirst(s[..i], elem), modulus)
        modifies {}
      {
        RemoveFirstStep(s, i, elem);
        if elements[i] == elem && !found {
          found := true;
          continue;
        }
        ghost var kept := RemoveFirst(s[..i], elem);
        AccumulatedRange(kept, modulus);
        AccumulatedSnoc(kept, s[i], modulus);
        newAcc := PowLoop(newAcc, elements[i], modulus);
      }
      assert s[..numElements] == s;
      accumulator := newAcc;
      status := if found then 0 else -1;
    }

    method GenWitness(elem: nat) returns (wit: Option<Witness>)
      requires Valid() && modulus >= 2
      ensures wit == if elem in Inserted()
                     then Some(Witness(WitnessValue(Inserted(), elem, modulus), elem, true))
                     else None
    {
      hide RemoveFirst, ReducedProduct, WrappedPow, Accumulated;
      ReducedProductEmpty(modulus);
      RemoveFirstEmpty(elem);
      var product: nat := 1;
      var found := false;
      ghost var s := Inserted();
      for i := 0 to numElements
        invariant found == (elem in s[..i]) && s == Inserted()
        invariant product == ReducedProduct(RemoveFirst(s[..i], elem), modulus)
      {
        RemoveFirstStep(s, i, elem);
        if elements[i] == elem && !found {
          found := true;
          continue;
        }
        ghost var kept := RemoveFirst(s[..i], elem);
        ReducedProductSnoc(kept, s[i], modulus);
        product := (product * elements[i]) % UINT64 % (modulus - 1);
      }
      assert s[..numElements] == s;
      if !found {
        return None;
      }
      ReducedProductRange(RemoveFirst(s, elem), modulus);
      var result := PowLoop(generator, product, modulus);
      return Some(Witness(result, elem, true));
    }

    method VerifyWitness(wit: Witness) returns (status: int)
      requires modulus > 0 && Uint64(modulus) && Uint64(wit.value) && Uint64(wit.element)
      ensures status == 0 || status == -1
      ensures status == 0 <==> wit.valid && WrappedPow(1, wit.value, wit.element, modulus) == accumulator
    {
      if !wit.valid {
        return -1;
      }
      var result := PowLoop(wit.value, wit.element, modulus);
      status := if result == accumulator then 0 else -1;
    }

    method BatchVerify(wits: seq<Witness>) returns (status: int)
      requires modulus > 0 && Uint64(modulus)
      requires forall i :: 0 <= i < |wits| ==> Uint64(wits[i].value) && Uint64(wits[i].element)
      ensures status == 0 || status == -1
      ensures status == 0 <==> forall i :: 0 <= i < |wits| ==> Verifies(wits[i], accumulator, modulus)
    {
      for i := 0 to |wits|
        invariant forall k :: 0 <= k < i ==> Verifies(wits[k], accumulator, modulus)
      {
        var s := VerifyWitness(wits[i]);
        if s != 0 {
          return -1;
        }
      }
      return 0;
    }
  }

  predicate Verifies(wit: Witness, accumulator: int, modulus: int)
    requires modulus > 0
  {
    wit.valid && WrappedPow(1, wit.value, wit.element, modulus) == accumulator
  }

  lemma RemoveFirstEmpty(e: nat)
    ensures RemoveFirst([], e) == []
  {
  }

  /** One more element considered by the loops of Remove and GenWitness. */
  lemma RemoveFirstStep(s: seq<nat>, i: nat, e: nat)
    requires i < |s|
    ensures e in s[..i + 1] <==> e in s[..i] || s[i] == e
    ensures RemoveFirst(s[..i + 1], e)
         == if s[i] == e && e !in s[..i] then RemoveFirst(s[..i], e) else RemoveFirst(s[..i], e) + [s[i]]
  {
    assert s[..i + 1] == s[..i] + [s[i]];
    assert s[..i + 1][..i] == s[..i];
    RemoveFirstAbsent(s[..i], e);
  }

  lemma AccumulatedSnoc(s: seq<nat>, e: nat, modulus: int)
    requires Defined(s, modulus) && (e > 0 ==> modulus > 0)
    ensures Defined(s + [e], modulus)
    ensures Accumulated(s + [e], modulus) == WrappedPow(1, Accumulated(s, modulus), e, modulus)
  {
    assert (s + [e])[..|s|] == s;
  }

  lemma ReducedProductEmpty(modulus: int)
    requires modulus >= 2
    ensures ReducedProduct([], modulus) == 1
  {
  }

  lemma ReducedProductSnoc(s: seq<nat>, e: nat, modulus: int)
    requires modulus >= 2
    ensures ReducedProduct(s + [e], modulus) == (ReducedProduct(s, modulus) * e) % UINT64 % (modulus - 1)
  {
    assert (s + [e])[..|s|] == s;
  }

  lemma {:induction false} RemoveFirstAbsent(s: seq<nat>, e: nat)
    ensures e !in s ==> RemoveFirst(s, e) == s
  {
  }

  /** It is the first occurrence that goes, and the order of the others stays. */
  lemma RemoveFirstAt(s: seq<nat>, e: nat, i: nat)
    requires i < |s| && s[i] == e && e !in s[..i]
    ensures RemoveFirst(s, e) == s[..i] + s[i + 1..]
    decreases |s|
  {
    var t, x := s[..|s| - 1], s[|s| - 1];
    if i < |t| {
      assert t[i] == e && t[..i] == s[..i];
      RemoveFirstAt(t, e, i);
      assert s[i + 1..] == t[i + 1..] + [x];
    } else {
      assert s[..i] == t && s[i + 1..] == [];
    }
  }

  lemma {:induction false} RemoveFirstMultiset(s: seq<nat>, e: nat)
    requires e in s
    ensures multiset(s) == multiset(RemoveFirst(s, e)) + multiset{e}
  {
    var t, x := s[..|s| - 1], s[|s| - 1];
    assert s == t + [x];
    if e in t {
      RemoveFirstMultiset(t, e);
    }
  }

  // ---- The value is a power of the generator ----

  lemma {:induction false} ProductNonNegative(s: seq<nat>)
    ensures Product(s) >= 0
  {
    if s != [] {
      ProductNonNegative(s[1..]);
      MulMonotone(s[0], 0, Product(s[1..]));
    }
  }

  lemma ProductSnoc(s: seq<nat>)
    requires s != []
    ensures Product(s) == Product(s[..|s| - 1]) * s[|s| - 1]
  {
    var t, x := s[..|s| - 1], s[|s| - 1];
    assert s == t + [x];
    ProductConcat(t, [x]);
    ProductCons(x, []);
    assert [x] + [] == [x] && Product([]) == 1;
  }

  /** The generator to the power of the product of a list. */
  function GeneratorPower(s: seq<nat>): int {
    ProductNonNegative(s);
    Pow(GENERATOR, Product(s))
  }

  lemma GeneratorPowerSnoc(s: seq<nat>)
    requires s != []
    ensures GeneratorPower(s) == Pow(GeneratorPower(s[..|s| - 1]), s[|s| - 1])
  {
    hide Pow;
    ProductNonNegative(s[..|s| - 1]);
    ProductSnoc(s);
    PowMul(GENERATOR, Product(s[..|s| - 1]), s[|s| - 1]);
  }

  lemma {:induction false} AccumulatedIsPower(s: seq<nat>, modulus: int)
    requires 2 <= modulus < UINT32
    ensures 0 <= Accumulated(s, modulus) < UINT32 && (s != [] ==> Accumulated(s, modulus) < modulus)
    ensures Cong(Accumulated(s, modulus), GeneratorPower(s), modulus)
  {
    hide Mod, GeneratorPower, Pow;
    if s == [] {
      GeneratorPowerEmpty();
    } else {
      var a, t, x := Accumulated(s[..|s| - 1], modulus), s[..|s| - 1], s[|s| - 1];
      AccumulatedIsPower(t, modulus);
      WrappedPowIsPow(1, a, x, modulus);
      GeneratorPowerSnoc(s);
      PowCong(a, GeneratorPower(t), x, modulus);
      assert 1 * Pow(a, x) == Pow(a, x);
    }
  }

  lemma GeneratorPowerEmpty()
    ensures GeneratorPower([]) == GENERATOR
  {
    assert Pow(GENERATOR, 1) == GENERATOR * Pow(GENERATOR, 0);
  }

  /** Insertion order does not matter. */
  lemma OrderIrrelevant(s: seq<nat>, t: seq<nat>, modulus: int)
    requires 2 <= modulus < UINT32 && multiset(s) == multiset(t)
    ensures Accumulated(s, modulus) == Accumulated(t, modulus)
  {
    hide Mod, Pow, Accumulated;
    assert |s| == |multiset(s)| == |multiset(t)| == |t|;
    if s == [] {
      assert t == [];
    } else {
      AccumulatedIsPower(s, modulus);
      AccumulatedIsPower(t, modulus);
      ProductOfPermutation(s, t);
      CongSmall(Accumulated(s, modulus), modulus);
      CongSmall(Accumulated(t, modulus), modulus);
    }
  }

  // ---- Witnesses ----

  /** The element has 32 bits, or multiplied by a remainder modulo N - 1 it still has 64. */
  predicate Fits(x: nat, modulus: int) {
    x < UINT32 || (x < UINT64 && (modulus - 2) * x < UINT64)
  }

  predicate AllFit(s: seq<nat>, modulus: int) {
    forall i :: 0 <= i < |s| ==> Fits(s[i], modulus)
  }

  lemma SmallElementsFit(s: seq<nat>, modulus: int)
    requires forall i :: 0 <= i < |s| ==> s[i] < UINT32
    ensures AllFit(s, modulus)
  {
  }

  lemma FittingProduct(r: nat, x: nat, modulus: int)
    requires 2 <= modulus < UINT32 && Fits(x, modulus) && (r == 1 || r <= modulus - 2)
    ensures (r * x) % UINT64 == r * x && 0 <= (r * x) % (modulus - 1) <= modulus - 2
    ensures Cong((r * x) % (modulus - 1), r * x, modulus - 1)
  {
    if x < UINT32 {
      NonNegativeProduct(r, x, UINT32 - 1, UINT32 - 1);
    } else if r != 1 {
      MulMonotone(x, r, modulus - 2);
    }
    MulMonotone(x, 0, r);
    CongMod(r * x, modulus - 1);
  }

  lemma {:induction false} ReducedProductCong(s: seq<nat>, modulus: int)
    requires 2 <= modulus < UINT32 && AllFit(s, modulus)
    ensures var r := ReducedProduct(s, modulus); 0 <= r && (r == 1 || r <= modulus - 2)
    ensures Cong(ReducedProduct(s, modulus), Product(s), modulus - 1)
  {
    hide Mod, Fits;
    if s != [] {
      var t, x := s[..|s| - 1], s[|s| - 1];
      var r := ReducedProduct(t, modulus);
      ReducedProductCong(t, modulus);
      ProductSnoc(s);
      FittingProduct(r, x, modulus);
      CongMul(r, Product(t), x, x, modulus - 1);
    }
  }

  /** If the generator has period N - 1 then exponents that agree modulo N - 1 give equal powers. */
  lemma PeriodicPower(a: nat, b: nat, modulus: int)
    requires modulus >= 2 && Cong(Pow(GENERATOR, modulus - 1), 1, modulus) && Cong(a, b, modulus - 1)
    ensures Cong(Pow(GENERATOR, a), Pow(GENERATOR, b), modulus)
  {
    hide Mod, Pow;
    if a < b {
      PeriodStep(b, a, modulus);
    } else {
      PeriodStep(a, b, modulus);
    }
  }

  lemma PeriodStep(a: nat, b: nat, modulus: int)
    requires modulus >= 2 && Cong(Pow(GENERATOR, modulus - 1), 1, modulus) && a >= b && Cong(a, b, modulus - 1)
    ensures Cong(Pow(GENERATOR, a), Pow(GENERATOR, b), modulus)
  {
    hide Mod, Pow;
    var k := CongWitness(a, b, modulus - 1);
    MultipleBound(k, modulus - 1);
    var n := (modulus - 1) * k;
    assert a == n + b && k >= 0;
    PowMul(GENERATOR, modulus - 1, k);
    PowAdd(GENERATOR, n, b);
    PowCong(Pow(GENERATOR, modulus - 1), 1, k, modulus);
    PowOne(k);
    CongMul(Pow(GENERATOR, n), 1, Pow(GENERATOR, b), Pow(GENERATOR, b), modulus);
  }

  /** A witness is accepted against the accumulator it was generated from. */
  ghost predicate WitnessAccepted(elements: seq<nat>, e: nat, modulus: int)
    requires 2 <= modulus < UINT64
  {
    Verifies(Witness(WitnessValue(elements, e, modulus), e, true), Accumulated(elements, modulus), modulus)
  }

  lemma RemoveFirstFits(s: seq<nat>, e: nat, modulus: int)
    requires e in s && AllFit(s, modulus)
    ensures AllFit(RemoveFirst(s, e), modulus)
  {
    hide Fits;
    var r := RemoveFirst(s, e);
    RemoveFirstMultiset(s, e);
    forall i | 0 <= i < |r| ensures Fits(r[i], modulus) {
      assert r[i] in multiset(s);
    }
  }

  lemma WitnessIsPower(s: seq<nat>, e: nat, modulus: int)
    requires 2 <= modulus < UINT32 && e in s && AllFit(s, modulus)
    requires Cong(Pow(GENERATOR, modulus - 1), 1, modulus)
    ensures 0 <= WitnessValue(s, e, modulus) < modulus
    ensures Cong(WitnessValue(s, e, modulus), GeneratorPower(RemoveFirst(s, e)), modulus)
  {
    hide Mod, Pow, WrappedPow, ReducedProduct, RemoveFirst, AllFit;
    var others := RemoveFirst(s, e);
    RemoveFirstFits(s, e, modulus);
    ReducedProductCong(others, modulus);
    ProductNonNegative(others);
    var r := ReducedProduct(others, modulus);
    WrappedPowIsPow(1, GENERATOR, r, modulus);
    PeriodicPower(r, Product(others), modulus);
  }

  lemma PowerWithElement(s: seq<nat>, e: nat)
    requires e in s
    ensures GeneratorPower(s) == Pow(GeneratorPower(RemoveFirst(s, e)), e)
  {
    hide Pow, RemoveFirst;
    var others := RemoveFirst(s, e);
    RemoveFirstMultiset(s, e);
    assert multiset(others + [e]) == multiset(s);
    ProductOfPermutation(s, others + [e]);
    assert (others + [e])[..|others|] == others;
    GeneratorPowerSnoc(others + [e]);
  }

  lemma AcceptedUnderPeriod(s: seq<nat>, e: nat, modulus: int)
    requires 2 <= modulus < UINT32 && e in s && AllFit(s, modulus)
    requires Cong(Pow(GENERATOR, modulus - 1), 1, modulus)
    ensures WitnessAccepted(s, e, modulus)
  {
    hide Mod, Pow, WrappedPow, Accumulated, WitnessValue, GeneratorPower, RemoveFirst;
    var w := WitnessValue(s, e, modulus);
    WitnessIsPower(s, e, modulus);
    WrappedPowIsPow(1, w, e, modulus);
    AccumulatedIsPower(s, modulus);
    PowerWithElement(s, e);
    PowCong(w, GeneratorPower(RemoveFirst(s, e)), e, modulus);
    assert 1 * Pow(w, e) == Pow(w, e);
    CongSmall(WrappedPow(1, w, e, modulus), modulus);
    CongSmall(Accumulated(s, modulus), modulus);
  }

  /**
   For a prime modulus above the generator, whatever was inserted: every generated witness
   verifies, although its exponent was reduced modulo N - 1.
   */
  lemma WitnessesVerify(s: seq<nat>, e: nat, modulus: int)
    requires IsPrime(modulus) && GENERATOR < modulus < UINT32 && e in s && AllFit(s, modulus)
    ensures WitnessAccepted(s, e, modulus)
  {
    hide Mod, Pow, WitnessAccepted;
    CongSmall(GENERATOR, modulus);
    Fermat(GENERATOR, modulus);
    AcceptedUnderPeriod(s, e, modulus);
  }

  /** Without an assumption on the modulus: the exact condition on it for all witnesses to verify. */
  lemma WitnessesVerifyIff(modulus: int)
    requires 2 <= modulus < UINT32
    ensures (forall s: seq<nat>, e: nat :: e in s && AllFit(s, modulus) && |s| <= MAX_ELEMENTS
               ==> WitnessAccepted(s, e, modulus))
       <==> Cong(Pow(GENERATOR, modulus - 1), 1, modulus)
  {
    hide Mod, Pow, WitnessAccepted, AllFit;
    if Cong(Pow(GENERATOR, modulus - 1), 1, modulus) {
      forall s: seq<nat>, e: nat | e in s && AllFit(s, modulus) ensures WitnessAccepted(s, e, modulus) {
        AcceptedUnderPeriod(s, e, modulus);
      }
    } else {
      PeriodIsNecessary(modulus);
      var s: seq<nat>, e: nat := [modulus - 1, 1], 1;
      assert e == s[1];
      SmallElementsFit(s, modulus);
      assert e in s && AllFit(s, modulus) && |s| <= MAX_ELEMENTS && !WitnessAccepted(s, e, modulus);
    }
  }

  /** With the elements N - 1 and 1, the witness of 1 has the exponent 0. */
  lemma WitnessOfOne(n: nat, modulus: int)
    requires 2 <= modulus < UINT32 && n == modulus - 1
    ensures RemoveFirst([n, 1], 1) == [n] && WitnessValue([n, 1], 1, modulus) == 1
  {
    hide Mod, Pow, WrappedPow;
    var s: seq<nat> := [n, 1];
    if n == 1 {
      assert s == [1, 1] && s[..1] == [1] && [1][..0] == [];
    } else {
      assert s[..1] == [n];
    }
    assert RemoveFirst(s, 1) == [n];
    hide ReducedProduct;
    ZeroExponent(n, modulus);
    WrappedPowIsPow(1, GENERATOR, 0, modulus);
    PowZero(GENERATOR);
    CongSmall(WitnessValue(s, 1, modulus), modulus);
    CongSmall(1, modulus);
  }

  lemma PeriodIsNecessary(modulus: int)
    requires 2 <= modulus < UINT32 && !Cong(Pow(GENERATOR, modulus - 1), 1, modulus)
    ensures !WitnessAccepted([modulus - 1, 1], 1, modulus)
  {
    hide Mod, Pow, WrappedPow, Accumulated, GeneratorPower, WitnessValue;
    var n: nat := modulus - 1;
    WitnessOfOne(n, modulus);
    WrappedPowIsPow(1, 1, 1, modulus);
    PowOne(1);
    CongSmall(1, modulus);
    CongSmall(WrappedPow(1, 1, 1, modulus), modulus);
    AccumulatedIsPower([n, 1], modulus);
    PairPower(n);
  }

  lemma ZeroExponent(n: nat, modulus: int)
    requires 2 <= modulus < UINT32 && n == modulus - 1
    ensures ReducedProduct([n], modulus) == 0
  {
    hide ReducedProduct;
    ReducedProductEmpty(modulus);
    ReducedProductSnoc([], n, modulus);
    assert [] + [n] == [n];
  }

  lemma PairPower(n: nat)
    ensures GeneratorPower([n, 1]) == Pow(GENERATOR, n)
  {
    hide Pow;
    assert [n, 1][1..] == [1] && [1][1..] == [];
    assert Product([1]) == 1 * Product([]) == 1;
    assert Product([n, 1]) == n * Product([1]) == n;
  }

  /** A composite modulus, as RSA accumulators have, can reject an honest witness. */
  lemma CompositeModulusRejects()
    ensures !Cong(Pow(GENERATOR, 14), 1, 15) && !WitnessAccepted([14, 1], 1, 15)
  {
    assert Cong(GENERATOR, 2, 15);
    PowCong(GENERATOR, 2, 14, 15);
    assert Pow(2, 14) == 16384;
    hide Pow, WitnessAccepted;
    PeriodIsNecessary(15);
  }

  /** The value after removing e, the accumulator of the others, is also the witness of e. */
  ghost predicate RemovedIsWitness(s: seq<nat>, e: nat, modulus: int)
    requires 2 <= modulus < UINT64
  {
    Accumulated(RemoveFirst(s, e), modulus) == WitnessValue(s, e, modulus)
  }

  lemma RemovalUnderPeriod(s: seq<nat>, e: nat, modulus: int)
    requires GENERATOR < modulus < UINT32 && e in s && AllFit(s, modulus)
    requires Cong(Pow(GENERATOR, modulus - 1), 1, modulus)
    ensures RemovedIsWitness(s, e, modulus)
  {
    hide Mod, Pow, Accumulated, WitnessValue, GeneratorPower, RemoveFirst;
    WitnessIsPower(s, e, modulus);
    var others := RemoveFirst(s, e);
    AccumulatedIsPower(others, modulus);
    if others == [] {
      AccumulatedEmpty(modulus);
    }
    CongSmall(WitnessValue(s, e, modulus), modulus);
    CongSmall(Accumulated(others, modulus), modulus);
  }

  lemma RemovalIsWitness(s: seq<nat>, e: nat, modulus: int)
    requires IsPrime(modulus) && GENERATOR < modulus < UINT32 && e in s && AllFit(s, modulus)
    ensures RemovedIsWitness(s, e, modulus)
  {
    hide Mod, Pow, RemovedIsWitness;
    CongSmall(GENERATOR, modulus);
    Fermat(GENERATOR, modulus);
    RemovalUnderPeriod(s, e, modulus);
  }

  lemma LargeList()
    ensures var s: seq<nat> := [5, 0x8000_0000_0000_0000, 1];
            && RemoveFirst(s, 1) == s[..2] && ReducedProduct(s[..2], 7) == 2
            && Product(s) == 5 * 0x8000_0000_0000_0000
  {
    var s: seq<nat> := [5, 0x8000_0000_0000_0000, 1];
    assert s[..2] == [5, 0x8000_0000_0000_0000] && s[..2][..1] == [5] && [5][..0] == [];
    assert s[1..] == [0x8000_0000_0000_0000, 1] && s[1..][1..] == [1] && [1][1..] == [];
    assert Product([1]) == 1;
    assert ReducedProduct([5], 7) == 5;
  }

  lemma ModuloSeven(e: nat)
    ensures Cong(Pow(GENERATOR, e), Pow(3, e % 6), 7)
  {
    hide Pow;
    PowerOfThree(e);
    PowCong(GENERATOR, 3, e, 7);
  }

  /**
   The bound on the elements matters: modulo the prime 7, with the elements 5, 2^63 and 1, the
   exponent of the witness of 1 wraps and the witness is rejected.
   */
  lemma LargeElementRejected()
    ensures Cong(Pow(GENERATOR, 6), 1, 7) && !Fits(0x8000_0000_0000_0000, 7)
    ensures !WitnessAccepted([5, 0x8000_0000_0000_0000, 1], 1, 7)
  {
    SmallPowersOfThree();
    hide Pow, WrappedPow, Accumulated, RemoveFirst, ReducedProduct, Product;
    var s: seq<nat> := [5, 0x8000_0000_0000_0000, 1];
    ModuloSeven(6);
    LargeList();
    WrappedPowIsPow(1, GENERATOR, 2, 7);
    ModuloSeven(2);
    var w := WitnessValue(s, 1, 7);
    assert w == 2;
    WrappedPowIsPow(1, 2, 1, 7);
    PowOfTwoOnce();
    AccumulatedIsPower(s, 7);
    ModuloSeven(5 * 0x8000_0000_0000_0000);
  }

  lemma PowOfTwoOnce()
    ensures Pow(2, 1) == 2
  {
    assert Pow(2, 1) == 2 * Pow(2, 0);
  }

  /** Again the exact condition on the modulus: the initial value must also be reduced. */
  lemma RemovalIsWitnessIff(modulus: int)
    requires 2 <= modulus < UINT32
    ensures (forall s: seq<nat>, e: nat :: e in s && AllFit(s, modulus) && |s| <= MAX_ELEMENTS
               ==> RemovedIsWitness(s, e, modulus))
       <==> GENERATOR < modulus && Cong(Pow(GENERATOR, modulus - 1), 1, modulus)
  {
    hide Mod, Pow, RemovedIsWitness, AllFit;
    if GENERATOR >= modulus {
      var s: seq<nat>, e: nat := [1], 1;
      LoneElementDiffers(modulus);
      assert e == s[0];
      SmallElementsFit(s, modulus);
      assert e in s && AllFit(s, modulus) && |s| <= MAX_ELEMENTS && !RemovedIsWitness(s, e, modulus);
    } else if Cong(Pow(GENERATOR, modulus - 1), 1, modulus) {
      forall s: seq<nat>, e: nat | e in s && AllFit(s, modulus) ensures RemovedIsWitness(s, e, modulus) {
        RemovalUnderPeriod(s, e, modulus);
      }
    } else {
      var s: seq<nat>, e: nat := [modulus - 1, 1], 1;
      PairDiffers(modulus);
      assert e == s[1];
      SmallElementsFit(s, modulus);
      assert e in s && AllFit(s, modulus) && |s| <= MAX_ELEMENTS && !RemovedIsWitness(s, e, modulus);
    }
  }

  /** Without other elements the value is the generator, the witness its remainder. */
  lemma LoneElementDiffers(modulus: int)
    requires 2 <= modulus <= GENERATOR
    ensures !RemovedIsWitness([1], 1, modulus)
  {
    hide Mod, Pow, WrappedPow, Accumulated;
    assert [1][..0] == [];
    assert RemoveFirst([1], 1) == [];
    AccumulatedEmpty(modulus);
    ReducedProductEmpty(modulus);
    WrappedPowIsPow(1, GENERATOR, 1, modulus);
  }

  /** With the elements N - 1 and 1, the accumulator of N - 1 is the generator to the N - 1. */
  lemma PairDiffers(modulus: int)
    requires 2 <= modulus < UINT32 && !Cong(Pow(GENERATOR, modulus - 1), 1, modulus)
    ensures !RemovedIsWitness([modulus - 1, 1], 1, modulus)
  {
    hide Mod, Pow, WrappedPow, Accumulated, GeneratorPower;
    var n: nat := modulus - 1;
    WitnessOfOne(n, modulus);
    AccumulatedIsPower([n], modulus);
    LonePower(n);
  }

  lemma LonePower(n: nat)
    ensures GeneratorPower([n]) == Pow(GENERATOR, n)
  {
    hide Pow;
    assert [n][1..] == [];
    assert Product([n]) == n * Product([]) == n;
  }

  lemma AccumulatedEmpty(modulus: int)
    ensures Accumulated([], modulus) == GENERATOR
  {
  }

  // ---- The calls together ----

  /** A fresh accumulator, any run of insertions, and the witness of one element: it verifies. */
  method WitnessRound(elements: seq<nat>, elem: nat, modulus: int) returns (status: int)
    requires IsPrime(modulus) && GENERATOR < modulus < UINT32
    requires |elements| <= MAX_ELEMENTS && elem in elements && AllFit(elements, modulus)
    ensures status == 0
  {
    hide Accumulated, WitnessValue, WrappedPow, Fits, RemoveFirst, IsPrime;
    var acc := new Acc.Init(modulus);
    for i := 0 to |elements|
      invariant acc.Valid() && acc.modulus == modulus && acc.Inserted() == elements[..i]
      invariant fresh(acc) && fresh(acc.elements)
    {
      FitsIsWord(elements[i], modulus);
      var _ := acc.Insert(elements[i]);
      assert elements[..i + 1] == elements[..i] + [elements[i]];
    }
    assert elements[..|elements|] == elements;
    var wit := acc.GenWitness(elem);
    WitnessIsWord(elements, elem, modulus);
    status := acc.VerifyWitness(wit.value);
    WitnessesVerify(elements, elem, modulus);
  }

  lemma FitsIsWord(x: nat, modulus: int)
    requires Fits(x, modulus)
    ensures Uint64(x)
  {
  }

  lemma WitnessIsWord(s: seq<nat>, e: nat, modulus: int)
    requires 2 <= modulus < UINT64 && e in s && AllFit(s, modulus)
    ensures Uint64(WitnessValue(s, e, modulus)) && Uint64(e)
  {
    hide Fits;
    var i :| 0 <= i < |s| && s[i] == e;
    FitsIsWord(s[i], modulus);
    var others := RemoveFirst(s, e);
    ReducedProductRange(others, modulus);
    WrappedPowRange(1, GENERATOR, ReducedProduct(others, modulus), modulus);
  }
}
