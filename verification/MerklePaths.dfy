/**
 Merkle paths, for an arbitrary function that combines two hashes.
 */
module MerklePaths {

  function Pow2(d: nat): (p: nat)
    ensures p >= 1
  {
    if d == 0 then 1 else 2 * Pow2(d - 1)
  }

  type Combiner<!T> = (T, T) -> T

  /** One level of a proof: the sibling, and on which side the running hash goes. */
  datatype Step<T> = Step(sibling: T, currentLeft: bool)

  function Apply<T>(combine: Combiner<T>, current: T, s: Step<T>): T {
    if s.currentLeft then combine(current, s.sibling) else combine(s.sibling, current)
  }

  /** The root hash that a leaf and its path lead to. */
  function Climb<T>(combine: Combiner<T>, current: T, path: seq<Step<T>>): T {
    if path == [] then current else Climb(combine, Apply(combine, current, path[0]), path[1..])
  }

  lemma {:induction false} ClimbSnoc<T>(combine: Combiner<T>, current: T, path: seq<Step<T>>, s: Step<T>)
    ensures Climb(combine, current, path + [s]) == Apply(combine, Climb(combine, current, path), s)
  {
    if path == [] {
      assert [s][1..] == [];
    } else {
      assert (path + [s])[1..] == path[1..] + [s];
      ClimbSnoc(combine, Apply(combine, current, path[0]), path[1..], s);
    }
  }

  ghost predicate SameDirections<T>(p: seq<Step<T>>, q: seq<Step<T>>) {
    |p| == |q| && forall i :: 0 <= i < |p| ==> p[i].currentLeft == q[i].currentLeft
  }

  /** What is combined at one level: the running hash and the sibling, in their places. */
  function Operands<T>(current: T, s: Step<T>): (o: (T, T)) {
    if s.currentLeft then (current, s.sibling) else (s.sibling, current)
  }

  /** What a climb from a leaf combines at level i. */
  function CombinedAt<T>(combine: Combiner<T>, leaf: T, path: seq<Step<T>>, i: nat): (T, T)
    requires i < |path|
  {
    Operands(Climb(combine, leaf, path[..i]), path[i])
  }

  /** Distinct inputs on which the combiner agrees. */
  ghost predicate Collision<T>(combine: Combiner<T>, a: (T, T), b: (T, T)) {
    a != b && combine(a.0, a.1) == combine(b.0, b.1)
  }

  /**
   Paths of the same shape from different leaves to the same root combine different inputs to
   the same hash at some level: proofs bind the leaf without any assumption on the combiner.
   */
  lemma {:induction false} ExtractCollision<T>(combine: Combiner<T>, x: T, p: seq<Step<T>>, y: T, q: seq<Step<T>>)
      returns (i: nat)
    requires SameDirections(p, q) && x != y && Climb(combine, x, p) == Climb(combine, y, q)
    ensures i < |p| && Collision(combine, CombinedAt(combine, x, p, i), CombinedAt(combine, y, q, i))
    decreases |p|
  {
    var x', y' := Apply(combine, x, p[0]), Apply(combine, y, q[0]);
    if x' == y' {
      i := 0;
    } else {
      var j := ExtractCollision(combine, x', p[1..], y', q[1..]);
      i := j + 1;
      assert p[..i][0] == p[0] && p[..i][1..] == p[1..][..j];
      assert q[..i][0] == q[0] && q[..i][1..] == q[1..][..j];
    }
  }
}
