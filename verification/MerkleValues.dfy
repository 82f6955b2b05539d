/**
 The Merkle trees that merkle_tree.c builds, as values: pairing level by level, a lone node
 becoming the left child of a parent without a right child.  H is any hash function.
 */
module MerkleValues {
  import opened MachineArithmetic
  import opened MerklePaths

  const HASH_LEN := 32

  type Hasher = Bytes -> Bytes

  ghost predicate HashLength(h: Hasher) {
    forall x :: |h(x)| == HASH_LEN
  }

  /** The hash bytes of a missing child. */
  function Missing(): (z: Bytes)
    ensures |z| == HASH_LEN && forall i :: 0 <= i < |z| ==> z[i] == 0
  {
    seq(HASH_LEN, _ => 0)
  }

  /** One is an inner node without a right child. */
  datatype HTree = Leaf(data: Bytes) | One(only: HTree) | Two(left: HTree, right: HTree)

  function Hash(h: Hasher, t: HTree): Bytes {
    match t
    case Leaf(d) => h(d)
    case One(l) => h(Hash(h, l) + Missing())
    case Two(l, r) => h(Hash(h, l) + Hash(h, r))
  }

  function Leaves(t: HTree): (s: seq<Bytes>)
    ensures s != []
  {
    match t
    case Leaf(d) => [d]
    case One(l) => Leaves(l)
    case Two(l, r) => Leaves(l) + Leaves(r)
  }

  // ---- Building ----

  function Parents(level: seq<HTree>): (p: seq<HTree>)
    ensures |p| == (|level| + 1) / 2
  {
    seq((|level| + 1) / 2, i requires 0 <= i < (|level| + 1) / 2 =>
      if 2 * i + 1 < |level| then Two(level[2 * i], level[2 * i + 1]) else One(level[2 * i]))
  }

  function Build(level: seq<HTree>): HTree
    requires level != []
    decreases |level|
  {
    if |level| == 1 then level[0] else Build(Parents(level))
  }

  function LeafLevel(data: seq<Bytes>): (s: seq<HTree>)
    ensures |s| == |data|
  {
    seq(|data|, i requires 0 <= i < |data| => Leaf(data[i]))
  }

  function BuildFrom(data: seq<Bytes>): HTree
    requires data != []
  {
    Build(LeafLevel(data))
  }

  function AllLeaves(level: seq<HTree>): seq<Bytes> {
    if level == [] then [] else AllLeaves(level[..|level| - 1]) + Leaves(level[|level| - 1])
  }

  lemma {:induction false} AllLeavesConcat(a: seq<HTree>, b: seq<HTree>)
    ensures AllLeaves(a + b) == AllLeaves(a) + AllLeaves(b)
  {
    if b == [] {
      assert a + b == a;
    } else {
      var n := |b| - 1;
      AllLeavesConcat(a, b[..n]);
      assert (a + b)[..|a + b| - 1] == a + b[..n];
    }
  }

  lemma AllLeavesOne(t: HTree)
    ensures AllLeaves([t]) == Leaves(t)
  {
    assert [t][..0] == [];
  }

  lemma AllLeavesSnoc(s: seq<HTree>, t: HTree)
    ensures AllLeaves(s + [t]) == AllLeaves(s) + Leaves(t)
  {
    assert (s + [t])[..|s|] == s;
  }

  /** The part of the level that the first n parents stand for. */
  function Under(level: seq<HTree>, n: nat): seq<HTree>
    requires n <= (|level| + 1) / 2
  {
    if 2 * n <= |level| then level[..2 * n] else level
  }

  lemma ParentLeaves(level: seq<HTree>, k: nat)
    requires k < (|level| + 1) / 2
    ensures Leaves(Parents(level)[k])
         == Leaves(level[2 * k]) + if 2 * k + 1 < |level| then Leaves(level[2 * k + 1]) else []
  {
  }

  lemma UnderNext(level: seq<HTree>, n: nat)
    requires 1 <= n <= (|level| + 1) / 2
    ensures AllLeaves(Under(level, n)) == AllLeaves(Under(level, n - 1)) + Leaves(Parents(level)[n - 1])
  {
    hide AllLeaves, Leaves;
    var before, i := level[..2 * (n - 1)], 2 * (n - 1);
    AllLeavesSnoc(before, level[i]);
    ParentLeaves(level, n - 1);
    if i + 1 < |level| {
      assert level[..2 * n] == before + [level[i]] + [level[i + 1]];
      AllLeavesSnoc(before + [level[i]], level[i + 1]);
    } else {
      assert level == before + [level[i]];
    }
  }

  lemma {:induction false} ParentsKeepLeaves(level: seq<HTree>, n: nat)
    requires n <= |Parents(level)|
    ensures AllLeaves(Parents(level)[..n]) == AllLeaves(Under(level, n))
  {
    var p := Parents(level);
    if n == 0 {
      assert p[..0] == [] && level[..0] == [];
    } else {
      hide AllLeaves, Parents, Leaves;
      ParentsKeepLeaves(level, n - 1);
      UnderNext(level, n);
      assert p[..n] == p[..n - 1] + [p[n - 1]];
      AllLeavesSnoc(p[..n - 1], p[n - 1]);
    }
  }

  /** Building keeps the leaves and their order. */
  lemma {:induction false} BuildKeepsLeaves(level: seq<HTree>)
    requires level != []
    ensures Leaves(Build(level)) == AllLeaves(level)
    decreases |level|
  {
    if |level| == 1 {
      AllLeavesOne(level[0]);
      assert level == [level[0]];
    } else {
      var p := Parents(level);
      ParentsKeepLeaves(level, |p|);
      assert p[..|p|] == p;
      assert 2 * |p| == |level| ==> level[..2 * |p|] == level;
      BuildKeepsLeaves(p);
    }
  }

  lemma {:induction false} LeafLevelLeaves(data: seq<Bytes>)
    ensures AllLeaves(LeafLevel(data)) == data
  {
    if data != [] {
      var n := |data| - 1;
      LeafLevelLeaves(data[..n]);
      assert LeafLevel(data)[..n] == LeafLevel(data[..n]);
      assert data == data[..n] + [data[n]];
    }
  }

  lemma BuildFromLeaves(data: seq<Bytes>)
    requires data != []
    ensures Leaves(BuildFrom(data)) == data
  {
    BuildKeepsLeaves(LeafLevel(data));
    LeafLevelLeaves(data);
  }

  // ---- The shape of a built tree ----

  /** All leaves at depth d, no lone child. */
  predicate Full(t: HTree, d: nat) {
    if d == 0 then t.Leaf? else t.Two? && Full(t.left, d - 1) && Full(t.right, d - 1)
  }

  /** All leaves at depth d; left of any node everything is full. */
  predicate Packed(t: HTree, d: nat) {
    if d == 0 then t.Leaf?
    else
      || (t.One? && Packed(t.only, d - 1))
      || (t.Two? && Full(t.left, d - 1) && Packed(t.right, d - 1))
  }

  predicate PackedLevel(level: seq<HTree>, d: nat) {
    && (forall i :: 0 <= i < |level| - 1 ==> Full(level[i], d))
    && (level != [] ==> Packed(level[|level| - 1], d))
  }

  lemma ParentsArePacked(level: seq<HTree>, d: nat)
    requires level != [] && PackedLevel(level, d)
    ensures PackedLevel(Parents(level), d + 1)
  {
  }

  predicate PowerOfTwo(n: nat) {
    n == 1 || (n > 0 && n % 2 == 0 && PowerOfTwo(n / 2))
  }

  /**
   A built tree has its leaves at one depth and is packed to the left.  With a power of two of
   leaves, and only then, no node has a lone child.
   */
  lemma {:induction false} BuildIsFull(level: seq<HTree>, d: nat) returns (depth: nat)
    requires level != [] && PackedLevel(level, d)
    ensures Packed(Build(level), depth)
    ensures Full(Build(level), depth) <==> Full(level[|level| - 1], d) && PowerOfTwo(|level|)
    decreases |level|
  {
    depth := d;
    if |level| > 1 {
      ParentsArePacked(level, d);
      depth := BuildIsFull(Parents(level), d + 1);
    }
  }

  lemma BuildFromIsFull(data: seq<Bytes>) returns (depth: nat)
    requires data != []
    ensures Packed(BuildFrom(data), depth)
    ensures Full(BuildFrom(data), depth) <==> PowerOfTwo(|data|)
  {
    depth := BuildIsFull(LeafLevel(data), 0);
  }

  // ---- Proofs ----

  function Combine(h: Hasher): Combiner<Bytes> {
    (a, b) => h(a + b)
  }

  /** The path that `merkle_proof_generate` collects for leaf k, from the leaf upwards. */
  function ProofPath(h: Hasher, t: HTree, k: nat): seq<Step<Bytes>>
    requires k < |Leaves(t)|
  {
    match t
    case Leaf(_) => []
    case One(l) => ProofPath(h, l, k) + [Step(Missing(), false)]
    case Two(l, r) =>
      if k < |Leaves(l)| then ProofPath(h, l, k) + [Step(Hash(h, r), true)]
      else ProofPath(h, r, k - |Leaves(l)|) + [Step(Hash(h, l), false)]
  }

  /** Every ancestor of leaf k has two children. */
  predicate NoLoneAncestor(t: HTree, k: nat)
    requires k < |Leaves(t)|
  {
    match t
    case Leaf(_) => true
    case One(l) => false
    case Two(l, r) => if k < |Leaves(l)| then NoLoneAncestor(l, k) else NoLoneAncestor(r, k - |Leaves(l)|)
  }

  /** The verifier's result on the generated proof of leaf k. */
  predicate ProofAccepted(h: Hasher, t: HTree, k: nat)
    requires k < |Leaves(t)|
  {
    Climb(Combine(h), h(Leaves(t)[k]), ProofPath(h, t, k)) == Hash(h, t)
  }

  /** Generated proofs are accepted for leaves without a lone ancestor. */
  lemma {:induction false} ProofVerifies(h: Hasher, t: HTree, k: nat)
    requires k < |Leaves(t)| && NoLoneAncestor(t, k)
    ensures ProofAccepted(h, t, k)
  {
    match t
    case Leaf(_) =>
    case Two(l, r) =>
      if k < |Leaves(l)| {
        ProofVerifies(h, l, k);
        ClimbSnoc(Combine(h), h(Leaves(t)[k]), ProofPath(h, l, k), Step(Hash(h, r), true));
      } else {
        ProofVerifies(h, r, k - |Leaves(l)|);
        ClimbSnoc(Combine(h), h(Leaves(t)[k]), ProofPath(h, r, k - |Leaves(l)|), Step(Hash(h, l), false));
      }
  }

  lemma {:induction false} FullHasNoLoneAncestor(t: HTree, d: nat, k: nat)
    requires Full(t, d) && k < |Leaves(t)|
    ensures NoLoneAncestor(t, k)
    decreases t
  {
    if d != 0 {
      if k < |Leaves(t.left)| {
        FullHasNoLoneAncestor(t.left, d - 1, k);
      } else {
        FullHasNoLoneAncestor(t.right, d - 1, k - |Leaves(t.left)|);
      }
    }
  }

  /** With a power of two of leaves every generated proof is accepted. */
  lemma PowerOfTwoVerifies(h: Hasher, data: seq<Bytes>, k: nat)
    requires k < |data| && PowerOfTwo(|data|)
    ensures Leaves(BuildFrom(data)) == data && ProofAccepted(h, BuildFrom(data), k)
  {
    BuildFromLeaves(data);
    var d := BuildFromIsFull(data);
    FullHasNoLoneAncestor(BuildFrom(data), d, k);
    ProofVerifies(h, BuildFrom(data), k);
  }

  // ---- Which leaves have a lone ancestor, and how long proofs are ----

  /** The number of levels above n nodes. */
  function Height(n: nat): nat {
    if n <= 1 then 0 else 1 + Height((n + 1) / 2)
  }

  /** Position k is never the unpaired last one, at any level above n nodes. */
  predicate AlwaysPaired(n: nat, k: nat) {
    n <= 1 || (!(n % 2 == 1 && k == n - 1) && AlwaysPaired((n + 1) / 2, k / 2))
  }

  /** The position of leaf i of the j-th tree among the leaves of the level. */
  function Position(level: seq<HTree>, j: nat, i: nat): nat
    requires j < |level|
  {
    |AllLeaves(level[..j])| + i
  }

  lemma PositionInside(level: seq<HTree>, j: nat, i: nat)
    requires j < |level| && i < |Leaves(level[j])|
    ensures Position(level, j, i) < |AllLeaves(level)|
  {
    assert level == level[..j] + [level[j]] + level[j + 1..];
    AllLeavesSnoc(level[..j], level[j]);
    AllLeavesConcat(level[..j] + [level[j]], level[j + 1..]);
  }

  /** The leaf's position within the parent of its tree. */
  function Within(level: seq<HTree>, j: nat, i: nat): nat
    requires j < |level|
  {
    if j % 2 == 0 then i else |Leaves(level[j - 1])| + i
  }

  lemma PositionAbove(level: seq<HTree>, j: nat, i: nat)
    requires j < |level|
    ensures Position(Parents(level), j / 2, Within(level, j, i)) == Position(level, j, i)
  {
    hide AllLeaves, Leaves;
    ParentsKeepLeaves(level, j / 2);
    if j % 2 == 1 {
      AllLeavesSnoc(level[..j - 1], level[j - 1]);
      assert level[..j] == level[..j - 1] + [level[j - 1]];
    }
  }

  lemma ParentOf(level: seq<HTree>, j: nat)
    requires j < |level|
    ensures j % 2 == 1 ==> Parents(level)[j / 2] == Two(level[j - 1], level[j])
    ensures j % 2 == 0 && j + 1 < |level| ==> Parents(level)[j / 2] == Two(level[j], level[j + 1])
    ensures j % 2 == 0 && j + 1 == |level| ==> Parents(level)[j / 2] == One(level[j])
  {
  }

  lemma WithinParent(h: Hasher, level: seq<HTree>, j: nat, i: nat)
    requires j < |level| && i < |Leaves(level[j])|
    ensures var p, w := Parents(level)[j / 2], Within(level, j, i);
            && w < |Leaves(p)| && |ProofPath(h, p, w)| == 1 + |ProofPath(h, level[j], i)|
            && (NoLoneAncestor(p, w) <==> NoLoneAncestor(level[j], i) && !(|level| % 2 == 1 && j == |level| - 1))
  {
    ParentOf(level, j);
    hide Parents, Hash;
  }

  lemma {:induction false} PathInBuild(h: Hasher, level: seq<HTree>, j: nat, i: nat)
    requires j < |level| && i < |Leaves(level[j])|
    ensures var k := Position(level, j, i);
            && k < |Leaves(Build(level))|
            && |ProofPath(h, Build(level), k)| == |ProofPath(h, level[j], i)| + Height(|level|)
            && (NoLoneAncestor(Build(level), k) <==> NoLoneAncestor(level[j], i) && AlwaysPaired(|level|, j))
    decreases |level|
  {
    BuildKeepsLeaves(level);
    PositionInside(level, j, i);
    if |level| == 1 {
      assert level[..0] == [];
    } else {
      hide AllLeaves, Leaves, ProofPath, NoLoneAncestor, Position, Within, Parents;
      WithinParent(h, level, j, i);
      PositionAbove(level, j, i);
      PathInBuild(h, Parents(level), j / 2, Within(level, j, i));
    }
  }

  lemma PositionOfLeaf(data: seq<Bytes>, k: nat)
    requires k < |data|
    ensures Position(LeafLevel(data), k, 0) == k
  {
    assert LeafLevel(data)[..k] == LeafLevel(data[..k]);
    LeafLevelLeaves(data[..k]);
  }

  /** Position and count alone decide whether a leaf has a lone ancestor, and the proof length. */
  lemma LoneAncestorIff(h: Hasher, data: seq<Bytes>, k: nat)
    requires k < |data|
    ensures k < |Leaves(BuildFrom(data))| && |ProofPath(h, BuildFrom(data), k)| == Height(|data|)
    ensures NoLoneAncestor(BuildFrom(data), k) <==> AlwaysPaired(|data|, k)
  {
    PathInBuild(h, LeafLevel(data), k, 0);
    PositionOfLeaf(data, k);
  }

  lemma {:induction false} HeightBound(n: nat, d: nat)
    requires n <= Pow2(d)
    ensures Height(n) <= d
  {
    if n > 1 {
      HeightBound((n + 1) / 2, d - 1);
    }
  }

  // ---- Binding ----

  /** Two inputs that the hash function maps to one output. */
  ghost predicate HashCollision(h: Hasher, x: Bytes, y: Bytes) {
    x != y && h(x) == h(y)
  }

  ghost predicate WellSized(path: seq<Step<Bytes>>) {
    forall i :: 0 <= i < |path| ==> |path[i].sibling| == HASH_LEN
  }

  /** The bytes hashed at one level. */
  function Input(current: Bytes, s: Step<Bytes>): Bytes {
    if s.currentLeft then current + s.sibling else s.sibling + current
  }

  lemma InputsDiffer(x: Bytes, s: Step<Bytes>, y: Bytes, t: Step<Bytes>)
    requires |x| == |y| == |s.sibling| == |t.sibling| == HASH_LEN && x != y && s.currentLeft == t.currentLeft
    ensures Input(x, s) != Input(y, t)
  {
    var a, b := Input(x, s), Input(y, t);
    if s.currentLeft {
      assert a[..HASH_LEN] == x && b[..HASH_LEN] == y;
    } else {
      assert a[HASH_LEN..] == x && b[HASH_LEN..] == y;
    }
  }

  /** The bytes that the verifier hashes at level i when it climbs a path from a leaf hash. */
  function HashedAt(h: Hasher, leafHash: Bytes, path: seq<Step<Bytes>>, i: nat): Bytes
    requires i < |path|
  {
    Input(Climb(Combine(h), leafHash, path[..i]), path[i])
  }

  /**
   Two accepted proofs with one root, depth and directions, but different leaf hashes, hash
   different bytes to the same value at some level of the two climbs.
   */
  lemma {:induction false} ProofsBind(h: Hasher, x: Bytes, p: seq<Step<Bytes>>, y: Bytes, q: seq<Step<Bytes>>)
      returns (i: nat)
    requires HashLength(h) && |x| == |y| == HASH_LEN && WellSized(p) && WellSized(q)
    requires SameDirections(p, q) && x != y && Climb(Combine(h), x, p) == Climb(Combine(h), y, q)
    ensures i < |p| && HashCollision(h, HashedAt(h, x, p, i), HashedAt(h, y, q, i))
    decreases |p|
  {
    var a, b := Input(x, p[0]), Input(y, q[0]);
    InputsDiffer(x, p[0], y, q[0]);
    if h(a) == h(b) {
      i := 0;
    } else {
      var j := ProofsBind(h, h(a), p[1..], h(b), q[1..]);
      i := j + 1;
      assert p[..i][0] == p[0] && p[..i][1..] == p[1..][..j];
      assert q[..i][0] == q[0] && q[..i][1..] == q[1..][..j];
    }
  }

  // ---- Lone ancestors ----

  /** What climbing the generated path reaches. */
  function Reached(h: Hasher, t: HTree, k: nat): Bytes
    requires k < |Leaves(t)|
  {
    Climb(Combine(h), h(Leaves(t)[k]), ProofPath(h, t, k))
  }

  lemma {:induction false} ReachedUnfold(h: Hasher, t: HTree, k: nat)
    requires k < |Leaves(t)|
    ensures Reached(h, t, k)
         == match t
            case Leaf(d) => h(d)
            case One(l) => h(Missing() + Reached(h, l, k))
            case Two(l, r) =>
              if k < |Leaves(l)| then h(Reached(h, l, k) + Hash(h, r))
              else h(Hash(h, l) + Reached(h, r, k - |Leaves(l)|))
  {
    match t
    case Leaf(_) =>
    case One(l) =>
      ClimbSnoc(Combine(h), h(Leaves(t)[k]), ProofPath(h, l, k), Step(Missing(), false));
    case Two(l, r) =>
      if k < |Leaves(l)| {
        ClimbSnoc(Combine(h), h(Leaves(t)[k]), ProofPath(h, l, k), Step(Hash(h, r), true));
      } else {
        ClimbSnoc(Combine(h), h(Leaves(t)[k]), ProofPath(h, r, k - |Leaves(l)|), Step(Hash(h, l), false));
      }
  }

  lemma {:induction false} HashSize(h: Hasher, t: HTree, k: nat)
    requires HashLength(h) && k < |Leaves(t)|
    ensures |Hash(h, t)| == HASH_LEN && |Reached(h, t, k)| == HASH_LEN
  {
    ReachedUnfold(h, t, k);
  }

  lemma {:induction false} SiblingsWellSized(h: Hasher, t: HTree, k: nat)
    requires HashLength(h) && k < |Leaves(t)|
    ensures WellSized(ProofPath(h, t, k))
  {
    match t
    case Leaf(_) =>
    case One(l) =>
      SiblingsWellSized(h, l, k);
    case Two(l, r) =>
      HashSize(h, l, 0);
      HashSize(h, r, 0);
      if k < |Leaves(l)| {
        SiblingsWellSized(h, l, k);
      } else {
        SiblingsWellSized(h, r, k - |Leaves(l)|);
      }
  }

  /** One level down towards leaf k: the subtree there, and the position of the leaf in it. */
  function Down(t: HTree, k: nat): (d: (HTree, nat))
    requires k < |Leaves(t)| && !t.Leaf?
    ensures d.1 < |Leaves(d.0)| && d.0 < t
  {
    match t
    case One(l) => (l, k)
    case Two(l, r) => if k < |Leaves(l)| then (l, k) else (r, k - |Leaves(l)|)
  }

  /** The bytes that the climb from leaf k hashes at the top of the tree ... */
  function ClimbInput(h: Hasher, t: HTree, k: nat): Bytes
    requires k < |Leaves(t)| && !t.Leaf?
  {
    match t
    case One(l) => Missing() + Reached(h, l, k)
    case Two(l, r) =>
      if k < |Leaves(l)| then Reached(h, l, k) + Hash(h, r) else Hash(h, l) + Reached(h, r, k - |Leaves(l)|)
  }

  /** ... and those that the tree hashed there. */
  function TreeInput(h: Hasher, t: HTree): Bytes
    requires !t.Leaf?
  {
    match t
    case One(l) => Hash(h, l) + Missing()
    case Two(l, r) => Hash(h, l) + Hash(h, r)
  }

  /** Every lone child on the way from leaf k to the root has the all-zero hash. */
  predicate LoneChildrenZero(h: Hasher, t: HTree, k: nat)
    requires k < |Leaves(t)|
    decreases t
  {
    t.Leaf?
    || (var d := Down(t, k);
        (t.One? ==> Hash(h, d.0) == Missing()) && LoneChildrenZero(h, d.0, d.1))
  }

  /** Some lone child on the way has it. */
  predicate LoneChildZero(h: Hasher, t: HTree, k: nat)
    requires k < |Leaves(t)|
    decreases t
  {
    !t.Leaf?
    && (var d := Down(t, k);
        (t.One? && Hash(h, d.0) == Missing()) || LoneChildZero(h, d.0, d.1))
  }

  /** At some node on the way, climb and tree hash different bytes to the same value. */
  ghost predicate ClimbCollides(h: Hasher, t: HTree, k: nat)
    requires k < |Leaves(t)|
    decreases t
  {
    !t.Leaf?
    && (|| HashCollision(h, ClimbInput(h, t, k), TreeInput(h, t))
        || ClimbCollides(h, Down(t, k).0, Down(t, k).1))
  }

  /** Moreover, every lone child above such a node has the all-zero hash. */
  ghost predicate CollisionSurvives(h: Hasher, t: HTree, k: nat)
    requires k < |Leaves(t)|
    decreases t
  {
    !t.Leaf?
    && (|| HashCollision(h, ClimbInput(h, t, k), TreeInput(h, t))
        || (var d := Down(t, k);
            (t.One? ==> Hash(h, d.0) == Missing()) && CollisionSurvives(h, d.0, d.1)))
  }

  lemma HalvesAgree(a: Bytes, b: Bytes, c: Bytes, d: Bytes)
    requires |a| == |c|
    ensures a + b == c + d <==> a == c && b == d
  {
    if a + b == c + d {
      assert (a + b)[..|a|] == a && (c + d)[..|c|] == c;
      assert (a + b)[|a|..] == b && (c + d)[|c|..] == d;
    }
  }

  lemma InputsAgree(h: Hasher, t: HTree, k: nat)
    requires HashLength(h) && k < |Leaves(t)| && !t.Leaf?
    ensures Reached(h, t, k) == h(ClimbInput(h, t, k)) && Hash(h, t) == h(TreeInput(h, t))
    ensures var d := Down(t, k);
            ClimbInput(h, t, k) == TreeInput(h, t)
            <==> (t.One? ==> Hash(h, d.0) == Missing()) && Reached(h, d.0, d.1) == Hash(h, d.0)
  {
    var d := Down(t, k);
    ReachedUnfold(h, t, k);
    HashSize(h, d.0, d.1);
    hide Reached;
    match t
    case One(l) =>
      HalvesAgree(Missing(), Reached(h, l, k), Hash(h, l), Missing());
    case Two(l, r) =>
      if k < |Leaves(l)| {
        HalvesAgree(Reached(h, l, k), Hash(h, r), Hash(h, l), Hash(h, r));
      } else {
        HalvesAgree(Hash(h, l), Reached(h, r, d.1), Hash(h, l), Hash(h, r));
      }
  }

  /**
   Exactly which generated proofs are accepted, for any hash function: those with all-zero hashes
   at the lone children on their way, and those that a collision rescues.
   */
  lemma {:induction false} ProofAcceptedIff(h: Hasher, t: HTree, k: nat)
    requires HashLength(h) && k < |Leaves(t)|
    ensures ProofAccepted(h, t, k) <==> LoneChildrenZero(h, t, k) || CollisionSurvives(h, t, k)
    decreases t
  {
    ReachedUnfold(h, t, k);
    if !t.Leaf? {
      hide ClimbInput, TreeInput, Hash, Leaves, Reached;
      var d := Down(t, k);
      InputsAgree(h, t, k);
      AcceptedIsReached(h, t, k);
      AcceptedIsReached(h, d.0, d.1);
      ProofAcceptedIff(h, d.0, d.1);
    }
  }

  lemma AcceptedIsReached(h: Hasher, t: HTree, k: nat)
    requires k < |Leaves(t)|
    ensures ProofAccepted(h, t, k) <==> Reached(h, t, k) == Hash(h, t)
  {
  }

  lemma {:induction false} SurvivingIsCollision(h: Hasher, t: HTree, k: nat)
    requires k < |Leaves(t)|
    ensures CollisionSurvives(h, t, k) ==> ClimbCollides(h, t, k)
    decreases t
  {
    if !t.Leaf? {
      SurvivingIsCollision(h, Down(t, k).0, Down(t, k).1);
    }
  }

  lemma {:induction false} ZerosAtLoneChildren(h: Hasher, t: HTree, k: nat)
    requires k < |Leaves(t)|
    ensures NoLoneAncestor(t, k) <==> LoneChildrenZero(h, t, k) && !LoneChildZero(h, t, k)
    decreases t
  {
    if !t.Leaf? {
      ZerosAtLoneChildren(h, Down(t, k).0, Down(t, k).1);
    }
  }

  /** Without a collision and a lone all-zero hash on the way: exactly the leaves without a lone ancestor. */
  lemma LoneAncestorRejected(h: Hasher, t: HTree, k: nat)
    requires HashLength(h) && k < |Leaves(t)|
    requires !ClimbCollides(h, t, k) && !LoneChildZero(h, t, k)
    ensures ProofAccepted(h, t, k) <==> NoLoneAncestor(t, k)
  {
    ProofAcceptedIff(h, t, k);
    SurvivingIsCollision(h, t, k);
    ZerosAtLoneChildren(h, t, k);
  }

  /** A hash function for the example below: one significant byte, sensitive to order. */
  function SampleHash(x: Bytes): (y: Bytes)
    ensures |y| == HASH_LEN
  {
    [if |x| == 64 && x[0] == 0 then 1 else if |x| == 64 then x[32] else if |x| > 0 then x[0] else 0]
    + seq(31, _ => 0)
  }

  lemma SamplePair(x: Bytes, y: Bytes)
    requires |x| == |y| == HASH_LEN
    ensures SampleHash(x + y)[0] == if x[0] == 0 then 1 else y[0]
  {
    assert (x + y)[0] == x[0] && (x + y)[32] == y[0];
  }

  /** The first bytes of the hashes in the tree over 5, 6 and 7, and of those that the climb reaches. */
  lemma SampleHashes()
    ensures var l, r := Two(Leaf([5]), Leaf([6])), One(Leaf([7]));
            && 0 < |Leaves(r)| == 1 && |Leaves(l)| == 2
            && |Hash(SampleHash, l)| == |Hash(SampleHash, r)| == |Reached(SampleHash, r, 0)| == HASH_LEN
            && Hash(SampleHash, l)[0] == 6 && Hash(SampleHash, r)[0] == 0 && Reached(SampleHash, r, 0)[0] == 1
            && |SampleHash([7])| == HASH_LEN && SampleHash([7])[0] == 7
  {
    hide SampleHash;
    var r := One(Leaf([7]));
    ReachedUnfold(SampleHash, r, 0);
    ReachedUnfold(SampleHash, Leaf([7]), 0);
    SampleLeaf(5);
    SampleLeaf(6);
    SampleLeaf(7);
    SamplePair(SampleHash([5]), SampleHash([6]));
    SamplePair(Missing(), SampleHash([7]));
    SamplePair(SampleHash([7]), Missing());
  }

  /**
   With three leaves, the generated proof of the last one is rejected; no collision and no lone
   all-zero hash is involved.
   */
  lemma ThirdOfThreeRejected()
    ensures var t := Two(Two(Leaf([5]), Leaf([6])), One(Leaf([7])));
            && BuildFrom([[5], [6], [7]]) == t && !NoLoneAncestor(t, 2) && !ProofAccepted(SampleHash, t, 2)
            && !ClimbCollides(SampleHash, t, 2) && !LoneChildZero(SampleHash, t, 2)
  {
    var h, l, r := SampleHash, Two(Leaf([5]), Leaf([6])), One(Leaf([7]));
    var t := Two(l, r);
    ThreeLeaves();
    SampleHashes();
    assert Down(t, 2) == (r, 0) && Down(r, 0) == (Leaf([7]), 0);
    hide BuildFrom, SampleHash, Reached, Leaves;
    InputsAgree(h, t, 2);
    InputsAgree(h, r, 0);
    SamplePair(Hash(h, l), Hash(h, r));
    SamplePair(Hash(h, l), Reached(h, r, 0));
    AcceptedIsReached(h, t, 2);
  }

  lemma SampleLeaf(b: bv8)
    ensures SampleHash([b])[0] == b
  {
  }

  lemma ThreeLeaves()
    ensures BuildFrom([[5], [6], [7]]) == Two(Two(Leaf([5]), Leaf([6])), One(Leaf([7])))
  {
    var level := LeafLevel([[5], [6], [7]]);
    assert level == [Leaf([5]), Leaf([6]), Leaf([7])];
    var two := Parents(level);
    assert two == [Two(Leaf([5]), Leaf([6])), One(Leaf([7]))];
    assert Parents(two) == [Two(two[0], two[1])];
    assert Build(level) == Build(two) == Build(Parents(two));
  }
}
