/**
 The heap-indexed Merkle tree of crypto_apps.c: node k has the children 2k and 2k + 1, the
 leaves start at the padded count.  The combining function is arbitrary, so sides matter.
 */
module HeapMerkle {
  import opened MerklePaths
  import opened MachineArithmetic

  const MAX_LEAVES := 128

  // ---- The reference: hash neighbours pairwise until one hash is left ----

  function PairUp<T>(combine: Combiner<T>, s: seq<T>): (r: seq<T>)
    ensures |r| == |s| / 2
  {
    seq(|s| / 2, i requires 0 <= i < |s| / 2 => combine(s[2 * i], s[2 * i + 1]))
  }

  function PairwiseRoot<T>(combine: Combiner<T>, s: seq<T>, depth: nat): T
    requires |s| == Pow2(depth)
    decreases depth
  {
    if depth == 0 then s[0] else PairwiseRoot(combine, PairUp(combine, s), depth - 1)
  }

  function Padded<T>(data: seq<T>, zero: T, n: nat): (r: seq<T>)
    requires |data| <= n
    ensures |r| == n
  {
    data + seq(n - |data|, _ => zero)
  }

  lemma PaddedAt<T>(data: seq<T>, zero: T, n: nat, i: nat)
    requires |data| <= n && i < n
    ensures Padded(data, zero, n)[i] == if i < |data| then data[i] else zero
  {
  }

  /** Filling a padding slot with zero explicitly changes nothing. */
  lemma ZeroLeafChangesNothing<T>(combine: Combiner<T>, data: seq<T>, zero: T, depth: nat)
    requires |data| < Pow2(depth)
    ensures Padded(data + [zero], zero, Pow2(depth)) == Padded(data, zero, Pow2(depth))
    ensures PairwiseRoot(combine, Padded(data + [zero], zero, Pow2(depth)), depth)
         == PairwiseRoot(combine, Padded(data, zero, Pow2(depth)), depth)
  {
    hide PairwiseRoot, Pow2;
  }

  /** In a tree over three leaves the third is combined with zero. */
  lemma RootOfThree<T>(combine: Combiner<T>, a: T, b: T, c: T, zero: T)
    ensures Pow2(2) == 4
    ensures PairwiseRoot(combine, Padded([a, b, c], zero, 4), 2) == combine(combine(a, b), combine(c, zero))
  {
    var s := Padded([a, b, c], zero, 4);
    assert s == [a, b, c, zero];
    var t := PairUp(combine, s);
    assert t == [combine(a, b), combine(c, zero)];
    assert PairUp(combine, t) == [combine(combine(a, b), combine(c, zero))];
    assert Pow2(1) == 2 && Pow2(0) == 1;
    assert PairwiseRoot(combine, s, 2) == PairwiseRoot(combine, t, 1);
  }

  ghost predicate HeapOrdered<T>(combine: Combiner<T>, nodes: seq<T>, count: nat) {
    && count >= 1 && 2 * count <= |nodes|
    && forall k :: 1 <= k < count ==> nodes[k] == combine(nodes[2 * k], nodes[2 * k + 1])
  }

  /** Node 1 is the pairwise root of every level, in particular of the leaves. */
  lemma {:induction false} RootOfLevel<T>(combine: Combiner<T>, nodes: seq<T>, count: nat, depth: nat)
    requires HeapOrdered(combine, nodes, count) && Pow2(depth) <= count
    ensures nodes[1] == PairwiseRoot(combine, nodes[Pow2(depth)..2 * Pow2(depth)], depth)
    decreases depth
  {
    hide HeapOrdered, PairUp, PairwiseRoot, Pow2;
    HeapLength(combine, nodes, count);
    Pow2Unfold(depth);
    var level := nodes[Pow2(depth)..2 * Pow2(depth)];
    PairwiseUnfold(combine, level, depth);
    if depth != 0 {
      var h := Pow2(depth - 1);
      RootOfLevel(combine, nodes, count, depth - 1);
      LevelAbove(combine, nodes, count, h);
      assert level == nodes[2 * h..4 * h];
    }
  }

  lemma Pow2Unfold(depth: nat)
    ensures Pow2(depth) == if depth == 0 then 1 else 2 * Pow2(depth - 1)
  {
  }

  lemma {:induction false} PairwiseUnfold<T>(combine: Combiner<T>, s: seq<T>, depth: nat)
    requires |s| == Pow2(depth)
    ensures depth == 0 ==> PairwiseRoot(combine, s, depth) == s[0]
    ensures depth > 0 ==> PairwiseRoot(combine, s, depth) == PairwiseRoot(combine, PairUp(combine, s), depth - 1)
  {
  }

  lemma LevelAbove<T>(combine: Combiner<T>, nodes: seq<T>, count: nat, h: nat)
    requires HeapOrdered(combine, nodes, count) && 1 <= h && 2 * h <= count
    ensures PairUp(combine, nodes[2 * h..4 * h]) == nodes[h..2 * h]
  {
    var up := PairUp(combine, nodes[2 * h..4 * h]);
    forall i | 0 <= i < h ensures up[i] == nodes[h..2 * h][i] {
      assert nodes[h + i] == combine(nodes[2 * (h + i)], nodes[2 * (h + i) + 1]);
    }
  }

  // ---- Proofs ----

  datatype Proof<T> = Proof(path: seq<T>, leaf: T, leafIndex: nat)

  /** idx ^ 1 */
  function Sibling(idx: nat): nat {
    if idx % 2 == 0 then idx + 1 else idx - 1
  }

  /** The siblings on the way from a node to the root. */
  function PathFrom<T>(nodes: seq<T>, idx: nat): (path: seq<T>)
    requires Sibling(idx) < |nodes| && idx < |nodes|
  {
    if idx <= 1 then [] else [nodes[Sibling(idx)]] + PathFrom(nodes, idx / 2)
  }

  lemma PathFromStep<T>(nodes: seq<T>, path: seq<T>, idx: nat)
    requires idx > 1 && Sibling(idx) < |nodes| && idx < |nodes|
    ensures path + PathFrom(nodes, idx) == path + [nodes[Sibling(idx)]] + PathFrom(nodes, idx / 2)
  {
  }

  lemma PathFromRoot<T>(nodes: seq<T>)
    requires |nodes| >= 2
    ensures PathFrom(nodes, 1) == []
  {
  }

  /** A path with the sides that the bits of idx prescribe. */
  function Steps<T>(path: seq<T>, idx: nat): (s: seq<Step<T>>)
    ensures |s| == |path|
    decreases path
  {
    if path == [] then [] else [Step(path[0], idx % 2 == 0)] + Steps(path[1..], idx / 2)
  }

  lemma {:induction false} StepsDirections<T>(p: seq<T>, q: seq<T>, idx: nat)
    requires |p| == |q|
    ensures SameDirections(Steps(p, idx), Steps(q, idx))
    decreases p
  {
    if p != [] {
      StepsDirections(p[1..], q[1..], idx / 2);
    }
  }

  lemma {:induction false} PathClimbsToRoot<T>(combine: Combiner<T>, nodes: seq<T>, count: nat, idx: nat)
    requires HeapOrdered(combine, nodes, count) && 1 <= idx < 2 * count
    ensures Sibling(idx) < |nodes|
    ensures Climb(combine, nodes[idx], Steps(PathFrom(nodes, idx), idx)) == nodes[1]
  {
    if idx > 1 {
      var p := idx / 2;
      assert nodes[p] == combine(nodes[2 * p], nodes[2 * p + 1]);
      PathClimbsToRoot(combine, nodes, count, p);
      var path := PathFrom(nodes, idx);
      assert path[0] == nodes[Sibling(idx)] && path[1..] == PathFrom(nodes, p);
      var steps := Steps(path, idx);
      assert steps[0] == Step(path[0], idx % 2 == 0) && steps[1..] == Steps(path[1..], p);
      assert Apply(combine, nodes[idx], steps[0]) == nodes[p];
    }
  }

  /** The length of a leaf's path gives back the index at which the leaves start. */
  lemma {:induction false} PathLength<T>(nodes: seq<T>, depth: nat, idx: nat)
    requires Pow2(depth) <= idx < 2 * Pow2(depth) && Sibling(idx) < |nodes| && idx < |nodes|
    ensures |PathFrom(nodes, idx)| == depth
    decreases depth
  {
    if depth == 0 {
      assert idx == 1;
    } else {
      PathLength(nodes, depth - 1, idx / 2);
    }
  }

  /** The nodes of a built tree, as a sequence. */
  ghost predicate Represents<T>(combine: Combiner<T>, nodes: seq<T>, data: seq<T>, zero: T, depth: nat) {
    && depth <= 7 && |data| <= Pow2(depth) <= MAX_LEAVES
    && HeapOrdered(combine, nodes, Pow2(depth))
    && nodes[Pow2(depth)..2 * Pow2(depth)] == Padded(data, zero, Pow2(depth))
  }

  /** The proof that GenerateProof returns. */
  function ProofOf<T>(nodes: seq<T>, depth: nat, i: nat): Proof<T>
    requires Pow2(depth) + i < |nodes| && Sibling(Pow2(depth) + i) < |nodes|
  {
    Proof(PathFrom(nodes, Pow2(depth) + i), nodes[Pow2(depth) + i], i)
  }

  /** The root is the pairwise hash of the zero-padded leaves. */
  lemma RootIsPairwise<T>(combine: Combiner<T>, nodes: seq<T>, data: seq<T>, zero: T, depth: nat)
    requires Represents(combine, nodes, data, zero, depth)
    ensures nodes[1] == PairwiseRoot(combine, Padded(data, zero, Pow2(depth)), depth)
  {
    RootOfLevel(combine, nodes, Pow2(depth), depth);
  }

  lemma BuiltNodes<T>(combine: Combiner<T>, nodes: seq<T>, data: seq<T>, zero: T, cnt: nat)
    requires HeapOrdered(combine, nodes, cnt) && |data| <= cnt && nodes[cnt..2 * cnt] == Padded(data, zero, cnt)
    ensures 2 * cnt <= |nodes|
    ensures forall i :: 0 <= i < |data| ==> nodes[cnt + i] == data[i]
    ensures forall k :: cnt + |data| <= k < 2 * cnt ==> nodes[k] == zero
    ensures forall k :: 1 <= k < cnt ==> nodes[k] == combine(nodes[2 * k], nodes[2 * k + 1])
  {
    forall k | cnt <= k < 2 * cnt ensures nodes[k] == if k < cnt + |data| then data[k - cnt] else zero {
      PaddedAt(data, zero, cnt, k - cnt);
      assert nodes[k] == nodes[cnt..2 * cnt][k - cnt];
    }
  }

  class Tree<T(==)> {
    const combine: Combiner<T>
    const zero: T
    const nodes: array<T>
    var root: T
    var numLeaves: nat
    var depth: nat

    constructor (combine: Combiner<T>, zero: T)
      ensures this.combine == combine && this.zero == zero
      ensures nodes.Length == 2 * MAX_LEAVES && fresh(nodes)
    {
      this.combine, this.zero, root := combine, zero, zero;
      nodes := new T[2 * MAX_LEAVES](_ => zero);
      numLeaves, depth := 0, 0;
    }

    /** A built tree over the given data. */
    ghost predicate Holds(data: seq<T>)
      reads this, nodes
    {
      && nodes.Length == 2 * MAX_LEAVES
      && numLeaves == |data| && depth >= 1 && (depth > 1 ==> Pow2(depth - 2) < |data|)
      && Represents(combine, nodes[..], data, zero, depth - 1)
      && root == nodes[1]
    }

    method Build(data: seq<T>) returns (status: int)
      requires nodes.Length == 2 * MAX_LEAVES
      modifies this, nodes
      ensures status == if |data| > MAX_LEAVES then -1 else 0
      ensures status != 0 ==> unchanged(this) && unchanged(nodes)
      ensures status == 0 ==> Holds(data)
      ensures status == 0 ==>
                var cnt := Pow2(depth - 1);
                && numLeaves == |data| <= cnt && 2 * cnt <= nodes.Length
                && (forall i :: 0 <= i < |data| ==> nodes[cnt + i] == data[i])
                && (forall k :: cnt + |data| <= k < 2 * cnt ==> nodes[k] == zero)
                && (forall k :: 1 <= k < cnt ==> nodes[k] == combine(nodes[2 * k], nodes[2 * k + 1]))
                && root == nodes[1]
    {
      if |data| > MAX_LEAVES {
        return -1;
      }
      hide Pow2, HeapOrdered, Padded;
      var d, cnt := PaddedCount(|data|);
      numLeaves := |data|;
      depth := d;
      FillLeaves(data, cnt);
      HashLevels(cnt);
      root := nodes[1];
      ghost var s := nodes[..];
      assert s[cnt..2 * cnt] == nodes[cnt..2 * cnt];
      BuiltNodes(combine, s, data, zero, cnt);
      return 0;
    }

    /** The data, then zeros up to the padded count. */
    method FillLeaves(data: seq<T>, cnt: nat)
      requires 1 <= cnt && |data| <= cnt && 2 * cnt <= nodes.Length
      modifies nodes
      ensures nodes[cnt..2 * cnt] == Padded(data, zero, cnt)
    {
      ghost var leaves := Padded(data, zero, cnt);
      for i := 0 to |data|
        invariant forall k :: cnt <= k < cnt + i ==> nodes[k] == leaves[k - cnt]
      {
        nodes[cnt + i] := data[i];
      }
      for i := |data| to cnt
        invariant forall k :: cnt <= k < cnt + i ==> nodes[k] == leaves[k - cnt]
      {
        nodes[cnt + i] := zero;
      }
    }

    /** Inner nodes, bottom-up. */
    method HashLevels(cnt: nat)
      requires 1 <= cnt && 2 * cnt <= nodes.Length
      modifies nodes
      ensures HeapOrdered(combine, nodes[..], cnt)
      ensures nodes[cnt..2 * cnt] == old(nodes[cnt..2 * cnt])
    {
      var level := cnt - 1;
      while level >= 1
        invariant 0 <= level < cnt
        invariant forall k :: cnt <= k < 2 * cnt ==> nodes[k] == old(nodes[k])
        invariant forall k :: level < k < cnt ==> nodes[k] == combine(nodes[2 * k], nodes[2 * k + 1])
      {
        nodes[level] := combine(nodes[level * 2], nodes[level * 2 + 1]);
        level := level - 1;
      }
    }

    method GenerateProof(leafIndex: nat, ghost data: seq<T>) returns (proof: Option<Proof<T>>)
      requires Holds(data)
      ensures proof.None? <==> leafIndex >= |data|
      ensures proof.Some? ==>
                && Pow2(depth - 1) + leafIndex < 2 * Pow2(depth - 1) <= nodes.Length
                && proof.value == ProofOf(nodes[..], depth - 1, leafIndex)
    {
      hide Pow2, HeapOrdered, Padded, PathFrom;
      if leafIndex >= numLeaves {
        return None;
      }
      var d, cnt := PaddedCount(numLeaves);
      CapacityUnique(d, depth, numLeaves);
      var path := CollectPath(nodes, cnt + leafIndex);
      return Some(Proof(path, nodes[cnt + leafIndex], leafIndex));
    }
  }

  /** The loop of `ca_merkle_generate_proof`. */
  method CollectPath<T>(nodes: array<T>, start: nat) returns (path: seq<T>)
    requires 1 <= start < nodes.Length && nodes.Length % 2 == 0
    ensures path == PathFrom(nodes[..], start)
  {
    hide PathFrom;
    ghost var view := nodes[..];
    path := [];
    var idx := start;
    while idx > 1
      invariant 1 <= idx < nodes.Length
      invariant path + PathFrom(view, idx) == PathFrom(view, start)
    {
      PathFromStep(view, path, idx);
      path := path + [nodes[Sibling(idx)]];
      idx := idx / 2;
    }
    PathFromRoot(view);
  }

  /** The next power of two, found by doubling, and the depth counted along the way. */
  method PaddedCount(n: nat) returns (depth: nat, count: nat)
    requires n <= MAX_LEAVES
    ensures 1 <= depth <= 8 && count == Pow2(depth - 1) && n <= count <= MAX_LEAVES
    ensures depth > 1 ==> Pow2(depth - 2) < n
  {
    depth, count := 1, 1;
    while count < n
      invariant 1 <= depth <= 8 && count == Pow2(depth - 1) && count <= MAX_LEAVES
      invariant depth > 1 ==> Pow2(depth - 2) < n
    {
      assert Pow2(7) == 128 && Pow2(6) == 64;
      Pow2Monotone(depth - 1, 7);
      count := count * 2;
      depth := depth + 1;
    }
  }

  lemma {:induction false} Pow2Monotone(a: nat, b: nat)
    requires a <= b
    ensures Pow2(a) <= Pow2(b)
  {
    if a < b {
      Pow2Monotone(a, b - 1);
    }
  }

  lemma CapacityUnique(d: nat, e: nat, n: nat)
    requires d >= 1 && e >= 1 && n <= Pow2(d - 1) && n <= Pow2(e - 1)
    requires (d > 1 ==> Pow2(d - 2) < n) && (e > 1 ==> Pow2(e - 2) < n)
    ensures d == e
  {
    if d < e {
      Pow2Monotone(d - 1, e - 2);
    } else if e < d {
      Pow2Monotone(e - 1, d - 2);
    }
  }

  /** The index at which the verifier starts; the addition is on uint32. */
  function StartIndex(leafIndex: nat, pathLength: nat): nat {
    (leafIndex + Pow2(pathLength)) % UINT32
  }

  lemma StartIndexWraps(leafIndex: nat, pathLength: nat)
    requires leafIndex < 0x1_0000_0000 && pathLength < 32
    ensures StartIndex(leafIndex, pathLength)
         == var sum := leafIndex + Pow2(pathLength); if sum < 0x1_0000_0000 then sum else sum - 0x1_0000_0000
  {
    hide Pow2;
    Pow2Monotone(pathLength, 31);
    Pow2Large();
  }

  lemma Pow2Large()
    ensures Pow2(31) == 0x8000_0000
  {
    assert Pow2(8) == 256 && Pow2(16) == 65536 && Pow2(24) == 0x100_0000;
  }

  /** `ca_merkle_verify_proof` */
  method VerifyProof<T(==)>(combine: Combiner<T>, proof: Proof<T>, root: T) returns (status: int)
    requires |proof.path| < 32
    ensures status == 0 || status == -1
    ensures status == 0 <==> Accepts(combine, proof, root)
  {
    var current := proof.leaf;
    var idx := StartIndex(proof.leafIndex, |proof.path|);
    ghost var start := idx;
    for i := 0 to |proof.path|
      invariant Climb(combine, current, Steps(proof.path[i..], idx))
             == Climb(combine, proof.leaf, Steps(proof.path, start))
    {
      ghost var rest := proof.path[i..];
      assert rest[0] == proof.path[i] && rest[1..] == proof.path[i + 1..];
      assert Steps(rest, idx)[0] == Step(proof.path[i], idx % 2 == 0);
      assert Steps(rest, idx)[1..] == Steps(rest[1..], idx / 2);
      if idx % 2 == 1 {
        current := combine(proof.path[i], current);
      } else {
        current := combine(current, proof.path[i]);
      }
      idx := idx / 2;
    }
    assert proof.path[|proof.path|..] == [];
    status := if current == root then 0 else -1;
  }

  ghost predicate Accepts<T>(combine: Combiner<T>, proof: Proof<T>, root: T) {
    Climb(combine, proof.leaf, Steps(proof.path, StartIndex(proof.leafIndex, |proof.path|))) == root
  }

  // ---- Completeness and binding ----

  lemma HeapLength<T>(combine: Combiner<T>, nodes: seq<T>, count: nat)
    requires HeapOrdered(combine, nodes, count)
    ensures 2 * count <= |nodes| && forall idx :: 0 <= idx < 2 * count ==> Sibling(idx) < |nodes|
  {
  }

  lemma StartIsNodeIndex(depth: nat, i: nat)
    requires depth <= 7 && i < Pow2(depth)
    ensures StartIndex(i, depth) == Pow2(depth) + i
  {
    hide Pow2;
    Pow2Monotone(depth, 7);
    Pow2Seven();
  }

  lemma Pow2Seven()
    ensures Pow2(6) == 64 && Pow2(7) == 128
  {
  }

  /** Every generated proof verifies, and proves the datum at its index. */
  lemma GeneratedProofVerifies<T>(combine: Combiner<T>, nodes: seq<T>, data: seq<T>, zero: T, depth: nat, i: nat)
    requires Represents(combine, nodes, data, zero, depth) && i < |data|
    ensures Pow2(depth) + i < |nodes| && Sibling(Pow2(depth) + i) < |nodes|
    ensures ProofOf(nodes, depth, i).leaf == data[i]
    ensures |ProofOf(nodes, depth, i).path| == depth
    ensures Accepts(combine, ProofOf(nodes, depth, i), nodes[1])
  {
    hide Pow2, HeapOrdered, PathFrom, Steps, Climb;
    var c := Pow2(depth);
    HeapLength(combine, nodes, c);
    assert nodes[c + i] == nodes[c..2 * c][i];
    PathClimbsToRoot(combine, nodes, c, c + i);
    PathLength(nodes, depth, c + i);
    StartIsNodeIndex(depth, i);
  }

  /**
   Any accepted proof for position i, of the right length, carries the datum at i, or else its
   climb and that of the generated proof combine different inputs to the same hash at some level.
   */
  lemma AcceptedLeafIsDatum<T>(combine: Combiner<T>, nodes: seq<T>, data: seq<T>, zero: T, depth: nat, proof: Proof<T>)
      returns (i: nat)
    requires Represents(combine, nodes, data, zero, depth)
    requires proof.leafIndex < |data| && |proof.path| == depth && Accepts(combine, proof, nodes[1])
    ensures Pow2(depth) + proof.leafIndex < |nodes| && Sibling(Pow2(depth) + proof.leafIndex) < |nodes|
    ensures var honest := ProofOf(nodes, depth, proof.leafIndex);
            var start := StartIndex(proof.leafIndex, depth);
            || proof.leaf == data[proof.leafIndex]
            || (&& i < |honest.path| == depth
                && Collision(combine, CombinedAt(combine, proof.leaf, Steps(proof.path, start), i),
                             CombinedAt(combine, data[proof.leafIndex], Steps(honest.path, start), i)))
  {
    i := 0;
    hide Steps, Climb, HeapOrdered;
    GeneratedProofVerifies(combine, nodes, data, zero, depth, proof.leafIndex);
    var honest := ProofOf(nodes, depth, proof.leafIndex);
    var start := StartIndex(proof.leafIndex, depth);
    StepsDirections(proof.path, honest.path, start);
    if proof.leaf != honest.leaf {
      i := ExtractCollision(combine, proof.leaf, Steps(proof.path, start), honest.leaf, Steps(honest.path, start));
    }
  }

  /** Building, proving and verifying, as calls. */
  method ProofRound<T(==)>(tree: Tree<T>, data: seq<T>, i: nat) returns (status: int)
    requires tree.nodes.Length == 2 * MAX_LEAVES && i < |data| <= MAX_LEAVES
    modifies tree, tree.nodes
    ensures status == 0
  {
    hide Represents, Accepts, ProofOf, Pow2;
    var _ := tree.Build(data);
    var proof := tree.GenerateProof(i, data);
    GeneratedProofVerifies(tree.combine, tree.nodes[..], data, tree.zero, tree.depth - 1, i);
    DepthBound(tree.combine, tree.nodes[..], data, tree.zero, tree.depth - 1);
    status := VerifyProof(tree.combine, proof.value, tree.root);
  }

  lemma DepthBound<T>(combine: Combiner<T>, nodes: seq<T>, data: seq<T>, zero: T, depth: nat)
    requires Represents(combine, nodes, data, zero, depth)
    ensures depth <= 7
  {
  }

  // ---- The combination that the program uses ----

  const NODE_BYTES := 32

  type Node = s: Bytes | |s| == NODE_BYTES witness seq(NODE_BYTES, _ => 0)

  function Salt(i: nat): bv8 {
    (i * 31 % 256) as bv8
  }

  /** In one byte: the ninth step of 31 is the first that wraps. */
  lemma SaltLaw()
    ensures Salt(0) == 0 && Salt(1) == 31 && Salt(9) == 23
  {
    assert 279 % 256 == 23;
  }

  /** `ca_merkle_node_combine` */
  function XorCombine(left: Node, right: Node): Node {
    seq(NODE_BYTES, i requires 0 <= i < NODE_BYTES => left[i] ^ right[i] ^ Salt(i))
  }

  /** The sibling with which b combines to what a and s combine to. */
  function Compensated(a: Node, s: Node, b: Node): Node {
    seq(NODE_BYTES, i requires 0 <= i < NODE_BYTES => a[i] ^ s[i] ^ b[i])
  }

  lemma Compensates(a: Node, s: Node, b: Node)
    ensures XorCombine(b, Compensated(a, s, b)) == XorCombine(a, s)
    ensures XorCombine(Compensated(a, s, b), b) == XorCombine(s, a)
  {
    hide Salt;
  }

  /**
   With this combination a path of full length exists for every leaf value, so only in a tree
   that consists of a single node does acceptance say anything about the leaf.
   */
  lemma XorAcceptsIff(nodes: seq<Node>, data: seq<Node>, zero: Node, depth: nat, i: nat, leaf: Node)
      returns (path: seq<Node>)
    requires Represents(XorCombine, nodes, data, zero, depth) && i < |data|
    ensures |path| == depth
    ensures Accepts(XorCombine, Proof(path, leaf, i), nodes[1]) <==> depth >= 1 || leaf == data[i]
  {
    GeneratedProofVerifies(XorCombine, nodes, data, zero, depth, i);
    var honest := ProofOf(nodes, depth, i);
    if depth == 0 {
      path := [];
    } else {
      path := [Compensated(honest.leaf, honest.path[0], leaf)] + honest.path[1..];
      Compensates(honest.leaf, honest.path[0], leaf);
    }
  }
}
