/**
 The pointer Merkle tree of merkle_tree.c: nodes with child and parent links, breadth-first
 attachment of a new leaf, and a rebuild that relinks the leaves under fresh parents.
 A ghost `Shape` records which nodes a linked structure consists of.
 */
module PointerMerkle {
  import opened MachineArithmetic
  import opened MerklePaths
  import opened MerkleValues
  import opened Primes

  class Node {
    var hash: Bytes
    var left: Node?
    var right: Node?
    var parent: Node?
    const isLeaf: bool
    const data: Bytes

    constructor MakeLeaf(data: Bytes, hash: Bytes)
      ensures isLeaf && this.data == data && this.hash == hash
      ensures left == null && right == null && parent == null
    {
      isLeaf, this.data, this.hash := true, data, hash;
      left, right, parent := null, null, null;
    }

    constructor MakeInner(left: Node, right: Node?, hash: Bytes)
      ensures !isLeaf && this.hash == hash && this.left == left && this.right == right && parent == null
    {
      isLeaf, data, this.hash := false, [], hash;
      this.left, this.right, parent := left, right, null;
    }
  }

  datatype Shape = Empty | Fork(node: Node, l: Shape, r: Shape)

  ghost function Nodes(s: Shape): set<Node> {
    if s.Empty? then {} else {s.node} + Nodes(s.l) + Nodes(s.r)
  }

  ghost function Top(s: Shape): Node? {
    if s.Empty? then null else s.node
  }

  /** The child links are those of the shape. */
  ghost predicate Links(s: Shape)
    reads Nodes(s)`left, Nodes(s)`right
  {
    s.Fork? ==> && s.node.left == Top(s.l) && s.node.right == Top(s.r)
                && Links(s.l) && Links(s.r)
  }

  // ---- Traversal: the leaves in order ----

  ghost function Self(n: Node): seq<Node> {
    if n.isLeaf then [n] else []
  }

  ghost function LeafNodes(s: Shape): seq<Node> {
    if s.Empty? then [] else LeafNodes(s.l) + Self(s.node) + LeafNodes(s.r)
  }

  ghost function Size(s: Shape): nat {
    if s.Empty? then 0 else 1 + Size(s.l) + Size(s.r)
  }

  /** What a traversal has still to visit for the nodes on its stack. */
  ghost function Pending(stack: seq<Shape>): seq<Node> {
    if stack == [] then []
    else
      var s := stack[|stack| - 1];
      (if s.Fork? then Self(s.node) + LeafNodes(s.r) else []) + Pending(stack[..|stack| - 1])
  }

  ghost function PendingSize(stack: seq<Shape>): nat {
    if stack == [] then 0
    else
      var s := stack[|stack| - 1];
      (if s.Fork? then 1 + 2 * Size(s.r) else 0) + PendingSize(stack[..|stack| - 1])
  }

  /** The stack of nodes and the shapes it stands for. */
  ghost predicate OnStack(stack: seq<Node>, shapes: seq<Shape>)
    reads set s, n | s in shapes && n in Nodes(s) :: n
  {
    && |stack| == |shapes|
    && forall i :: 0 <= i < |stack| ==> shapes[i].Fork? && shapes[i].node == stack[i] && Links(shapes[i])
  }

  lemma Push(s: Shape, shapes: seq<Shape>)
    requires s.Fork?
    ensures LeafNodes(s) + Pending(shapes) == LeafNodes(s.l) + Pending(shapes + [s])
    ensures 2 * Size(s) + PendingSize(shapes) == 1 + 2 * Size(s.l) + PendingSize(shapes + [s])
    ensures Size(s.l) < Size(s)
  {
    assert (shapes + [s])[..|shapes|] == shapes;
  }

  lemma Pop(shapes: seq<Shape>)
    requires shapes != [] && shapes[|shapes| - 1].Fork?
    ensures var s, rest := shapes[|shapes| - 1], shapes[..|shapes| - 1];
            && Pending(shapes) == Self(s.node) + LeafNodes(s.r) + Pending(rest)
            && PendingSize(shapes) == 1 + 2 * Size(s.r) + PendingSize(rest)
  {
  }

  lemma Done()
    ensures LeafNodes(Empty) == [] && Size(Empty) == 0 && Pending([]) == [] && PendingSize([]) == 0
  {
  }

  lemma LinksUnfold(s: Shape)
    requires Links(s)
    ensures s.Fork? ==> s.node.left == Top(s.l) && s.node.right == Top(s.r) && Links(s.l) && Links(s.r)
  {
  }

  /** Pushing a node on the stack, on the way to its left child. */
  lemma PushNode(stack: seq<Node>, shapes: seq<Shape>, s: Shape)
    requires OnStack(stack, shapes) && s.Fork? && Links(s)
    ensures OnStack(stack + [s.node], shapes + [s]) && s.node.left == Top(s.l) && Links(s.l)
  {
  }

  /** Popping a node from the stack, on the way to its right child. */
  lemma PopNode(stack: seq<Node>, shapes: seq<Shape>)
    requires OnStack(stack, shapes) && stack != []
    ensures |shapes| == |stack| && OnStack(stack[..|stack| - 1], shapes[..|stack| - 1])
    ensures var s := shapes[|stack| - 1];
            s.Fork? && s.node == stack[|stack| - 1] && s.node.right == Top(s.r) && Links(s.r)
  {
  }

  /** The inner loop of the walks: push the node and its chain of left children. */
  method Descend(node: Node?, stack: seq<Node>, ghost rest: Shape, ghost shapes: seq<Shape>)
      returns (newStack: seq<Node>, ghost newShapes: seq<Shape>)
    requires node == Top(rest) && Links(rest) && OnStack(stack, shapes)
    ensures OnStack(newStack, newShapes) && (node != null || |stack| > 0 ==> |newStack| > 0)
    ensures Pending(newShapes) == LeafNodes(rest) + Pending(shapes)
    ensures PendingSize(newShapes) <= 2 * Size(rest) + PendingSize(shapes)
  {
    hide Links, LeafNodes, Pending, PendingSize, Size, OnStack;
    Done();
    newStack, newShapes := stack, shapes;
    var cur := node;
    ghost var s := rest;
    while cur != null
      invariant cur == Top(s) && Links(s) && OnStack(newStack, newShapes)
      invariant LeafNodes(s) + Pending(newShapes) == LeafNodes(rest) + Pending(shapes)
      invariant 2 * Size(s) + PendingSize(newShapes) <= 2 * Size(rest) + PendingSize(shapes)
      invariant node != null || |stack| > 0 ==> |newStack| > 0 || cur != null
      decreases Size(s)
    {
      PushNode(newStack, newShapes, s);
      Push(s, newShapes);
      newStack := newStack + [cur];
      newShapes := newShapes + [s];
      cur := cur.left;
      s := s.l;
    }
  }

  /** Visiting a node moves it, if it is a leaf, from what is pending to what was seen. */
  lemma Visit(seen: seq<Node>, cur: Node, right: seq<Node>, pending: seq<Node>, all: seq<Node>)
    requires seen + (Self(cur) + right + pending) == all
    ensures (seen + Self(cur)) + (right + pending) == all
    ensures cur.isLeaf ==> |seen| < |all| && all[|seen|] == cur
  {
    if cur.isLeaf {
      assert all[|seen|] == (Self(cur) + right + pending)[0] == cur;
    }
  }

  /** The in-order walk with an explicit stack. */
  method CollectLeaves(root: Node?, ghost shape: Shape) returns (leaves: seq<Node>)
    requires Links(shape) && root == Top(shape)
    ensures leaves == LeafNodes(shape)
  {
    hide Links, LeafNodes, Pending, PendingSize, Size, OnStack;
    Done();
    leaves := [];
    var stack: seq<Node> := [];
    ghost var rest, shapes: seq<Shape> := shape, [];
    assert OnStack(stack, shapes) by { EmptyStack(); }
    var cur := root;
    while cur != null || |stack| > 0
      invariant cur == Top(rest) && Links(rest) && OnStack(stack, shapes)
      invariant |shapes| == |stack| && leaves + (LeafNodes(rest) + Pending(shapes)) == LeafNodes(shape)
      decreases 2 * Size(rest) + PendingSize(shapes)
    {
      stack, shapes := Descend(cur, stack, rest, shapes);
      PopNode(stack, shapes);
      Pop(shapes);
      ghost var s := shapes[|shapes| - 1];
      cur := stack[|stack| - 1];
      stack := stack[..|stack| - 1];
      shapes := shapes[..|shapes| - 1];
      Visit(leaves, cur, LeafNodes(s.r), Pending(shapes), LeafNodes(shape));
      if cur.isLeaf {
        leaves := leaves + [cur];
      }
      cur := cur.right;
      rest := s.r;
    }
  }

  lemma EmptyStack()
    ensures OnStack([], [])
  {
  }

  /** Looking up a leaf by its position in the walk. */
  method NthLeaf(root: Node?, index: nat, ghost shape: Shape) returns (leaf: Node?)
    requires Links(shape) && root == Top(shape)
    ensures leaf == if index < |LeafNodes(shape)| then LeafNodes(shape)[index] else null
  {
    hide Links, LeafNodes, Pending, PendingSize, Size, OnStack;
    Done();
    var idx := 0;
    var stack: seq<Node> := [];
    ghost var rest, shapes: seq<Shape>, seen: seq<Node> := shape, [], [];
    assert OnStack(stack, shapes) by { EmptyStack(); }
    var cur := root;
    while cur != null || |stack| > 0
      invariant cur == Top(rest) && Links(rest) && OnStack(stack, shapes) && |shapes| == |stack|
      invariant seen + (LeafNodes(rest) + Pending(shapes)) == LeafNodes(shape) && idx == |seen| <= index
      decreases 2 * Size(rest) + PendingSize(shapes)
    {
      stack, shapes := Descend(cur, stack, rest, shapes);
      PopNode(stack, shapes);
      Pop(shapes);
      ghost var s := shapes[|shapes| - 1];
      cur := stack[|stack| - 1];
      stack := stack[..|stack| - 1];
      shapes := shapes[..|shapes| - 1];
      Visit(seen, cur, LeafNodes(s.r), Pending(shapes), LeafNodes(shape));
      if cur.isLeaf {
        if idx == index {
          return cur;
        }
        idx := idx + 1;
        seen := seen + [cur];
      }
      cur := cur.right;
      rest := s.r;
    }
    return null;
  }

  // ---- Trees ----

  /** No node occurs twice. */
  ghost predicate IsTree(s: Shape) {
    s.Fork? ==>
      && s.node !in Nodes(s.l) + Nodes(s.r) && Nodes(s.l) !! Nodes(s.r)
      && IsTree(s.l) && IsTree(s.r)
  }

  /** Leaves have no children, inner nodes have a left child. */
  ghost predicate Proper(s: Shape) {
    && s.Fork?
    && if s.node.isLeaf then s.l.Empty? && s.r.Empty?
       else Proper(s.l) && (s.r.Empty? || Proper(s.r))
  }

  ghost function Value(s: Shape): HTree
    requires Proper(s)
  {
    if s.node.isLeaf then Leaf(s.node.data)
    else if s.r.Empty? then One(Value(s.l))
    else Two(Value(s.l), Value(s.r))
  }

  /** Every node stores the hash of the subtree below it. */
  ghost predicate Hashes(h: Hasher, s: Shape)
    requires Proper(s)
    reads Nodes(s)`hash
  {
    && s.node.hash == Hash(h, Value(s))
    && (s.l.Fork? ==> Hashes(h, s.l)) && (s.r.Fork? ==> Hashes(h, s.r))
  }

  ghost predicate ParentLinks(s: Shape, parent: Node?)
    reads Nodes(s)`parent
  {
    s.Fork? ==> s.node.parent == parent && ParentLinks(s.l, s.node) && ParentLinks(s.r, s.node)
  }

  ghost function DataOf(nodes: seq<Node>): (d: seq<Bytes>)
    ensures |d| == |nodes|
  {
    seq(|nodes|, i requires 0 <= i < |nodes| => nodes[i].data)
  }

  lemma DataOfConcat(a: seq<Node>, b: seq<Node>)
    ensures DataOf(a + b) == DataOf(a) + DataOf(b)
  {
  }

  lemma {:induction false} LeafNodesCarryLeaves(s: Shape)
    requires Proper(s)
    ensures DataOf(LeafNodes(s)) == Leaves(Value(s))
  {
    if s.node.isLeaf {
      assert LeafNodes(s) == [s.node];
    } else {
      LeafNodesCarryLeaves(s.l);
      assert LeafNodes(s) == LeafNodes(s.l) + LeafNodes(s.r);
      hide DataOf;
      DataOfConcat(LeafNodes(s.l), LeafNodes(s.r));
      if s.r.Fork? {
        LeafNodesCarryLeaves(s.r);
      } else {
        assert LeafNodes(s) == LeafNodes(s.l);
      }
    }
  }

  lemma {:induction false} LeafNodesInside(s: Shape)
    ensures forall n :: n in LeafNodes(s) ==> n in Nodes(s) && n.isLeaf
  {
    if s.Fork? {
      LeafNodesInside(s.l);
      LeafNodesInside(s.r);
    }
  }

  lemma DistinctConcat(a: seq<Node>, b: seq<Node>)
    requires NoDuplicates(a) && NoDuplicates(b) && forall n :: n in a ==> n !in b
    ensures NoDuplicates(a + b)
  {
    forall i, j | 0 <= i < j < |a + b| ensures (a + b)[i] != (a + b)[j] {
      if i < |a| && |a| <= j {
        assert a[i] in a && b[j - |a|] in b;
      }
    }
  }

  lemma {:induction false} LeafNodesDistinct(s: Shape)
    requires IsTree(s)
    ensures NoDuplicates(LeafNodes(s))
  {
    if s.Fork? {
      LeafNodesDistinct(s.l);
      LeafNodesDistinct(s.r);
      LeafNodesInside(s.l);
      LeafNodesInside(s.r);
      DistinctConcat(LeafNodes(s.l), Self(s.node));
      DistinctConcat(LeafNodes(s.l) + Self(s.node), LeafNodes(s.r));
    }
  }

  // ---- Attaching a leaf, breadth first ----

  ghost function ForestSize(q: seq<Shape>): nat {
    if q == [] then 0 else Size(q[0]) + ForestSize(q[1..])
  }

  lemma {:induction false} ForestSizeConcat(a: seq<Shape>, b: seq<Shape>)
    ensures ForestSize(a + b) == ForestSize(a) + ForestSize(b)
  {
    if a == [] {
      assert a + b == b;
    } else {
      ForestSizeConcat(a[1..], b);
      assert (a + b)[1..] == a[1..] + b;
    }
  }

  ghost predicate Forks(q: seq<Shape>) {
    forall i :: 0 <= i < |q| ==> q[i].Fork?
  }

  /** What replaces the head of the queue: its children are appended. */
  ghost function Advance(q: seq<Shape>): (r: seq<Shape>)
    requires q != [] && q[0].Fork?
  {
    q[1..] + [q[0].l, q[0].r]
  }

  lemma AdvanceShrinks(q: seq<Shape>)
    requires q != [] && q[0].Fork?
    ensures ForestSize(Advance(q)) < ForestSize(q)
  {
    ForestSizeConcat(q[1..], [q[0].l, q[0].r]);
    assert [q[0].l, q[0].r][1..] == [q[0].r] && [q[0].r][1..] == [];
    assert ForestSize([q[0].r]) == Size(q[0].r);
  }

  /** The first node, in breadth-first order, that lacks a child. */
  ghost function Slot(q: seq<Shape>): Node
    requires q != [] && Forks(q)
    decreases ForestSize(q)
  {
    if q[0].l.Empty? || q[0].r.Empty? then q[0].node
    else
      AdvanceShrinks(q);
      Slot(Advance(q))
  }

  /** The queue of nodes and the shapes it stands for. */
  ghost predicate Queued(queue: seq<Node>, q: seq<Shape>)
    reads set s, n | s in q && n in Nodes(s) :: n
  {
    && |queue| == |q|
    && forall i :: 0 <= i < |q| ==> q[i].Fork? && q[i].node == queue[i] && Links(q[i])
  }

  /** The search loop of `merkle_tree_add_leaf`. */
  method FindSlot(root: Node, ghost shape: Shape) returns (slot: Node)
    requires shape.Fork? && shape.node == root && Links(shape)
    ensures slot == Slot([shape]) && (slot.left == null || slot.right == null)
  {
    hide Links, Slot, Size, ForestSize;
    var queue: seq<Node> := [root];
    ghost var q := [shape];
    while true
      invariant queue != [] && Queued(queue, q) && Slot(q) == Slot([shape])
      decreases ForestSize(q)
    {
      var cur := queue[0];
      LinksUnfold(q[0]);
      SlotUnfold(q);
      if cur.left == null || cur.right == null {
        return cur;
      }
      AdvanceShrinks(q);
      queue := queue[1..] + [cur.left, cur.right];
      q := Advance(q);
    }
  }

  lemma SlotUnfold(q: seq<Shape>)
    requires q != [] && Forks(q)
    ensures Slot(q) == if q[0].l.Empty? || q[0].r.Empty? then q[0].node else Slot(Advance(q))
  {
    if q[0].l.Fork? && q[0].r.Fork? {
      AdvanceShrinks(q);
    }
  }

  // ---- Where the slot is, in a built tree ----

  ghost predicate FullShape(s: Shape, d: nat) {
    Proper(s) && Full(Value(s), d)
  }

  ghost predicate PackedShape(s: Shape, d: nat) {
    Proper(s) && Packed(Value(s), d)
  }

  ghost predicate AllFull(q: seq<Shape>, d: nat) {
    forall i :: 0 <= i < |q| ==> FullShape(q[i], d)
  }

  ghost function FirstLeaf(s: Shape): Node
    requires s.Fork?
  {
    if s.l.Empty? then s.node else FirstLeaf(s.l)
  }

  /** The highest node with a lone child on the right spine. */
  ghost function LoneOnSpine(s: Shape): Node
    requires s.Fork?
  {
    if s.r.Empty? then s.node else LoneOnSpine(s.r)
  }

  /** In a full tree the search ends at the first leaf; a is a level, b its successors so far. */
  lemma {:induction false} SlotOfFull(a: seq<Shape>, b: seq<Shape>, d: nat)
    requires a != [] && AllFull(a, d) && (if d == 0 then b == [] else AllFull(b, d - 1))
    ensures Forks(a + b) && Slot(a + b) == FirstLeaf(if b != [] then b[0] else a[0])
    decreases d, |a|
  {
    hide Slot;
    SlotUnfold(a + b);
    if d != 0 {
      var rest, next := a[1..], b + [a[0].l, a[0].r];
      assert Advance(a + b) == rest + next;
      assert FullShape(a[0].l, d - 1) && FullShape(a[0].r, d - 1);
      if rest != [] {
        SlotOfFull(rest, next, d);
      } else {
        assert rest + next == next + [];
        SlotOfFull(next, [], d - 1);
      }
    }
  }

  /** Otherwise it ends at the highest lone parent, which lies on the right spine of p. */
  lemma {:induction false} SlotOfPacked(a: seq<Shape>, p: Shape, b: seq<Shape>, d: nat)
    requires d > 0 && AllFull(a, d) && PackedShape(p, d) && !FullShape(p, d) && AllFull(b, d - 1)
    ensures Forks(a + [p] + b) && Slot(a + [p] + b) == LoneOnSpine(p)
    decreases d, |a|
  {
    hide Slot;
    var q := a + [p] + b;
    SlotUnfold(q);
    if a != [] {
      var next := b + [a[0].l, a[0].r];
      assert Advance(q) == a[1..] + [p] + next;
      assert FullShape(a[0].l, d - 1) && FullShape(a[0].r, d - 1);
      SlotOfPacked(a[1..], p, next, d);
    } else if p.r.Fork? {
      assert Advance(q) == (b + [p.l]) + [p.r] + [];
      assert FullShape(p.l, d - 1) && PackedShape(p.r, d - 1);
      assert FullShape(p.r, d - 1) ==> FullShape(p, d);
      assert d != 1;
      SlotOfPacked(b + [p.l], p.r, [], d - 1);
    }
  }

  /** The shape after the new leaf took the first free child of the target. */
  ghost function Attach(s: Shape, target: Node, x: Shape): Shape {
    if s.Empty? then s
    else if s.node != target then Fork(s.node, Attach(s.l, target, x), Attach(s.r, target, x))
    else if s.l.Empty? then Fork(s.node, x, s.r)
    else Fork(s.node, s.l, x)
  }

  lemma {:induction false} AttachAbsent(s: Shape, target: Node, x: Shape)
    requires target !in Nodes(s)
    ensures Attach(s, target, x) == s
  {
    if s.Fork? {
      AttachAbsent(s.l, target, x);
      AttachAbsent(s.r, target, x);
    }
  }

  lemma {:induction false} FirstLeafInside(s: Shape)
    requires s.Fork?
    ensures FirstLeaf(s) in Nodes(s)
  {
    if s.l.Fork? {
      FirstLeafInside(s.l);
    }
  }

  lemma {:induction false} LoneOnSpineInside(s: Shape)
    requires s.Fork?
    ensures LoneOnSpine(s) in Nodes(s)
  {
    if s.r.Fork? {
      LoneOnSpineInside(s.r);
    }
  }

  /** A leaf attached to the first leaf comes first in the walk. */
  lemma {:induction false} AttachFirst(s: Shape, x: Shape)
    requires Proper(s) && IsTree(s)
    ensures LeafNodes(Attach(s, FirstLeaf(s), x)) == LeafNodes(x) + LeafNodes(s)
  {
    if s.l.Fork? {
      AttachFirst(s.l, x);
      FirstLeafInside(s.l);
      AttachAbsent(s.r, FirstLeaf(s), x);
    }
  }

  /** A leaf attached to a lone parent on the right spine comes last. */
  lemma {:induction false} AttachLast(s: Shape, x: Shape)
    requires Proper(s) && IsTree(s) && !LoneOnSpine(s).isLeaf
    ensures LeafNodes(Attach(s, LoneOnSpine(s), x)) == LeafNodes(s) + LeafNodes(x)
  {
    if s.r.Fork? {
      AttachLast(s.r, x);
      LoneOnSpineInside(s.r);
      AttachAbsent(s.l, LoneOnSpine(s), x);
    }
  }

  lemma {:induction false} LoneOnSpineIsInner(s: Shape, d: nat)
    requires PackedShape(s, d) && !FullShape(s, d)
    ensures !LoneOnSpine(s).isLeaf
    decreases d
  {
    if s.r.Fork? {
      LoneOnSpineIsInner(s.r, d - 1);
    }
  }

  lemma {:induction false} AttachIsTree(s: Shape, target: Node, x: Shape)
    requires IsTree(s) && IsTree(x) && Nodes(s) !! Nodes(x)
    ensures IsTree(Attach(s, target, x)) && Nodes(Attach(s, target, x)) <= Nodes(s) + Nodes(x)
    ensures s.Fork? ==> Attach(s, target, x).Fork? && Attach(s, target, x).node == s.node
  {
    if s.Fork? {
      if s.node != target && target in Nodes(s.l) {
        AttachIsTree(s.l, target, x);
        AttachAbsent(s.r, target, x);
      } else if s.node != target {
        AttachAbsent(s.l, target, x);
        AttachIsTree(s.r, target, x);
      }
    }
  }

  /** The child links agree with the shape, except perhaps at the target. */
  ghost predicate LinksExcept(s: Shape, target: Node)
    reads (Nodes(s) - {target})`left, (Nodes(s) - {target})`right
  {
    s.Fork? ==> && (s.node != target ==> s.node.left == Top(s.l) && s.node.right == Top(s.r))
                && LinksExcept(s.l, target) && LinksExcept(s.r, target)
  }

  /** The part of the shape that starts at the target. */
  ghost function Find(s: Shape, target: Node): (f: Shape)
    requires target in Nodes(s)
    ensures f.Fork? && f.node == target
  {
    if s.node == target then s else if target in Nodes(s.l) then Find(s.l, target) else Find(s.r, target)
  }

  lemma {:induction false} LinksAroundTarget(s: Shape, target: Node)
    requires Links(s)
    ensures LinksExcept(s, target)
    ensures target in Nodes(s) ==>
              var f := Find(s, target); target.left == Top(f.l) && target.right == Top(f.r)
  {
    if s.Fork? {
      LinksAroundTarget(s.l, target);
      LinksAroundTarget(s.r, target);
    }
  }

  /** Setting the free child pointer of the target realises the attached shape. */
  lemma {:induction false} AttachLinks(s: Shape, target: Node, x: Shape)
    requires LinksExcept(s, target) && IsTree(s) && Links(x)
    requires target in Nodes(s) ==>
               var f := Find(s, target);
               && target.left == Top(if f.l.Empty? then x else f.l)
               && target.right == Top(if f.l.Empty? then f.r else x)
    ensures Links(Attach(s, target, x))
  {
    if s.Fork? {
      AttachLinks(s.l, target, x);
      AttachLinks(s.r, target, x);
      if s.node == target {
        AttachAbsent(s.l, target, x);
        AttachAbsent(s.r, target, x);
      } else {
        AttachTop(s.l, target, x);
        AttachTop(s.r, target, x);
      }
    }
  }

  lemma AttachTop(s: Shape, target: Node, x: Shape)
    ensures Top(Attach(s, target, x)) == Top(s)
  {
  }

  // ---- Building ----

  /** Everything a finished subtree satisfies, except for the parent link of its top. */
  ghost predicate Good(h: Hasher, s: Shape)
    reads Nodes(s)`left, Nodes(s)`right, Nodes(s)`hash
    reads (if s.Fork? then Nodes(s.l) + Nodes(s.r) else {})`parent
  {
    && Proper(s) && IsTree(s) && Links(s) && Hashes(h, s)
    && ParentLinks(s.l, s.node) && ParentLinks(s.r, s.node)
  }

  ghost function TopHash(s: Shape): Bytes
    reads Nodes(s)`hash
  {
    if s.Empty? then Missing() else s.node.hash
  }

  lemma ParentIsGood(h: Hasher, p: Node, a: Shape, b: Shape)
    requires Good(h, a) && (b.Fork? ==> Good(h, b)) && Nodes(a) !! Nodes(b)
    requires !p.isLeaf && p !in Nodes(a) + Nodes(b) && p.left == Top(a) && p.right == Top(b)
    requires p.hash == h(TopHash(a) + TopHash(b))
    requires a.node.parent == p && (b.Fork? ==> b.node.parent == p)
    ensures Good(h, Fork(p, a, b))
    ensures Value(Fork(p, a, b)) == if b.Fork? then Two(Value(a), Value(b)) else One(Value(a))
  {
  }

  /** A row of finished subtrees without common nodes. */
  ghost predicate Row(level: seq<Node>, shapes: seq<Shape>) {
    && |level| == |shapes|
    && (forall i :: 0 <= i < |shapes| ==>
          shapes[i].Fork? && shapes[i].node == level[i] && Proper(shapes[i]) && IsTree(shapes[i]))
    && (forall i, j :: 0 <= i < j < |shapes| ==> Nodes(shapes[i]) !! Nodes(shapes[j]))
  }

  ghost function Values(shapes: seq<Shape>): (v: seq<HTree>)
    requires forall i :: 0 <= i < |shapes| ==> Proper(shapes[i])
    ensures |v| == |shapes|
  {
    seq(|shapes|, i requires 0 <= i < |shapes| => Value(shapes[i]))
  }

  ghost function ShapeAt(shapes: seq<Shape>, i: nat): Shape {
    if i < |shapes| then shapes[i] else Empty
  }

  ghost function AllNodes(shapes: seq<Shape>): set<Node> {
    set i, n | 0 <= i < |shapes| && n in Nodes(shapes[i]) :: n
  }

  /** The shapes above a row. */
  ghost function Above(parents: seq<Node>, shapes: seq<Shape>): (a: seq<Shape>)
    requires |parents| == (|shapes| + 1) / 2
    ensures |a| == |parents|
  {
    seq(|parents|, k requires 0 <= k < |parents| => Fork(parents[k], shapes[2 * k], ShapeAt(shapes, 2 * k + 1)))
  }

  lemma NodesAbove(parents: seq<Node>, shapes: seq<Shape>, k: nat)
    requires |parents| == (|shapes| + 1) / 2 && k < |parents|
    ensures Nodes(Above(parents, shapes)[k])
         == {parents[k]} + Nodes(shapes[2 * k]) + Nodes(ShapeAt(shapes, 2 * k + 1))
    ensures Nodes(shapes[2 * k]) <= AllNodes(shapes) && Nodes(ShapeAt(shapes, 2 * k + 1)) <= AllNodes(shapes)
  {
    hide Nodes;
    assert Above(parents, shapes)[k] == Fork(parents[k], shapes[2 * k], ShapeAt(shapes, 2 * k + 1));
    ForkNodes(parents[k], shapes[2 * k], ShapeAt(shapes, 2 * k + 1));
  }

  lemma ForkNodes(p: Node, a: Shape, b: Shape)
    ensures Nodes(Fork(p, a, b)) == {p} + Nodes(a) + Nodes(b) && Nodes(Empty) == {}
  {
  }

  lemma PairwiseDisjoint(level: seq<Node>, shapes: seq<Shape>, i: nat, j: nat)
    requires Row(level, shapes) && i < |shapes| && i != j
    ensures Nodes(shapes[i]) !! Nodes(ShapeAt(shapes, j))
  {
    hide IsTree, Proper;
    if j < |shapes| {
      var lo, hi := if i < j then i else j, if i < j then j else i;
      assert Nodes(shapes[lo]) !! Nodes(shapes[hi]);
    }
  }

  lemma SecondsDisjoint(level: seq<Node>, shapes: seq<Shape>, i: nat, j: nat)
    requires Row(level, shapes) && i < j && 2 * j < |shapes|
    ensures Nodes(ShapeAt(shapes, 2 * i + 1)) !! Nodes(ShapeAt(shapes, 2 * j + 1))
  {
    PairwiseDisjoint(level, shapes, 2 * i + 1, 2 * j + 1);
  }

  lemma DistinctElements(s: seq<Node>, i: nat, j: nat)
    requires NoDuplicates(s) && i < j < |s|
    ensures s[i] != s[j]
  {
  }

  lemma DisjointAbove(level: seq<Node>, shapes: seq<Shape>, parents: seq<Node>, i: nat, j: nat)
    requires Row(level, shapes) && |parents| == (|shapes| + 1) / 2 && NoDuplicates(parents)
    requires forall n :: n in parents ==> n !in AllNodes(shapes)
    requires i < j < |parents|
    ensures Nodes(Above(parents, shapes)[i]) !! Nodes(Above(parents, shapes)[j])
  {
    hide Row, Nodes, AllNodes, NoDuplicates, Above;
    NodesAbove(parents, shapes, i);
    NodesAbove(parents, shapes, j);
    PairwiseDisjoint(level, shapes, 2 * i, 2 * j);
    PairwiseDisjoint(level, shapes, 2 * i, 2 * j + 1);
    PairwiseDisjoint(level, shapes, 2 * j, 2 * i + 1);
    SecondsDisjoint(level, shapes, i, j);
    DistinctElements(parents, i, j);
    assert parents[i] in parents && parents[j] in parents;
    UnionsDisjoint(parents[i], Nodes(shapes[2 * i]), Nodes(ShapeAt(shapes, 2 * i + 1)),
                   parents[j], Nodes(shapes[2 * j]), Nodes(ShapeAt(shapes, 2 * j + 1)), AllNodes(shapes));
  }

  lemma UnionsDisjoint(p: Node, a: set<Node>, b: set<Node>, q: Node, c: set<Node>, d: set<Node>, all: set<Node>)
    requires p != q && p !in all && q !in all && a <= all && b <= all && c <= all && d <= all
    requires a !! c && a !! d && b !! c && b !! d
    ensures {p} + a + b !! {q} + c + d
  {
  }

  lemma TreeAbove(level: seq<Node>, shapes: seq<Shape>, parents: seq<Node>, k: nat)
    requires Row(level, shapes) && |parents| == (|shapes| + 1) / 2 && k < |parents|
    requires parents[k] !in AllNodes(shapes) && !parents[k].isLeaf
    ensures Proper(Above(parents, shapes)[k]) && IsTree(Above(parents, shapes)[k])
  {
    PairwiseDisjoint(level, shapes, 2 * k, 2 * k + 1);
    NodesAbove(parents, shapes, k);
    assert Above(parents, shapes)[k] == Fork(parents[k], shapes[2 * k], ShapeAt(shapes, 2 * k + 1));
  }

  lemma RowAbove(level: seq<Node>, shapes: seq<Shape>, parents: seq<Node>)
    requires Row(level, shapes) && |parents| == (|shapes| + 1) / 2 && NoDuplicates(parents)
    requires forall n :: n in parents ==> n !in AllNodes(shapes) && !n.isLeaf
    ensures Row(parents, Above(parents, shapes))
  {
    hide Proper, IsTree, Nodes, AllNodes, NoDuplicates;
    var above := Above(parents, shapes);
    forall k | 0 <= k < |above| ensures Proper(above[k]) && IsTree(above[k]) {
      assert parents[k] in parents;
      TreeAbove(level, shapes, parents, k);
    }
    forall i, j | 0 <= i < j < |above| ensures Nodes(above[i]) !! Nodes(above[j]) {
      DisjointAbove(level, shapes, parents, i, j);
    }
  }

  // ---- One level of parents ----

  function NodesOf(n: Node?): set<Node> {
    if n == null then {} else {n}
  }

  function HashOf(n: Node?): Bytes
    reads NodesOf(n)`hash
  {
    if n == null then Missing() else n.hash
  }

  /** The node at position i of a level, null beyond its end. */
  function At(level: seq<Node>, i: nat): Node? {
    if i < |level| then level[i] else null
  }

  /** p is a new parent of the nodes. */
  ghost predicate Made(h: Hasher, p: Node, left: Node, right: Node?)
    reads p, left`hash, left`parent, NodesOf(right)`hash, NodesOf(right)`parent
  {
    && !p.isLeaf && p.left == left && p.right == right && p.parent == null
    && p.hash == h(left.hash + HashOf(right))
    && left.parent == p && (right != null ==> right.parent == p)
  }

  /** One round of the loop: a fresh parent with its hash, and the links to it. */
  method MakeParent(h: Hasher, left: Node, right: Node?) returns (p: Node)
    requires right != left
    modifies left`parent, NodesOf(right)`parent
    ensures fresh(p) && Made(h, p, left, right)
  {
    p := new Node.MakeInner(left, right, h(left.hash + HashOf(right)));
    left.parent := p;
    if right != null {
      right.parent := p;
    }
  }

  lemma OtherPair(level: seq<Node>, k: nat, i: nat)
    requires NoDuplicates(level) && k < i && 2 * i < |level|
    ensures level[2 * k] != level[2 * i] && level[2 * k] != At(level, 2 * i + 1)
    ensures At(level, 2 * k + 1) != level[2 * i] && At(level, 2 * k + 1) != At(level, 2 * i + 1)
    ensures 2 * k + 1 < |level|
  {
  }

  /** The k-th parent exists and is linked with its one or two children. */
  ghost predicate ParentAt(h: Hasher, level: seq<Node>, parents: seq<Node>, k: nat)
    requires k < |parents| && 2 * k < |level|
    reads parents, level`hash, level`parent
  {
    parents[k] !in level && Made(h, parents[k], level[2 * k], At(level, 2 * k + 1))
  }

  /** One round of the loop in `merkle_node_build_tree`. */
  method AddParent(h: Hasher, level: seq<Node>, parents: seq<Node>) returns (p: Node)
    requires NoDuplicates(level) && 2 * |parents| < |level|
    requires forall k :: 0 <= k < |parents| ==> ParentAt(h, level, parents, k)
    modifies level`parent
    ensures fresh(p) && forall k :: 0 <= k <= |parents| ==> ParentAt(h, level, parents + [p], k)
  {
    hide NoDuplicates;
    var i := |parents|;
    if 2 * i + 1 < |level| {
      PairDistinct(level, 2 * i);
    }
    p := MakeParent(h, level[2 * i], At(level, 2 * i + 1));
    forall k | 0 <= k < i ensures ParentAt(h, level, parents + [p], k) {
      OtherPair(level, k, i);
      assert old(ParentAt(h, level, parents, k));
      assert level[2 * k].parent == old(level[2 * k].parent);
      assert At(level, 2 * k + 1).parent == old(At(level, 2 * k + 1).parent);
      assert ParentAt(h, level, parents, k);
    }
  }

  lemma PairDistinct(level: seq<Node>, i: nat)
    requires NoDuplicates(level) && i + 1 < |level|
    ensures level[i] != level[i + 1]
  {
  }

  /** The loop of `merkle_node_build_tree`: one level of parents. */
  method MakeParents(h: Hasher, level: seq<Node>) returns (parents: seq<Node>)
    requires NoDuplicates(level)
    modifies level`parent
    ensures |parents| == (|level| + 1) / 2 && fresh(parents) && NoDuplicates(parents)
    ensures forall k :: 0 <= k < |parents| ==> ParentAt(h, level, parents, k)
  {
    hide ParentAt;
    parents := [];
    var count := (|level| + 1) / 2;
    for i := 0 to count
      invariant |parents| == i && fresh(parents) && NoDuplicates(parents)
      invariant forall k :: 0 <= k < i ==> ParentAt(h, level, parents, k)
    {
      var p := AddParent(h, level, parents);
      DistinctConcat(parents, [p]);
      parents := parents + [p];
    }
  }

  // ---- The recursive builder ----

  lemma ValuesAbove(level: seq<Node>, shapes: seq<Shape>, parents: seq<Node>)
    requires Row(level, shapes) && |parents| == (|shapes| + 1) / 2
    requires Row(parents, Above(parents, shapes)) && forall n :: n in parents ==> !n.isLeaf
    ensures Values(Above(parents, shapes)) == Parents(Values(shapes))
  {
    hide IsTree, Nodes;
    var above := Above(parents, shapes);
    forall k | 0 <= k < |above| ensures Values(above)[k] == Parents(Values(shapes))[k] {
      assert parents[k] in parents;
      assert above[k] == Fork(parents[k], shapes[2 * k], ShapeAt(shapes, 2 * k + 1));
    }
  }

  lemma GoodAbove(h: Hasher, level: seq<Node>, shapes: seq<Shape>, parents: seq<Node>, k: nat)
    requires Row(level, shapes) && |parents| == (|shapes| + 1) / 2 && k < |parents|
    requires forall i :: 0 <= i < |shapes| ==> Good(h, shapes[i])
    requires parents[k] !in AllNodes(shapes) && ParentAt(h, level, parents, k)
    ensures Good(h, Above(parents, shapes)[k])
  {
    hide IsTree, Proper, Nodes, AllNodes, Good;
    PairwiseDisjoint(level, shapes, 2 * k, 2 * k + 1);
    NodesAbove(parents, shapes, k);
    var a, b := shapes[2 * k], ShapeAt(shapes, 2 * k + 1);
    assert Above(parents, shapes)[k] == Fork(parents[k], a, b);
    ParentIsGood(h, parents[k], a, b);
  }

  lemma TopsDistinct(level: seq<Node>, shapes: seq<Shape>)
    requires Row(level, shapes)
    ensures NoDuplicates(level)
  {
    forall i | 0 <= i < |level| ensures level[i] in Nodes(shapes[i]) {
    }
  }

  lemma BelowIsNotTop(level: seq<Node>, shapes: seq<Shape>, j: nat)
    requires Row(level, shapes) && j < |shapes|
    ensures forall n :: n in Nodes(shapes[j].l) + Nodes(shapes[j].r) ==> n !in level
  {
    var below := Nodes(shapes[j].l) + Nodes(shapes[j].r);
    assert below <= Nodes(shapes[j]);
    forall i | 0 <= i < |level| ensures level[i] !in below {
      assert level[i] in Nodes(shapes[i]);
      if i != j {
        PairwiseDisjoint(level, shapes, i, j);
      }
    }
  }

  /** One level of parents above finished subtrees, which stay finished. */
  method MakeLevel(h: Hasher, level: seq<Node>, ghost shapes: seq<Shape>, ghost all: set<Node>)
      returns (parents: seq<Node>)
    requires Row(level, shapes) && AllNodes(shapes) <= all
    requires forall i :: 0 <= i < |shapes| ==> Good(h, shapes[i])
    modifies level`parent
    ensures |parents| == (|level| + 1) / 2 && fresh(parents) && NoDuplicates(parents)
    ensures forall k :: 0 <= k < |parents| ==> ParentAt(h, level, parents, k)
    ensures forall i :: 0 <= i < |shapes| ==> Good(h, shapes[i])
    ensures forall n :: n in parents ==> n !in AllNodes(shapes)
  {
    TopsDistinct(level, shapes);
    hide Good, Proper, IsTree, NoDuplicates, ParentAt, Nodes, AllNodes;
    parents := MakeParents(h, level);
    forall i | 0 <= i < |shapes| ensures Good(h, shapes[i]) {
      NodesOfMember(shapes, i);
      BelowIsNotTop(level, shapes, i);
    }
  }

  lemma LevelIsGood(h: Hasher, level: seq<Node>, shapes: seq<Shape>, parents: seq<Node>)
    requires Row(level, shapes) && |parents| == (|level| + 1) / 2 && NoDuplicates(parents)
    requires forall k :: 0 <= k < |parents| ==> ParentAt(h, level, parents, k)
    requires forall i :: 0 <= i < |shapes| ==> Good(h, shapes[i])
    requires forall n :: n in parents ==> n !in AllNodes(shapes)
    ensures forall k :: 0 <= k < |parents| ==> !parents[k].isLeaf && parents[k].parent == null
    ensures Row(parents, Above(parents, shapes))
    ensures forall k :: 0 <= k < |parents| ==> Good(h, Above(parents, shapes)[k])
  {
    forall k | 0 <= k < |parents| ensures !parents[k].isLeaf && parents[k].parent == null {
      assert ParentAt(h, level, parents, k);
    }
    hide Good, Proper, IsTree, NoDuplicates, ParentAt, Row, Nodes, AllNodes;
    RowAbove(level, shapes, parents);
    forall k | 0 <= k < |parents| ensures Good(h, Above(parents, shapes)[k]) {
      assert parents[k] in parents;
      GoodAbove(h, level, shapes, parents, k);
    }
  }

  lemma EmptyNodes()
    ensures Nodes(Empty) == {}
  {
  }

  lemma BuildUnfold(level: seq<HTree>)
    requires level != []
    ensures Build(level) == if |level| == 1 then level[0] else Build(Parents(level))
  {
  }

  lemma NodesOfMember(shapes: seq<Shape>, i: nat)
    requires i < |shapes|
    ensures Nodes(shapes[i]) <= AllNodes(shapes)
  {
  }

  lemma AllNodesAbove(parents: seq<Node>, shapes: seq<Shape>)
    requires |parents| == (|shapes| + 1) / 2
    ensures forall n :: n in AllNodes(Above(parents, shapes)) ==> n in parents || n in AllNodes(shapes)
  {
    hide Nodes;
    forall n | n in AllNodes(Above(parents, shapes)) ensures n in parents || n in AllNodes(shapes) {
      var k :| 0 <= k < |parents| && n in Nodes(Above(parents, shapes)[k]);
      NodesAbove(parents, shapes, k);
    }
  }

  /** `merkle_node_build_tree`: the recursion over levels builds the tree of the values. */
  method BuildTree(h: Hasher, level: seq<Node>, ghost shapes: seq<Shape>, ghost all: set<Node>)
      returns (root: Node?, ghost shape: Shape)
    requires Row(level, shapes) && AllNodes(shapes) <= all
    requires forall i :: 0 <= i < |shapes| ==> Good(h, shapes[i]) && level[i].parent == null
    modifies level`parent
    ensures root == Top(shape) && (level == [] <==> root == null)
    ensures root != null ==> Good(h, shape) && root.parent == null && Value(shape) == Build(Values(shapes))
    ensures forall n :: n in Nodes(shape) ==> n in all || fresh(n)
    decreases |level|
  {
    hide Good, IsTree, Proper, Nodes, Build, Parents, Value, AllNodes, Above;
    if |level| == 0 {
      root, shape := null, Empty;
      assert Nodes(shape) == {} by { EmptyNodes(); }
    } else if |level| == 1 {
      root, shape := level[0], shapes[0];
      BuildUnfold(Values(shapes));
      NodesOfMember(shapes, 0);
    } else {
      var parents := MakeLevel(h, level, shapes, all);
      LevelIsGood(h, level, shapes, parents);
      ghost var above := Above(parents, shapes);
      ValuesAbove(level, shapes, parents);
      AllNodesAbove(parents, shapes);
      ghost var more := all + set n | n in parents;
      BuildUnfold(Values(shapes));
      root, shape := BuildTree(h, parents, above, more);
    }
  }

  // ---- Leaves as finished subtrees ----

  ghost function Singles(leaves: seq<Node>): (s: seq<Shape>)
    ensures |s| == |leaves|
  {
    seq(|leaves|, i requires 0 <= i < |leaves| => Fork(leaves[i], Empty, Empty))
  }

  lemma LeafRow(leaves: seq<Node>)
    requires NoDuplicates(leaves) && forall n :: n in leaves ==> n.isLeaf
    ensures Row(leaves, Singles(leaves)) && Values(Singles(leaves)) == LeafLevel(DataOf(leaves))
    ensures AllNodes(Singles(leaves)) == set n | n in leaves
  {
    var shapes := Singles(leaves);
    forall i | 0 <= i < |leaves| ensures Nodes(shapes[i]) == {leaves[i]} && Proper(shapes[i]) && IsTree(shapes[i]) {
      assert leaves[i] in leaves;
    }
    forall n | n in leaves ensures n in AllNodes(shapes) {
      var i :| 0 <= i < |leaves| && leaves[i] == n;
      NodesOfMember(shapes, i);
    }
    assert Values(shapes) == LeafLevel(DataOf(leaves));
  }

  lemma LeafIsGood(h: Hasher, leaf: Node)
    requires leaf.isLeaf && leaf.left == null && leaf.right == null && leaf.hash == h(leaf.data)
    ensures Good(h, Fork(leaf, Empty, Empty))
  {
  }

  ghost predicate LeafHashes(h: Hasher, s: Shape)
    reads Nodes(s)`hash
  {
    forall n :: n in Nodes(s) && n.isLeaf ==> n.hash == h(n.data)
  }

  lemma {:induction false} GoodLeafHashes(h: Hasher, s: Shape)
    requires Proper(s) && Hashes(h, s)
    ensures LeafHashes(h, s)
  {
    if !s.node.isLeaf {
      GoodLeafHashes(h, s.l);
      if s.r.Fork? {
        GoodLeafHashes(h, s.r);
      }
    }
  }

  /** The loop that clears the links of the collected leaves. */
  method ClearLinks(leaves: seq<Node>)
    modifies leaves`left, leaves`right, leaves`parent
    ensures forall n :: n in leaves ==> n.left == null && n.right == null && n.parent == null
  {
    for i := 0 to |leaves|
      invariant forall n :: n in leaves[..i] ==> n.left == null && n.right == null && n.parent == null
    {
      leaves[i].left, leaves[i].right, leaves[i].parent := null, null, null;
      assert leaves[..i + 1] == leaves[..i] + [leaves[i]];
    }
  }

  /** What `merkle_tree_rebuild` does between collecting the leaves and storing the new root. */
  method Relink(h: Hasher, leaves: seq<Node>, ghost all: set<Node>) returns (root: Node?, ghost shape: Shape)
    requires NoDuplicates(leaves) && leaves != []
    requires forall n :: n in leaves ==> n.isLeaf && n in all && n.hash == h(n.data)
    modifies leaves`left, leaves`right, leaves`parent
    ensures root == Top(shape) && shape.Fork? && Good(h, shape) && root.parent == null
    ensures Value(shape) == BuildFrom(DataOf(leaves))
    ensures forall n :: n in Nodes(shape) ==> n in all || fresh(n)
  {
    LeafRow(leaves);
    hide Row, Nodes, Values, AllNodes, Build;
    ClearLinks(leaves);
    ghost var shapes := Singles(leaves);
    forall i | 0 <= i < |leaves| ensures Good(h, shapes[i]) && leaves[i].parent == null {
      assert leaves[i] in leaves;
      LeafIsGood(h, leaves[i]);
    }
    hide Good;
    root, shape := BuildTree(h, leaves, shapes, all);
  }

  lemma {:induction false} NodesAllocated(s: Shape)
    ensures forall n :: n in Nodes(s) ==> allocated(n)
  {
    if s.Fork? {
      NodesAllocated(s.l);
      NodesAllocated(s.r);
    }
  }

  lemma GoodIsProper(h: Hasher, s: Shape)
    requires Good(h, s)
    ensures Proper(s)
  {
  }
  /** Walking a tree for the leaves to relink. */
  method LeavesOf(h: Hasher, root: Node?, ghost shape: Shape) returns (leaves: seq<Node>)
    requires root == Top(shape) && Links(shape) && IsTree(shape) && LeafHashes(h, shape)
    ensures leaves == LeafNodes(shape) && NoDuplicates(leaves)
    ensures forall n :: n in leaves ==> n.isLeaf && n in Nodes(shape) && n.hash == h(n.data)
  {
    NodesAllocated(shape);
    LeafNodesInside(shape);
    LeafNodesDistinct(shape);
    leaves := CollectLeaves(root, shape);
  }

  /** The leaves of a linked structure under a newly built tree. */
  method Rebuilt(h: Hasher, root: Node?, ghost shape: Shape) returns (newRoot: Node, ghost newShape: Shape)
    requires root == Top(shape) && Links(shape) && IsTree(shape) && LeafHashes(h, shape) && LeafNodes(shape) != []
    modifies Nodes(shape)
    ensures newShape.Fork? && newRoot == newShape.node && Good(h, newShape) && newRoot.parent == null
    ensures DataOf(LeafNodes(newShape)) == DataOf(LeafNodes(shape))
    ensures Value(newShape) == BuildFrom(DataOf(LeafNodes(shape)))
    ensures forall n :: n in Nodes(newShape) ==> n in Nodes(shape) || fresh(n)
  {
    hide Good, IsTree, Nodes, Links, NoDuplicates, LeafNodes, LeafHashes, BuildFrom, Value;
    ghost var all := Nodes(shape);
    var leaves := LeavesOf(h, root, shape);
    var top: Node?;
    top, newShape := Relink(h, leaves, all);
    newRoot := top;
    BuildFromLeaves(DataOf(leaves));
    GoodIsProper(h, newShape);
    LeafNodesCarryLeaves(newShape);
  }

  // ---- Adding in breadth-first order, at the level of shapes ----

  /** Where a new leaf ends up among the leaves of a built tree. */
  lemma SlotOrder(shape: Shape, data: seq<Bytes>, x: Shape)
    requires Proper(shape) && IsTree(shape) && data != [] && Value(shape) == BuildFrom(data)
    ensures Slot([shape]) in Nodes(shape)
    ensures LeafNodes(Attach(shape, Slot([shape]), x))
         == if PowerOfTwo(|data|) then LeafNodes(x) + LeafNodes(shape) else LeafNodes(shape) + LeafNodes(x)
  {
    hide Slot, BuildFrom, Packed, Full, PowerOfTwo, Nodes, IsTree, LeafNodes, Attach;
    var d := BuildFromIsFull(data);
    if PowerOfTwo(|data|) {
      SlotOfFull([shape], [], d);
      assert [shape] + [] == [shape];
      FirstLeafInside(shape);
      AttachFirst(shape, x);
    } else {
      PackedNotFull(shape, d);
      SlotOfPacked([], shape, [], d);
      assert [] + [shape] + [] == [shape];
      LoneOnSpineInside(shape);
      LoneOnSpineIsInner(shape, d);
      AttachLast(shape, x);
    }
  }

  lemma PackedNotFull(s: Shape, d: nat)
    requires PackedShape(s, d) && !FullShape(s, d)
    ensures d > 0
  {
  }

  // ---- From a leaf to the root ----

  /** The nodes from leaf k up to the top. */
  ghost function Ancestors(s: Shape, k: nat): (a: seq<Node>)
    requires Proper(s)
    ensures a != [] && a[|a| - 1] == s.node
  {
    if s.node.isLeaf then [s.node]
    else if s.r.Empty? || k < |LeafNodes(s.l)| then Ancestors(s.l, k) + [s.node]
    else Ancestors(s.r, k - |LeafNodes(s.l)|) + [s.node]
  }

  /** What the proof records when the climb goes from a node to its parent. */
  function StepUp(node: Node, parent: Node): Step<Bytes>
    reads parent, NodesOf(parent.left)`hash, NodesOf(parent.right)`hash
  {
    if parent.left == node && parent.right != null then Step(parent.right.hash, true)
    else if parent.right == node && parent.left != null then Step(parent.left.hash, false)
    else Step(Missing(), false)
  }

  /** One step of the climb inside the shape. */
  ghost predicate Rung(s: Shape, node: Node, parent: Node, step: Step<Bytes>)
    reads Nodes(s)
  {
    && node in Nodes(s) && parent in Nodes(s) && node.parent == parent
    && NodesOf(parent.left) + NodesOf(parent.right) <= Nodes(s)
    && step == StepUp(node, parent)
  }

  ghost predicate Climbs(s: Shape, a: seq<Node>, path: seq<Step<Bytes>>)
    reads Nodes(s)
  {
    && |a| == |path| + 1
    && forall i :: 0 <= i < |path| ==> Rung(s, a[i], Next(a, i), path[i])
  }

  function Next(a: seq<Node>, i: nat): Node
    requires i + 1 < |a|
  {
    a[i + 1]
  }

  lemma RungAbove(s: Shape, sub: Shape, node: Node, parent: Node, step: Step<Bytes>)
    requires Rung(sub, node, parent, step) && Nodes(sub) <= Nodes(s)
    ensures Rung(s, node, parent, step)
  {
  }

  lemma ClimbsOneMore(s: Shape, sub: Shape, a: seq<Node>, path: seq<Step<Bytes>>, step: Step<Bytes>)
    requires s.Fork? && sub.Fork? && Nodes(sub) <= Nodes(s) && Climbs(sub, a, path) && a[|a| - 1] == sub.node
    requires Rung(s, sub.node, s.node, step)
    ensures Climbs(s, a + [s.node], path + [step])
  {
    hide Rung;
    var b, longer := a + [s.node], path + [step];
    forall i | 0 <= i < |longer| ensures Rung(s, b[i], Next(b, i), longer[i]) {
      if i < |path| {
        assert Rung(sub, a[i], Next(a, i), path[i]);
        RungAbove(s, sub, a[i], Next(a, i), path[i]);
      } else {
        assert b[i] == sub.node && Next(b, i) == s.node;
      }
    }
  }

  lemma LowerAncestors(s: Shape, k: nat)
    requires Proper(s) && !s.node.isLeaf
    ensures Ancestors(s, k)
         == (if s.r.Empty? || k < |LeafNodes(s.l)| then Ancestors(s.l, k)
             else Ancestors(s.r, k - |LeafNodes(s.l)|)) + [s.node]
  {
  }

  lemma LeafCount(s: Shape)
    requires Proper(s)
    ensures |LeafNodes(s)| == |Leaves(Value(s))|
  {
    LeafNodesCarryLeaves(s);
  }

  lemma GoodBelow(h: Hasher, s: Shape)
    requires Good(h, s) && !s.node.isLeaf
    ensures s.Fork? && s.l.Fork? && Good(h, s.l) && (s.r.Fork? ==> Good(h, s.r))
    ensures Nodes(s.l) <= Nodes(s) && Nodes(s.r) <= Nodes(s)
  {
    hide LeafNodes, Value;
    assert Proper(s.l) && (s.r.Fork? ==> Proper(s.r));
  }

  lemma ValueBelow(s: Shape)
    requires Proper(s) && !s.node.isLeaf
    ensures s.l.Fork? && Proper(s.l) && (s.r.Fork? ==> Proper(s.r))
    ensures Value(s) == if s.r.Fork? then Two(Value(s.l), Value(s.r)) else One(Value(s.l))
    ensures LeafNodes(s) == LeafNodes(s.l) + LeafNodes(s.r) && (s.r.Empty? ==> LeafNodes(s) == LeafNodes(s.l))
  {
  }

  lemma GoodTop(h: Hasher, s: Shape)
    requires Good(h, s)
    ensures s.node in Nodes(s) && s.node.hash == Hash(h, Value(s))
    ensures s.node.left == Top(s.l) && s.node.right == Top(s.r) && Nodes(s.l) !! Nodes(s.r)
    ensures s.l.Fork? ==> s.l.node.parent == s.node
    ensures s.r.Fork? ==> s.r.node.parent == s.node
  {
  }

  /** The rung from a child of the top to the top. */
  lemma TopRung(h: Hasher, s: Shape)
    requires Good(h, s) && !s.node.isLeaf
    ensures s.l.Fork?
    ensures s.r.Empty? ==> Rung(s, s.l.node, s.node, Step(Missing(), false))
    ensures s.r.Fork? ==> && Rung(s, s.l.node, s.node, Step(Hash(h, Value(s.r)), true))
                          && Rung(s, s.r.node, s.node, Step(Hash(h, Value(s.l)), false))
  {
    hide Good, Nodes, Value;
    GoodBelow(h, s);
    GoodTop(h, s);
    GoodTop(h, s.l);
    if s.r.Fork? {
      GoodTop(h, s.r);
    }
  }

  lemma PathBelow(h: Hasher, s: Shape, k: nat)
    requires Good(h, s) && !s.node.isLeaf && k < |Leaves(Value(s))| == |LeafNodes(s)|
    ensures |Leaves(Value(s.l))| == |LeafNodes(s.l)|
    ensures s.r.Empty? ==>
              && k < |LeafNodes(s.l)|
              && ProofPath(h, Value(s), k) == ProofPath(h, Value(s.l), k) + [Step(Missing(), false)]
    ensures s.r.Fork? && k < |LeafNodes(s.l)| ==>
              ProofPath(h, Value(s), k) == ProofPath(h, Value(s.l), k) + [Step(Hash(h, Value(s.r)), true)]
    ensures s.r.Fork? && k >= |LeafNodes(s.l)| ==>
              var j := k - |LeafNodes(s.l)|;
              && j < |Leaves(Value(s.r))| == |LeafNodes(s.r)|
              && ProofPath(h, Value(s), k) == ProofPath(h, Value(s.r), j) + [Step(Hash(h, Value(s.l)), false)]
  {
    GoodIsProper(h, s);
    hide Good, Nodes, LeafNodes, Value, Hash;
    GoodBelow(h, s);
    ValueBelow(s);
    LeafCount(s.l);
    if s.r.Fork? {
      LeafCount(s.r);
    }
  }

  lemma ClimbFromTop(h: Hasher, s: Shape)
    requires Proper(s) && s.node.isLeaf
    ensures |Leaves(Value(s))| == 1 && Climbs(s, Ancestors(s, 0), ProofPath(h, Value(s), 0))
    ensures |LeafNodes(s)| == 1 && Ancestors(s, 0)[0] == LeafNodes(s)[0]
  {
  }

  /** The parent pointers from leaf k lead along the path of the abstract tree. */
  lemma {:induction false} ClimbIsProofPath(h: Hasher, s: Shape, k: nat)
    requires Good(h, s) && k < |Leaves(Value(s))| == |LeafNodes(s)|
    ensures Climbs(s, Ancestors(s, k), ProofPath(h, Value(s), k)) && Ancestors(s, k)[0] == LeafNodes(s)[k]
  {
    hide Good, Nodes, Rung, Climbs, LeafNodes, Value, ProofPath, Leaves, Ancestors, Hash;
    GoodIsProper(h, s);
    if s.node.isLeaf {
      ClimbFromTop(h, s);
    } else {
      GoodBelow(h, s);
      ValueBelow(s);
      TopRung(h, s);
      LowerAncestors(s, k);
      PathBelow(h, s, k);
      if s.r.Empty? || k < |LeafNodes(s.l)| {
        ClimbIsProofPath(h, s.l, k);
        var step := if s.r.Empty? then Step(Missing(), false) else Step(Hash(h, Value(s.r)), true);
        ClimbsOneMore(s, s.l, Ancestors(s.l, k), ProofPath(h, Value(s.l), k), step);
      } else {
        var j := k - |LeafNodes(s.l)|;
        ClimbIsProofPath(h, s.r, j);
        ClimbsOneMore(s, s.r, Ancestors(s.r, j), ProofPath(h, Value(s.r), j), Step(Hash(h, Value(s.l)), false));
      }
    }
  }

  /** Linking a new leaf to the first free child pointer. */
  method LinkLeaf(slot: Node, leaf: Node, ghost shape: Shape, ghost one: Shape)
    requires Links(shape) && IsTree(shape) && slot in Nodes(shape) && leaf !in Nodes(shape)
    requires one == Fork(leaf, Empty, Empty) && leaf.left == null && leaf.right == null
    requires slot.left == null || slot.right == null
    modifies slot`left, slot`right, leaf`parent
    ensures Links(Attach(shape, slot, one))
  {
    hide Links, IsTree, LinksExcept, Attach;
    LinksAroundTarget(shape, slot);
    assert LinksExcept(shape, slot);
    if slot.left == null {
      slot.left := leaf;
    } else {
      slot.right := leaf;
    }
    leaf.parent := slot;
    SingleLinks(leaf);
    AttachLinks(shape, slot, one);
  }

  lemma SingleLinks(leaf: Node)
    requires leaf.left == null && leaf.right == null
    ensures Links(Fork(leaf, Empty, Empty))
  {
  }

  lemma DataOfOne(leaf: Node)
    ensures DataOf([leaf]) == [leaf.data]
  {
  }

  lemma ClimbsLength(s: Shape, a: seq<Node>, path: seq<Step<Bytes>>)
    requires Climbs(s, a, path)
    ensures |a| == |path| + 1
  {
  }

  lemma ClimbsHere(s: Shape, a: seq<Node>, path: seq<Step<Bytes>>, i: nat)
    requires Climbs(s, a, path) && i < |path|
    ensures |a| == |path| + 1 && a[i].parent == a[i + 1] && path[i] == StepUp(a[i], a[i + 1])
  {
    assert Rung(s, a[i], Next(a, i), path[i]);
  }

  lemma TakeNext(full: seq<Step<Bytes>>, i: nat)
    requires i < |full|
    ensures full[..i] + [full[i]] == full[..i + 1]
  {
  }

  /** The climb loop of `merkle_proof_generate`, along the ancestors a. */
  method ClimbAlong(leaf: Node, ghost shape: Shape, ghost a: seq<Node>, ghost full: seq<Step<Bytes>>)
      returns (path: seq<Step<Bytes>>)
    requires Climbs(shape, a, full) && |a| == |full| + 1 && a[0] == leaf && a[|full|].parent == null
    ensures path == Cut(full)
  {
    hide Climbs, StepUp, Nodes;
    path := [];
    var node := leaf;
    ghost var i := 0;
    while node.parent != null && |path| < PROOF_MAX_DEPTH
      invariant Climbs(shape, a, full)
      invariant 0 <= i <= |full| && i <= PROOF_MAX_DEPTH && |path| == i && path == full[..i] && node == a[i]
      decreases |full| - i
    {
      ClimbsHere(shape, a, full, i);
      TakeNext(full, i);
      path := path + [StepUp(node, node.parent)];
      node := node.parent;
      i := i + 1;
    }
    if i < |full| {
      ClimbsHere(shape, a, full, i);
    }
  }

  method ClimbUp(h: Hasher, leaf: Node, ghost index: nat, ghost shape: Shape) returns (path: seq<Step<Bytes>>)
    requires Good(h, shape) && shape.node.parent == null
    requires index < |LeafNodes(shape)| == |Leaves(Value(shape))| && leaf == LeafNodes(shape)[index]
    ensures path == Cut(ProofPath(h, Value(shape), index))
  {
    ClimbIsProofPath(h, shape, index);
    ghost var a, full := Ancestors(shape, index), ProofPath(h, Value(shape), index);
    hide Good, Ancestors, ProofPath, Nodes, Climbs;
    ClimbsLength(shape, a, full);
    path := ClimbAlong(leaf, shape, a, full);
  }

  lemma AttachLeafHashes(h: Hasher, s: Shape, target: Node, leaf: Node)
    requires LeafHashes(h, s) && IsTree(s) && leaf !in Nodes(s) && leaf.hash == h(leaf.data)
    ensures var r := Attach(s, target, Fork(leaf, Empty, Empty));
            LeafHashes(h, r) && IsTree(r) && Nodes(r) <= Nodes(s) + {leaf} && Top(r) == Top(s)
  {
    AttachIsTree(s, target, Fork(leaf, Empty, Empty));
  }

  lemma OneLeaf(leaf: Node)
    requires leaf.isLeaf
    ensures LeafNodes(Fork(leaf, Empty, Empty)) == [leaf]
  {
  }

  /** The search loop of `merkle_tree_add_leaf` and the link it makes. */
  method AttachLeaf(h: Hasher, root: Node, leaf: Node, ghost shape: Shape) returns (ghost newShape: Shape)
    requires root == Top(shape) && Links(shape) && IsTree(shape) && LeafHashes(h, shape) && Proper(shape)
    requires LeafNodes(shape) != [] && Value(shape) == BuildFrom(DataOf(LeafNodes(shape)))
    requires leaf.isLeaf && leaf.left == null && leaf.right == null && leaf.hash == h(leaf.data)
    requires leaf !in Nodes(shape)
    modifies Nodes(shape)`left, Nodes(shape)`right, leaf`parent
    ensures root == Top(newShape) && Links(newShape) && IsTree(newShape) && LeafHashes(h, newShape)
    ensures Nodes(newShape) <= Nodes(shape) + {leaf}
    ensures LeafNodes(newShape) == if PowerOfTwo(|LeafNodes(shape)|) then [leaf] + LeafNodes(shape)
                                   else LeafNodes(shape) + [leaf]
  {
    hide Links, IsTree, Proper, Attach, LeafNodes, LeafHashes, BuildFrom, Value, Slot, PowerOfTwo, Nodes;
    NodesAllocated(shape);
    var slot := FindSlot(root, shape);
    ghost var one := Fork(leaf, Empty, Empty);
    OneLeaf(leaf);
    SlotOrder(shape, DataOf(LeafNodes(shape)), one);
    LinkLeaf(slot, leaf, shape, one);
    AttachLeafHashes(h, shape, slot, leaf);
    newShape := Attach(shape, slot, one);
  }

  // ---- The tree object ----

  const PROOF_MAX_DEPTH := 64

  /** Proofs hold at most that many levels. */
  function Cut(path: seq<Step<Bytes>>): (cut: seq<Step<Bytes>>)
    ensures cut <= path && |cut| <= 64 && (|cut| < 64 ==> cut == path)
  {
    if |path| <= PROOF_MAX_DEPTH then path else path[..PROOF_MAX_DEPTH]
  }

  /** The path of the k-th datum in the tree built from the data. */
  function LeafPath(h: Hasher, data: seq<Bytes>, k: nat): seq<Step<Bytes>>
    requires k < |data|
  {
    BuildFromLeaves(data);
    ProofPath(h, BuildFrom(data), k)
  }

  datatype Proof = Proof(leafIndex: nat, leafHash: Bytes, path: seq<Step<Bytes>>)

  /** The order of the leaves after one more addition. */
  function Added(leaves: seq<Bytes>, data: Bytes): seq<Bytes> {
    if PowerOfTwo(|leaves|) then [data] + leaves else leaves + [data]
  }

  class Tree {
    const h: Hasher
    var root: Node?
    var leafCount: nat
    ghost var shape: Shape

    /** The links form a tree whose leaves store the hash of their data. */
    ghost predicate Linked()
      reads this, Nodes(shape)
    {
      && root == Top(shape) && Links(shape) && IsTree(shape) && LeafHashes(h, shape)
      && leafCount == |LeafNodes(shape)|
    }

    /** Moreover the tree is the one built from its leaves, with all hashes and parent links. */
    ghost predicate Valid()
      reads this, Nodes(shape)
    {
      && root == Top(shape) && leafCount == |LeafNodes(shape)|
      && (shape.Fork? ==>
            && Good(h, shape) && root.parent == null
            && leafCount > 0 && Value(shape) == BuildFrom(DataOf(LeafNodes(shape))))
    }

    /** The data of the leaves, in order. */
    ghost function Contents(): seq<Bytes>
      reads this
    {
      DataOf(LeafNodes(shape))
    }

    constructor Init(h: Hasher)
      ensures Valid() && Contents() == [] && this.h == h && root == null && shape == Empty
    {
      this.h, root, leafCount, shape := h, null, 0, Empty;
    }

    lemma ValidIsLinked()
      requires Valid()
      ensures Linked()
    {
      if shape.Fork? {
        GoodLeafHashes(h, shape);
      }
    }

    /** `merkle_tree_rebuild` */
    method Rebuild() returns (r: int)
      requires Linked()
      modifies this, Nodes(shape)
      ensures r == if old(leafCount) == 0 then -1 else 0
      ensures r != 0 ==> root == old(root) && leafCount == old(leafCount) && shape == old(shape)
      ensures r == 0 ==> Valid() && Contents() == old(Contents())
      ensures forall n :: n in Nodes(shape) ==> n in old(Nodes(shape)) || fresh(n)
    {
      if leafCount == 0 {
        return -1;
      }
      root, shape := Rebuilt(h, root, shape);
      return 0;
    }

    lemma LeafCountIsContents()
      requires Valid()
      ensures leafCount == |Contents()| && (shape.Fork? ==> Leaves(Value(shape)) == Contents())
    {
      if shape.Fork? {
        GoodIsProper(h, shape);
        LeafNodesCarryLeaves(shape);
      }
    }

    /** `merkle_tree_add_leaf` */
    method AddLeaf(data: Bytes) returns (r: int)
      requires Valid()
      modifies this, Nodes(shape)
      ensures Valid() && forall n :: n in Nodes(shape) ==> n in old(Nodes(shape)) || fresh(n)
      ensures r == if data == [] then -1 else 0
      ensures Contents() == if r != 0 then old(Contents()) else Added(old(Contents()), data)
      ensures r != 0 ==> root == old(root) && shape == old(shape)
    {
      if |data| == 0 {
        return -1;
      }
      NodesAllocated(shape);
      hide *;
      var leaf := new Node.MakeLeaf(data, h(data));
      if root == null {
        BecomeLeaf(leaf);
        return 0;
      }
      r := Grow(leaf);
    }

    /** A later leaf, with the rebuild that follows. */
    method Grow(leaf: Node) returns (r: int)
      requires root != null && Valid() && leaf.isLeaf && leaf.hash == h(leaf.data) && leaf !in Nodes(shape)
      requires leaf.left == null && leaf.right == null
      modifies this, Nodes(shape), leaf
      ensures r == 0 && Valid() && Contents() == Added(old(Contents()), leaf.data)
      ensures forall n :: n in Nodes(shape) ==> n in old(Nodes(shape)) || n == leaf || fresh(n)
    {
      hide *;
      LinkNewLeaf(leaf);
      r := Rebuild();
    }

    /** The first leaf is the root. */
    method BecomeLeaf(leaf: Node)
      requires root == null && Valid() && leaf.isLeaf && leaf.hash == h(leaf.data)
      requires leaf.left == null && leaf.right == null && leaf.parent == null
      modifies this
      ensures Valid() && Contents() == Added(old(Contents()), leaf.data) && Nodes(shape) == {leaf}
    {
      root, leafCount, shape := leaf, 1, Fork(leaf, Empty, Empty);
      LeafIsGood(h, leaf);
      OneLeaf(leaf);
      assert LeafLevel([leaf.data]) == [Leaf(leaf.data)];
    }

    /** A later leaf goes to the first free place; `Rebuild` is to follow. */
    method LinkNewLeaf(leaf: Node)
      requires root != null && Valid() && leaf.isLeaf && leaf.hash == h(leaf.data) && leaf !in Nodes(shape)
      requires leaf.left == null && leaf.right == null
      modifies this, Nodes(shape), leaf
      ensures Linked() && leafCount == old(leafCount) + 1
      ensures Contents() == Added(old(Contents()), leaf.data) && Nodes(shape) <= old(Nodes(shape)) + {leaf}
    {
      ValidIsLinked();
      GoodIsProper(h, shape);
      hide Good, Links, IsTree, Proper, LeafNodes, LeafHashes, BuildFrom, Value, PowerOfTwo, Nodes, DataOf;
      DataOfOne(leaf);
      DataOfConcat([leaf], LeafNodes(shape));
      DataOfConcat(LeafNodes(shape), [leaf]);
      shape := AttachLeaf(h, root, leaf, shape);
      leafCount := leafCount + 1;
    }

    /** `merkle_tree_get_root` */
    method GetRoot() returns (r: Option<Bytes>)
      requires Valid()
      ensures r == if Contents() == [] then None else Some(Hash(h, BuildFrom(Contents())))
    {
      LeafCountIsContents();
      if root == null {
        return None;
      }
      GoodTop(h, shape);
      return Some(root.hash);
    }

    /** `merkle_tree_get_leaf` */
    method GetLeaf(index: nat) returns (r: Option<Bytes>)
      requires Valid()
      ensures r == if index < |Contents()| then Some(Contents()[index]) else None
    {
      if index >= leafCount {
        return None;
      }
      var leaf := NthLeaf(root, index, shape);
      return Some(leaf.data);
    }

    /** `merkle_proof_generate` */
    method GenerateProof(index: nat) returns (r: Option<Proof>)
      requires Valid()
      ensures r.None? <==> index >= |Contents()|
      ensures r.Some? ==>
                && r.value.leafIndex == index && r.value.leafHash == h(Contents()[index])
                && r.value.path == Cut(LeafPath(h, Contents(), index))
    {
      LeafCountIsContents();
      if index >= leafCount {
        return None;
      }
      NodesAllocated(shape);
      GoodLeafHashes(h, shape);
      LeafNodesInside(shape);
      assert forall n :: n in LeafNodes(shape) ==> n.hash == h(n.data);
      var leaf := NthLeaf(root, index, shape);
      assert leaf in LeafNodes(shape);
      var path := ClimbUp(h, leaf, index, shape);
      return Some(Proof(index, leaf.hash, path));
    }

    /** `merkle_tree_add_leaves`: stops at the first empty datum. */
    method AddLeaves(data: seq<Bytes>) returns (r: int)
      requires Valid()
      modifies this, Nodes(shape)
      ensures Valid() && forall n :: n in Nodes(shape) ==> n in old(Nodes(shape)) || fresh(n)
      ensures r == if data == [] || [] in data then -1 else 0
      ensures Contents() == AddedAll(old(Contents()), Accepted(data))
    {
      hide Tree.Valid, Tree.Contents, Added, Nodes;
      NodesAllocated(shape);
      if |data| == 0 {
        return -1;
      }
      for i := 0 to |data|
        invariant Valid() && [] !in data[..i]
        invariant forall n :: n in Nodes(shape) ==> n in old(Nodes(shape)) || fresh(n)
        invariant Contents() == AddedAll(old(Contents()), data[..i])
      {
        r := AddLeaf(data[i]);
        AddedAllSnoc(old(Contents()), data[..i], data[i]);
        assert data[..i + 1] == data[..i] + [data[i]];
        if r != 0 {
          AcceptedIs(data, i);
          return;
        }
      }
      assert data[..|data|] == data;
      AcceptedAll(data);
      return 0;
    }
  }

  /** `merkle_proof_verify` */
  method VerifyProof(h: Hasher, rootHash: Bytes, proof: Proof) returns (valid: bool)
    ensures valid <==> Climb(Combine(h), proof.leafHash, proof.path) == rootHash
  {
    var current := proof.leafHash;
    for i := 0 to |proof.path|
      invariant Climb(Combine(h), current, proof.path[i..]) == Climb(Combine(h), proof.leafHash, proof.path)
    {
      var step := proof.path[i];
      current := if step.currentLeft then h(current + step.sibling) else h(step.sibling + current);
      assert proof.path[i..][1..] == proof.path[i + 1..];
    }
    valid := current == rootHash;
  }

  // ---- Runs of additions ----

  function AddedAll(leaves: seq<Bytes>, data: seq<Bytes>): seq<Bytes>
    decreases |data|
  {
    if data == [] then leaves else AddedAll(Added(leaves, data[0]), data[1..])
  }

  /** The data before the first empty one. */
  function Accepted(data: seq<Bytes>): seq<Bytes> {
    if data == [] || data[0] == [] then [] else [data[0]] + Accepted(data[1..])
  }

  lemma {:induction false} AddedAllSnoc(leaves: seq<Bytes>, data: seq<Bytes>, d: Bytes)
    ensures AddedAll(leaves, data + [d]) == Added(AddedAll(leaves, data), d)
    decreases |data|
  {
    if data == [] {
      assert ([d])[1..] == [];
      assert data + [d] == [d];
    } else {
      assert (data + [d])[1..] == data[1..] + [d];
      AddedAllSnoc(Added(leaves, data[0]), data[1..], d);
    }
  }

  lemma {:induction false} AcceptedIs(data: seq<Bytes>, i: nat)
    requires i < |data| && [] !in data[..i] && data[i] == []
    ensures Accepted(data) == data[..i] && [] in data
  {
    if i > 0 {
      assert data[..i][0] == data[0];
      assert data[1..][..i - 1] == data[..i][1..];
      AcceptedIs(data[1..], i - 1);
    }
  }

  lemma {:induction false} AcceptedAll(data: seq<Bytes>)
    requires [] !in data
    ensures Accepted(data) == data
  {
    if data != [] {
      AcceptedAll(data[1..]);
    }
  }

  /** Over any run of additions no leaf is lost, duplicated or altered. */
  lemma {:induction false} RunKeepsLeaves(leaves: seq<Bytes>, data: seq<Bytes>)
    ensures multiset(AddedAll(leaves, data)) == multiset(leaves) + multiset(data)
    decreases |data|
  {
    if data != [] {
      RunKeepsLeaves(Added(leaves, data[0]), data[1..]);
      assert data == [data[0]] + data[1..];
    }
  }

  /** Their order, however, is not the order of addition. */
  lemma FiveInOrder(a: Bytes, b: Bytes, c: Bytes, d: Bytes, e: Bytes)
    ensures AddedAll([], [a, b, c, d, e]) == [e, c, b, a, d]
  {
    var all := [a, b, c, d, e];
    assert PowerOfTwo(1) && PowerOfTwo(2) && !PowerOfTwo(3) && PowerOfTwo(4);
    assert all[..1] == [] + [a] && all[..2] == all[..1] + [b] && all[..3] == all[..2] + [c];
    assert all[..4] == all[..3] + [d] && all == all[..4] + [e];
    AddedAllSnoc([], [], a);
    AddedAllSnoc([], all[..1], b);
    AddedAllSnoc([], all[..2], c);
    AddedAllSnoc([], all[..3], d);
    AddedAllSnoc([], all[..4], e);
  }

  // ---- Generated proofs ----

  /** Whether the verifier accepts the generated proof of the k-th leaf. */
  predicate Verifies(h: Hasher, data: seq<Bytes>, k: nat)
    requires k < |data|
  {
    Climb(Combine(h), h(data[k]), Cut(LeafPath(h, data, k))) == Hash(h, BuildFrom(data))
  }

  /** No proof is cut for as many leaves as a 64-bit count allows. */
  lemma ProofsAreWhole(h: Hasher, data: seq<Bytes>, k: nat)
    requires k < |data| <= Pow2(64)
    ensures |LeafPath(h, data, k)| == Height(|data|) <= PROOF_MAX_DEPTH
    ensures Cut(LeafPath(h, data, k)) == LeafPath(h, data, k)
  {
    LoneAncestorIff(h, data, k);
    HeightBound(|data|, 64);
  }

  /** A leaf that is never the unpaired last one of a level has an accepted proof. */
  lemma PairedLeafVerifies(h: Hasher, data: seq<Bytes>, k: nat)
    requires k < |data| <= Pow2(64) && AlwaysPaired(|data|, k)
    ensures Verifies(h, data, k)
  {
    ProofsAreWhole(h, data, k);
    LoneAncestorIff(h, data, k);
    BuildFromLeaves(data);
    ProofVerifies(h, BuildFrom(data), k);
  }

  /**
   Exactly which leaves verify, for any hash function; and where neither a collision nor a lone
   all-zero hash lies on the way from the leaf to the root, exactly those always paired.
   */
  lemma VerifiesIff(h: Hasher, data: seq<Bytes>, k: nat)
    requires k < |data| <= Pow2(64) && HashLength(h)
    ensures k < |Leaves(BuildFrom(data))|
    ensures var t := BuildFrom(data);
            && (Verifies(h, data, k) <==> LoneChildrenZero(h, t, k) || CollisionSurvives(h, t, k))
            && (!ClimbCollides(h, t, k) && !LoneChildZero(h, t, k) ==>
                  (Verifies(h, data, k) <==> AlwaysPaired(|data|, k)))
  {
    hide AlwaysPaired, LoneChildrenZero, CollisionSurvives, ClimbCollides, LoneChildZero, NoLoneAncestor, BuildFrom;
    ProofsAreWhole(h, data, k);
    LoneAncestorIff(h, data, k);
    BuildFromLeaves(data);
    var t := BuildFrom(data);
    ProofAcceptedIff(h, t, k);
    if !ClimbCollides(h, t, k) && !LoneChildZero(h, t, k) {
      LoneAncestorRejected(h, t, k);
    }
  }

  /**
   Any accepted proof with the directions of the generated one of an always paired leaf carries
   that leaf's hash, or the two climbs hash different bytes to the same value at some level.
   */
  lemma AcceptedProofIsOfLeaf(h: Hasher, data: seq<Bytes>, k: nat, proof: Proof) returns (i: nat)
    requires k < |data| <= Pow2(64) && HashLength(h) && AlwaysPaired(|data|, k)
    requires |proof.leafHash| == HASH_LEN && WellSized(proof.path)
    requires SameDirections(proof.path, LeafPath(h, data, k))
    requires Climb(Combine(h), proof.leafHash, proof.path) == Hash(h, BuildFrom(data))
    ensures || proof.leafHash == h(data[k])
            || (&& i < |proof.path|
                && HashCollision(h, HashedAt(h, proof.leafHash, proof.path, i),
                                 HashedAt(h, h(data[k]), LeafPath(h, data, k), i)))
  {
    i := 0;
    PairedLeafVerifies(h, data, k);
    ProofsAreWhole(h, data, k);
    BuildFromLeaves(data);
    SiblingsWellSized(h, BuildFrom(data), k);
    if proof.leafHash != h(data[k]) {
      i := ProofsBind(h, proof.leafHash, proof.path, h(data[k]), LeafPath(h, data, k));
    }
  }

  /** Adding, proving and verifying, as calls: the proof of a leaf that is always paired is accepted. */
  method ProofRound(h: Hasher, data: seq<Bytes>, k: nat) returns (valid: bool)
    requires [] !in data && k < |data| <= Pow2(64) && AlwaysPaired(|data|, k)
    ensures valid
  {
    hide BuildFrom, LeafPath, Combine, Hash, AlwaysPaired, Pow2, AddedAll, Tree.Valid, Tree.Contents;
    var tree := new Tree.Init(h);
    EmptyNodes();
    var _ := tree.AddLeaves(data);
    AcceptedAll(data);
    RunKeepsLeaves([], data);
    ghost var leaves := AddedAll([], data);
    assert |leaves| == |multiset(leaves)| == |multiset(data)| == |data|;
    NodesAllocated(tree.shape);
    var proof := tree.GenerateProof(k);
    var root := tree.GetRoot();
    PairedLeafVerifies(h, leaves, k);
    valid := VerifyProof(h, root.value, proof.value);
  }
}
