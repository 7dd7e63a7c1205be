/**
  The node tree of the treap (`TreapNode`) and its invariants.

  A node is an immutable value: every mutation in the source clones the nodes
  it changes and shares the rest, which in this model is simply building a new
  value. The stored `size` field is the source's `subtreeSize` counter; it is
  a field, not a computed quantity, so that the size bookkeeping of every
  operation can be checked against the real number of elements.
*/
module Trees {
  import opened Elements

  /** Which child of a node a step of a root-to-node path goes to. */
  datatype Dir = Left | Right

  datatype Tree =
    | Leaf
    | Node(data: Elem, heapKey: int, size: nat, left: Tree, right: Tree)

  /** `n ? n->subtreeSize : 0`: the stored size, zero for an absent child. */
  function SizeOf(t: Tree): nat {
    if t.Node? then t.size else 0
  }

  /** The elements in in-order (the order of `for_each` and of iteration). */
  function InOrder(t: Tree): seq<Elem> {
    if t.Leaf? then [] else InOrder(t.left) + [t.data] + InOrder(t.right)
  }

  /** Every stored size is one plus the stored sizes of the two children. */
  ghost predicate SizesOk(t: Tree) {
    t.Node? ==>
      && t.size == SizeOf(t.left) + SizeOf(t.right) + 1
      && SizesOk(t.left)
      && SizesOk(t.right)
  }

  /** The multiset of heap keys of all nodes. */
  ghost function HeapKeys(t: Tree): multiset<int> {
    if t.Leaf? then multiset{} else HeapKeys(t.left) + multiset{t.heapKey} + HeapKeys(t.right)
  }

  ghost predicate AllKeysAtLeast(t: Tree, b: int) {
    forall k | k in HeapKeys(t) :: b <= k
  }

  /** The root of `t`, if any, has a heap key of at least `b`. */
  ghost predicate KeyAtLeast(t: Tree, b: int) {
    t.Node? ==> b <= t.heapKey
  }

  /** Min-heap order: no child has a smaller heap key than its parent. */
  ghost predicate HeapOrdered(t: Tree) {
    t.Node? ==>
      && KeyAtLeast(t.left, t.heapKey)
      && KeyAtLeast(t.right, t.heapKey)
      && HeapOrdered(t.left)
      && HeapOrdered(t.right)
  }

  /** The three invariants every version of the treap keeps. */
  ghost predicate Valid(t: Tree) {
    SizesOk(t) && Sorted(InOrder(t)) && HeapOrdered(t)
  }

  /** Two trees with the same shape, sizes and heap keys (data may differ). */
  ghost predicate SameShape(a: Tree, b: Tree) {
    match a
    case Leaf => b.Leaf?
    case Node(_, k, n, l, r) =>
      b.Node? && b.heapKey == k && b.size == n && SameShape(l, b.left) && SameShape(r, b.right)
  }

  lemma {:induction false} SizeIsLength(t: Tree)
    requires SizesOk(t)
    ensures SizeOf(t) == |InOrder(t)|
  {
    if t.Node? {
      SizeIsLength(t.left);
      SizeIsLength(t.right);
    }
  }

  /** In a heap-ordered tree the root carries the least heap key. */
  lemma {:induction false} HeapRootIsMin(t: Tree)
    requires HeapOrdered(t) && t.Node?
    ensures AllKeysAtLeast(t, t.heapKey)
  {
    if t.left.Node? {
      HeapRootIsMin(t.left);
    }
    if t.right.Node? {
      HeapRootIsMin(t.right);
    }
  }

  lemma {:induction false} SameShapeRefl(t: Tree)
    ensures SameShape(t, t)
  {
    if t.Node? {
      SameShapeRefl(t.left);
      SameShapeRefl(t.right);
    }
  }

  lemma {:induction false} SameShapeKeepsInvariants(a: Tree, b: Tree)
    requires SameShape(a, b)
    ensures SizesOk(a) ==> SizesOk(b)
    ensures HeapOrdered(a) ==> HeapOrdered(b)
    ensures |InOrder(a)| == |InOrder(b)|
  {
    if a.Node? {
      SameShapeKeepsInvariants(a.left, b.left);
      SameShapeKeepsInvariants(a.right, b.right);
    }
  }

  // ---------------------------------------------------------------------
  // Root-to-node paths.
  // ---------------------------------------------------------------------

  function Opposite(d: Dir): Dir {
    if d == Left then Right else Left
  }

  function Child(t: Tree, d: Dir): Tree
    requires t.Node?
  {
    if d == Left then t.left else t.right
  }

  /** The subtree reached by following `p` from `t` (a leaf once the path falls off). */
  function Subtree(t: Tree, p: seq<Dir>): Tree
    decreases |p|
  {
    if |p| == 0 then t
    else if t.Leaf? then Leaf
    else Subtree(Child(t, p[0]), p[1..])
  }

  /** `p` leads from the root of `t` to a node. */
  ghost predicate ValidPath(t: Tree, p: seq<Dir>) {
    Subtree(t, p).Node?
  }

  /** The number of elements in the left subtree of the root. */
  function LeftLen(t: Tree): nat {
    if t.Node? then |InOrder(t.left)| else 0
  }

  /** The in-order position of the first element of the subtree at `p`. */
  ghost function Offset(t: Tree, p: seq<Dir>): nat
    decreases |p|
  {
    if |p| == 0 || t.Leaf? then 0
    else if p[0] == Left then Offset(t.left, p[1..])
    else |InOrder(t.left)| + 1 + Offset(t.right, p[1..])
  }

  /** The in-order position of the node at `p`. */
  ghost function PathIndex(t: Tree, p: seq<Dir>): nat {
    Offset(t, p) + LeftLen(Subtree(t, p))
  }

  lemma {:induction false} SubtreeAppend(t: Tree, p: seq<Dir>, q: seq<Dir>)
    ensures Subtree(t, p + q) == Subtree(Subtree(t, p), q)
    decreases |p|
  {
    if |p| == 0 {
      assert p + q == q;
    } else if t.Leaf? {
      assert Subtree(Leaf, q) == Leaf by {
        if |q| > 0 {
          assert Subtree(Leaf, q) == Leaf;
        }
      }
    } else {
      assert (p + q)[1..] == p[1..] + q;
      SubtreeAppend(Child(t, p[0]), p[1..], q);
    }
  }

  lemma {:induction false} OffsetAppend(t: Tree, p: seq<Dir>, q: seq<Dir>)
    ensures Offset(t, p + q) == Offset(t, p) + Offset(Subtree(t, p), q)
    decreases |p|
  {
    if |p| == 0 {
      assert p + q == q;
    } else if t.Leaf? {
    } else {
      assert (p + q)[0] == p[0];
      assert (p + q)[1..] == p[1..] + q;
      OffsetAppend(Child(t, p[0]), p[1..], q);
    }
  }

  lemma PathIndexAppend(t: Tree, p: seq<Dir>, q: seq<Dir>)
    ensures PathIndex(t, p + q) == Offset(t, p) + PathIndex(Subtree(t, p), q)
    ensures Subtree(t, p + q) == Subtree(Subtree(t, p), q)
  {
    SubtreeAppend(t, p, q);
    OffsetAppend(t, p, q);
  }

  /** One step down from the node at `p`. */
  lemma StepDown(t: Tree, p: seq<Dir>, d: Dir)
    requires ValidPath(t, p)
    ensures Subtree(t, p + [d]) == Child(Subtree(t, p), d)
    ensures Offset(t, p + [d]) ==
      if d == Left then Offset(t, p) else PathIndex(t, p) + 1
  {
    PathIndexAppend(t, p, [d]);
    var n := Subtree(t, p);
    assert Subtree(n, [d]) == Subtree(Child(n, d), []);
    assert Offset(n, [d]) == if d == Left then Offset(n.left, []) else |InOrder(n.left)| + 1 + Offset(n.right, []);
  }

  /** A path that starts with one step into a child. */
  lemma PathCons(t: Tree, d: Dir, q: seq<Dir>)
    requires t.Node?
    ensures Subtree(t, [d] + q) == Subtree(Child(t, d), q)
    ensures PathIndex(t, [d] + q) ==
      (if d == Left then 0 else |InOrder(t.left)| + 1) + PathIndex(Child(t, d), q)
  {
    PathIndexAppend(t, [d], q);
    StepDown(t, [], d);
    assert [] + [d] == [d];
  }

  /** The subtree at `p` occupies a contiguous slice of the in-order sequence. */
  lemma {:induction false} SubtreeSlice(t: Tree, p: seq<Dir>)
    ensures Offset(t, p) + |InOrder(Subtree(t, p))| <= |InOrder(t)|
    ensures InOrder(t)[Offset(t, p)..Offset(t, p) + |InOrder(Subtree(t, p))|] == InOrder(Subtree(t, p))
    decreases |p|
  {
    if |p| > 0 && t.Node? {
      var c, q := Child(t, p[0]), p[1..];
      SubtreeSlice(c, q);
      var l, r := InOrder(t.left), InOrder(t.right);
      var o, sub := Offset(c, q), InOrder(Subtree(c, q));
      assert Subtree(t, p) == Subtree(c, q);
      assert InOrder(t) == l + [t.data] + r;
      if p[0] == Left {
        assert Offset(t, p) == o;
        SliceLeft(l, t.data, r, o, sub);
      } else {
        assert Offset(t, p) == |l| + 1 + o;
        SliceRight(l, t.data, r, o, sub);
      }
    }
  }

  /** A slice of the left part of `l + [y] + r` is a slice of the whole. */
  lemma SliceLeft<T>(l: seq<T>, y: T, r: seq<T>, o: nat, sub: seq<T>)
    requires o + |sub| <= |l| && l[o..o + |sub|] == sub
    ensures (l + [y] + r)[o..o + |sub|] == sub
  {
    SliceOfPrefix(l, [y] + r, o, o + |sub|);
    assert l + [y] + r == l + ([y] + r);
  }

  /** A slice of the right part of `l + [y] + r` is a slice of the whole,
      shifted past `l` and `y`. */
  lemma SliceRight<T>(l: seq<T>, y: T, r: seq<T>, o: nat, sub: seq<T>)
    requires o + |sub| <= |r| && r[o..o + |sub|] == sub
    ensures (l + [y] + r)[|l| + 1 + o..|l| + 1 + o + |sub|] == sub
  {
    SliceOfSuffix(l + [y], r, o, o + |sub|);
  }

  lemma SliceOfPrefix<T>(a: seq<T>, b: seq<T>, i: int, j: int)
    requires 0 <= i <= j <= |a|
    ensures (a + b)[i..j] == a[i..j]
  {
  }

  lemma SliceOfSuffix<T>(a: seq<T>, b: seq<T>, i: int, j: int)
    requires 0 <= i <= j <= |b|
    ensures (a + b)[|a| + i..|a| + j] == b[i..j]
  {
  }

  /** The element at the in-order position of a node is that node's element. */
  lemma PathElement(t: Tree, p: seq<Dir>)
    requires ValidPath(t, p)
    ensures PathIndex(t, p) < |InOrder(t)|
    ensures InOrder(t)[PathIndex(t, p)] == Subtree(t, p).data
  {
    SubtreeSlice(t, p);
    var n := Subtree(t, p);
    var o := Offset(t, p);
    assert InOrder(n)[|InOrder(n.left)|] == n.data;
    assert InOrder(t)[o..o + |InOrder(n)|][|InOrder(n.left)|] == n.data;
  }

  /** Every prefix of a path to a node leads to a node. */
  lemma {:induction false} ValidPrefix(t: Tree, p: seq<Dir>, k: nat)
    requires ValidPath(t, p) && k <= |p|
    ensures ValidPath(t, p[..k])
  {
    SubtreeAppend(t, p[..k], p[k..]);
    assert p[..k] + p[k..] == p;
    SubtreeOfLeaf(p[k..]);
  }

  /** Every subtree of a tree with correct sizes has correct sizes. */
  lemma {:induction false} SubtreeSizesOk(t: Tree, p: seq<Dir>)
    requires SizesOk(t)
    ensures SizesOk(Subtree(t, p))
    decreases |p|
  {
    if |p| > 0 && t.Node? {
      SubtreeSizesOk(Child(t, p[0]), p[1..]);
    }
  }

  lemma SubtreeOfLeaf(q: seq<Dir>)
    ensures Subtree(Leaf, q) == Leaf
  {
  }

  /** Two paths to nodes with the same in-order position are the same path. */
  lemma {:induction false} PathIndexInjective(t: Tree, p: seq<Dir>, q: seq<Dir>)
    requires ValidPath(t, p) && ValidPath(t, q)
    requires PathIndex(t, p) == PathIndex(t, q)
    ensures p == q
    decreases |p|
  {
    if |p| > 0 && |q| > 0 {
      PathElementBounds(Child(t, p[0]), p[1..]);
      PathElementBounds(Child(t, q[0]), q[1..]);
      if p[0] == q[0] {
        PathIndexInjective(Child(t, p[0]), p[1..], q[1..]);
        assert p == [p[0]] + p[1..];
        assert q == [q[0]] + q[1..];
      }
    } else if |p| > 0 {
      PathElementBounds(Child(t, p[0]), p[1..]);
    } else if |q| > 0 {
      PathElementBounds(Child(t, q[0]), q[1..]);
    }
  }

  lemma PathElementBounds(t: Tree, p: seq<Dir>)
    requires ValidPath(t, p)
    ensures PathIndex(t, p) < |InOrder(t)|
  {
    PathElement(t, p);
  }

  // ---------------------------------------------------------------------
  // Extreme paths.
  // ---------------------------------------------------------------------

  /** The path that keeps going left from the root (`begin()`'s descent). */
  function LeftmostPath(t: Tree): (p: seq<Dir>)
    ensures forall i :: 0 <= i < |p| ==> p[i] == Left
  {
    if t.Leaf? || t.left.Leaf? then [] else [Left] + LeftmostPath(t.left)
  }

  /** The path that keeps going right from the root. */
  function RightmostPath(t: Tree): (p: seq<Dir>)
    ensures forall i :: 0 <= i < |p| ==> p[i] == Right
  {
    if t.Leaf? || t.right.Leaf? then [] else [Right] + RightmostPath(t.right)
  }

  /** A path of left steps to a node without a left child reaches position 0. */
  lemma {:induction false} AllLeftIsFirst(t: Tree, p: seq<Dir>)
    requires forall i :: 0 <= i < |p| ==> p[i] == Left
    requires ValidPath(t, p) && Subtree(t, p).left.Leaf?
    ensures PathIndex(t, p) == 0
    decreases |p|
  {
    if |p| > 0 {
      AllLeftIsFirst(t.left, p[1..]);
    }
  }

  /** A path of right steps to a node without a right child reaches the last position. */
  lemma {:induction false} AllRightIsLast(t: Tree, p: seq<Dir>)
    requires forall i :: 0 <= i < |p| ==> p[i] == Right
    requires ValidPath(t, p) && Subtree(t, p).right.Leaf?
    ensures PathIndex(t, p) == |InOrder(t)| - 1
    decreases |p|
  {
    if |p| > 0 {
      AllRightIsLast(t.right, p[1..]);
    }
  }

  /** The leftmost path of a non-empty tree leads to its first element. */
  lemma {:induction false} LeftmostIsFirst(t: Tree)
    requires t.Node?
    ensures ValidPath(t, LeftmostPath(t))
    ensures Subtree(t, LeftmostPath(t)).left.Leaf?
    ensures PathIndex(t, LeftmostPath(t)) == 0
  {
    if t.left.Node? {
      LeftmostIsFirst(t.left);
    }
    AllLeftIsFirst(t, LeftmostPath(t));
  }

  /** The rightmost path of a non-empty tree leads to its last element. */
  lemma {:induction false} RightmostIsLast(t: Tree)
    requires t.Node?
    ensures ValidPath(t, RightmostPath(t))
    ensures Subtree(t, RightmostPath(t)).right.Leaf?
    ensures PathIndex(t, RightmostPath(t)) == |InOrder(t)| - 1
  {
    if t.right.Node? {
      RightmostIsLast(t.right);
    }
    AllRightIsLast(t, RightmostPath(t));
  }
}
