/**
  `insertNode` / `insertNodeNoClone`: descend to a leaf position, copy the
  root-to-leaf path with every stored size incremented, hang the new node
  there, then rotate it up while its heap key is strictly smaller than its
  parent's.

  The source walks the copied path bottom-up with an explicit stack and stops
  at the first parent that does not violate heap order. The recursion below
  returns, with each rebuilt subtree, whether the new node has risen to its
  root: only then is it compared with the next parent up, which is the same
  stopping rule. The in-place variant used by the bulk loader performs the same
  rotations on the original nodes; on immutable values the two coincide.
*/
module Insertion {
  import opened Elements
  import opened Trees
  import opened Rotation

  /** A rebuilt subtree and whether the inserted node is now its root. */
  datatype Inserted = Inserted(tree: Tree, rose: bool)

  /** Where the descent of `insertNode` puts `x` in the in-order sequence:
      left of a node exactly when `x` is less than the node's element. */
  ghost function InsertPos(t: Tree, x: Elem): nat {
    if t.Leaf? then 0
    else if Lt(x, t.data) then InsertPos(t.left, x)
    else |InOrder(t.left)| + 1 + InsertPos(t.right, x)
  }

  /** The child `insertNode` descends into: left exactly when `x` is less. */
  function Descend(t: Tree, x: Elem): Dir
    requires t.Node?
  {
    if Lt(x, t.data) then Left else Right
  }

  /** The copy of `t` on the insertion path: its stored size is incremented
      and its child in direction `d` replaced by the rebuilt subtree. */
  function Relink(t: Tree, d: Dir, sub: Tree): (r: Tree)
    requires t.Node?
    ensures r.Node? && Child(r, d) == sub && Child(r, Opposite(d)) == Child(t, Opposite(d))
    ensures r.data == t.data && r.heapKey == t.heapKey
    ensures HeapKeys(r) + HeapKeys(Child(t, d)) == HeapKeys(t) + HeapKeys(sub)
  {
    if d == Left then Node(t.data, t.heapKey, t.size + 1, sub, t.right)
    else Node(t.data, t.heapKey, t.size + 1, t.left, sub)
  }

  function InsertRec(t: Tree, x: Elem, hk: int): (r: Inserted)
    ensures r.tree.Node?
    ensures r.rose ==> r.tree.data == x && r.tree.heapKey == hk
    ensures !r.rose ==> t.Node? && r.tree.data == t.data && r.tree.heapKey == t.heapKey
  {
    if t.Leaf? then Inserted(Node(x, hk, 1, Leaf, Leaf), true)
    else
      var d := Descend(t, x);
      var below := InsertRec(Child(t, d), x, hk);
      var cloned := Relink(t, d, below.tree);
      if below.rose && hk < t.heapKey then
        Inserted(RotateUp(cloned, d), true)
      else
        Inserted(cloned, false)
  }

  /** One level of the insertion: the rebuilt node, before any rotation, has
      the same elements in the same order as the final one. */
  lemma InsertUnfold(t: Tree, x: Elem, hk: int)
    requires t.Node?
    ensures var d := Descend(t, x);
      InOrder(InsertRec(t, x, hk).tree) == InOrder(Relink(t, d, InsertRec(Child(t, d), x, hk).tree))
  {
    var d := Descend(t, x);
    RotateUpPreserves(Relink(t, d, InsertRec(Child(t, d), x, hk).tree), d);
  }

  /** `insertNode(node)` for a node holding `x` with heap key `hk`. */
  function InsertNode(t: Tree, x: Elem, hk: int): (r: Tree)
    ensures r.Node?
    ensures InsertPos(t, x) <= |InOrder(t)|
    ensures InOrder(r) == InOrder(t)[..InsertPos(t, x)] + [x] + InOrder(t)[InsertPos(t, x)..]
    ensures HeapKeys(r) == HeapKeys(t) + multiset{hk}
  {
    InsertInOrder(t, x, hk);
    InsertHeapKeys(t, x, hk);
    InsertRec(t, x, hk).tree
  }

  /** The heap keys of the result are those of `t` plus the new one. */
  lemma {:induction false} InsertHeapKeys(t: Tree, x: Elem, hk: int)
    ensures HeapKeys(InsertRec(t, x, hk).tree) == HeapKeys(t) + multiset{hk}
  {
    if t.Node? {
      var d := Descend(t, x);
      var below := InsertRec(Child(t, d), x, hk);
      InsertHeapKeys(Child(t, d), x, hk);
      var cloned := Relink(t, d, below.tree);
      CancelBag(HeapKeys(cloned), HeapKeys(Child(t, d)), HeapKeys(t) + multiset{hk});
      if below.rose && hk < t.heapKey {
        RotateUpPreserves(cloned, d);
      }
    }
  }

  /** The descent position is the upper bound of `x`: after every element
      not greater than `x`, before every element greater than it. */
  lemma {:induction false} InsertPosIsUpperBound(t: Tree, x: Elem)
    ensures InsertPos(t, x) <= |InOrder(t)|
    ensures Sorted(InOrder(t)) ==> IsUpperBound(InOrder(t), x, InsertPos(t, x))
  {
    if t.Node? {
      var l, r := InOrder(t.left), InOrder(t.right);
      InsertPosIsUpperBound(t.left, x);
      InsertPosIsUpperBound(t.right, x);
      if Sorted(InOrder(t)) {
        SortedSplit(l, t.data, r);
        if Lt(x, t.data) {
          UpperBoundInLeft(l, t.data, r, x, InsertPos(t.left, x));
        } else {
          UpperBoundInRight(l, t.data, r, x, InsertPos(t.right, x));
        }
      }
    }
  }

  /** The new element appears at the descent position; everything else keeps
      its order. */
  lemma {:induction false} InsertInOrder(t: Tree, x: Elem, hk: int)
    ensures InsertPos(t, x) <= |InOrder(t)|
    ensures InOrder(InsertRec(t, x, hk).tree)
      == InOrder(t)[..InsertPos(t, x)] + [x] + InOrder(t)[InsertPos(t, x)..]
  {
    InsertPosIsUpperBound(t, x);
    if t.Node? {
      InsertUnfold(t, x, hk);
      InsertInOrder(Child(t, Descend(t, x)), x, hk);
      if Descend(t, x) == Left {
        InsertedLeft(t, x, InOrder(InsertRec(t.left, x, hk).tree));
      } else {
        InsertedRight(t, x, InOrder(InsertRec(t.right, x, hk).tree));
      }
    }
  }

  lemma InsertedLeft(t: Tree, x: Elem, below: seq<Elem>)
    requires t.Node? && Lt(x, t.data) && InsertPos(t.left, x) <= |InOrder(t.left)|
    requires below == InOrder(t.left)[..InsertPos(t.left, x)] + [x] + InOrder(t.left)[InsertPos(t.left, x)..]
    ensures below + [t.data] + InOrder(t.right)
      == InOrder(t)[..InsertPos(t, x)] + [x] + InOrder(t)[InsertPos(t, x)..]
  {
    assert InOrder(t) == InOrder(t.left) + [t.data] + InOrder(t.right);
    SpliceLeft(InOrder(t.left), t.data, InOrder(t.right), InsertPos(t.left, x), x);
  }

  lemma SpliceLeft<T>(l: seq<T>, d: T, r: seq<T>, q: nat, x: T)
    requires q <= |l|
    ensures (l[..q] + [x] + l[q..]) + [d] + r == (l + [d] + r)[..q] + [x] + (l + [d] + r)[q..]
  {
    var s := l + [d] + r;
    assert s[..q] == l[..q];
    assert s[q..] == l[q..] + [d] + r;
  }

  lemma SpliceRight<T>(l: seq<T>, d: T, r: seq<T>, q: nat, x: T)
    requires q <= |r|
    ensures l + [d] + (r[..q] + [x] + r[q..])
      == (l + [d] + r)[..|l| + 1 + q] + [x] + (l + [d] + r)[|l| + 1 + q..]
  {
    var s := l + [d] + r;
    var p := |l| + 1 + q;
    assert s[..p] == l + [d] + r[..q];
    assert s[p..] == r[q..];
  }

  lemma InsertedRight(t: Tree, x: Elem, below: seq<Elem>)
    requires t.Node? && !Lt(x, t.data) && InsertPos(t.right, x) <= |InOrder(t.right)|
    requires below == InOrder(t.right)[..InsertPos(t.right, x)] + [x] + InOrder(t.right)[InsertPos(t.right, x)..]
    ensures InOrder(t.left) + [t.data] + below
      == InOrder(t)[..InsertPos(t, x)] + [x] + InOrder(t)[InsertPos(t, x)..]
  {
    assert InOrder(t) == InOrder(t.left) + [t.data] + InOrder(t.right);
    assert InsertPos(t, x) == |InOrder(t.left)| + 1 + InsertPos(t.right, x);
    SpliceRight(InOrder(t.left), t.data, InOrder(t.right), InsertPos(t.right, x), x);
  }

  /** Every stored size stays one plus its children's, and grows by one. */
  lemma {:induction false} InsertSizes(t: Tree, x: Elem, hk: int)
    requires SizesOk(t)
    ensures SizesOk(InsertRec(t, x, hk).tree)
    ensures SizeOf(InsertRec(t, x, hk).tree) == SizeOf(t) + 1
  {
    if t.Node? {
      var d := Descend(t, x);
      var below := InsertRec(Child(t, d), x, hk);
      InsertSizes(Child(t, d), x, hk);
      var cloned := Relink(t, d, below.tree);
      assert SizesOk(cloned);
      if below.rose && hk < t.heapKey {
        RotateUpPreserves(cloned, d);
        SizeIsLength(cloned);
      }
    }
  }

  /** Rotating the new node up until its parent's heap key is not greater
      restores heap order. */
  lemma {:induction false} InsertHeap(t: Tree, x: Elem, hk: int)
    requires HeapOrdered(t)
    ensures HeapOrdered(InsertRec(t, x, hk).tree)
  {
    if t.Node? {
      var d := Descend(t, x);
      var c := Child(t, d);
      var below := InsertRec(c, x, hk);
      InsertHeap(c, x, hk);
      InsertHeapKeys(c, x, hk);
      if below.rose && hk < t.heapKey {
        LiftKeepsHeap(t, d, below.tree);
      } else {
        assert HeapOrdered(Relink(t, d, below.tree));
      }
    }
  }

  /** Lifting a rebuilt child whose root carries the only new heap key, when
      that key is smaller than the parent's. */
  lemma LiftKeepsHeap(t: Tree, d: Dir, sub: Tree)
    requires t.Node? && HeapOrdered(t)
    requires sub.Node? && HeapOrdered(sub) && sub.heapKey < t.heapKey
    requires HeapKeys(sub) == HeapKeys(Child(t, d)) + multiset{sub.heapKey}
    ensures HeapOrdered(RotateUp(Relink(t, d, sub), d))
  {
    var cloned := Relink(t, d, sub);
    var c := Child(t, d);
    var moved, kept := Child(sub, Opposite(d)), Child(sub, d);
    ChildKeysAtLeast(t, d);
    KeysBySide(sub, d);
    KeysOfPart(HeapKeys(moved), HeapKeys(kept), HeapKeys(c), sub.heapKey, t.heapKey);
    RotateUpKeepsHeap(cloned, d);
  }

  lemma KeysBySide(t: Tree, d: Dir)
    requires t.Node?
    ensures HeapKeys(t) == HeapKeys(Child(t, Opposite(d))) + HeapKeys(Child(t, d)) + multiset{t.heapKey}
  {
  }

  /** The keys of one part of a bag that equals `c` plus `h` once `h` is
      added back are keys of `c`, so they share its lower bound. */
  lemma KeysOfPart(m: multiset<int>, kept: multiset<int>, c: multiset<int>, h: int, b: int)
    requires m + kept + multiset{h} == c + multiset{h}
    requires forall k | k in c :: b <= k
    ensures forall k | k in m :: b <= k
  {
    forall k | k in m ensures b <= k {
      assert (m + kept + multiset{h})[k] == (c + multiset{h})[k];
      assert k in c;
    }
  }

  lemma CancelBag(a: multiset<int>, c: multiset<int>, b: multiset<int>)
    requires a + c == b + c
    ensures a == b
  {
    forall k ensures a[k] == b[k] {
      assert (a + c)[k] == (b + c)[k];
    }
  }

  lemma ChildKeysAtLeast(t: Tree, d: Dir)
    requires t.Node? && HeapOrdered(t)
    ensures AllKeysAtLeast(Child(t, d), t.heapKey)
  {
    var c := Child(t, d);
    if c.Node? {
      HeapRootIsMin(c);
    }
  }

  /** `insertNode` on a valid treap: the result is valid, one larger, and
      holds `x` right after the elements not greater than it. */
  lemma InsertNodeCorrect(t: Tree, x: Elem, hk: int)
    requires Valid(t)
    ensures Valid(InsertNode(t, x, hk))
    ensures HeapKeys(InsertNode(t, x, hk)) == HeapKeys(t) + multiset{hk}
    ensures SizeOf(InsertNode(t, x, hk)) == SizeOf(t) + 1
    ensures InOrder(InsertNode(t, x, hk)) == InOrder(t)[..UpperIndex(InOrder(t), x)] + [x]
      + InOrder(t)[UpperIndex(InOrder(t), x)..]
  {
    var s := InOrder(t);
    InsertPosIsUpperBound(t, x);
    UpperBoundUnique(s, x, InsertPos(t, x), UpperIndex(s, x));
    InsertInOrder(t, x, hk);
    InsertSizes(t, x, hk);
    InsertHeap(t, x, hk);
    InsertHeapKeys(t, x, hk);
    InsertKeepsSorted(s, x, UpperIndex(s, x));
  }
}
