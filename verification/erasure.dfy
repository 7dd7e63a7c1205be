/**
  Erasure: `deleteIterator`, `deleteRootNode`, `deleteAndGetBegin` and
  `deleteKey`.

  Every node on the root-to-victim path is copied with its stored size
  decremented. A victim with at most one child is replaced by that child. A
  victim with two children is replaced by its in-order successor -- the first
  node of its right subtree, detached from that subtree by a recursive erase --
  which takes over the victim's left subtree, the rest of the right subtree and
  the heap key of the victim's PARENT (the victim's own heap key when the
  victim is the root). The four source routines call one another, so the
  functions below are mutually recursive, ordered by the subtree they work on.
*/
module Erasure {
  import opened Elements
  import opened Trees

  /** `deleteAndGetBegin`'s pair: a childless size-1 copy of the first node,
      and the tree without it. */
  datatype Detached = Detached(first: Tree, rest: Tree)

  /** `s` with the element at position `i` removed. */
  function Without(s: seq<Elem>, i: nat): seq<Elem>
    requires i < |s|
  {
    s[..i] + s[i + 1..]
  }

  /** The root of `a`, if any, carries a heap key that occurs in `b`. */
  ghost predicate RootKeyFrom(a: Tree, b: Tree) {
    a.Node? ==> a.heapKey in HeapKeys(b)
  }

  /** `deleteIterator(it)` for the cursor at path `p`. */
  function DeleteAt(t: Tree, p: seq<Dir>): (r: Tree)
    requires SizesOk(t) && ValidPath(t, p)
    ensures SizesOk(r) && SizeOf(r) == SizeOf(t) - 1
    ensures PathIndex(t, p) < |InOrder(t)| && InOrder(r) == Without(InOrder(t), PathIndex(t, p))
    decreases t, 1
  {
    PathElement(t, p);
    if |p| == 0 then
      WithoutRoot(t);
      DeleteRoot(t)
    else
      DeleteBelow(t, p)
  }

  /** `deleteRootNode()`. */
  function DeleteRoot(t: Tree): (r: Tree)
    requires SizesOk(t) && t.Node?
    ensures SizesOk(r) && SizeOf(r) == SizeOf(t) - 1
    ensures InOrder(r) == InOrder(t.left) + InOrder(t.right)
    decreases t, 0
  {
    if t.right.Leaf? then
      t.left
    else if t.left.Leaf? then
      t.right
    else
      var parts := DeleteAndGetBegin(t.right);
      Node(parts.first.data, t.heapKey, t.size - 1, t.left, parts.rest)
  }

  /** The part of `deleteIterator` below the root: `p` is non-empty. Each
      node on the path is copied with its stored size decremented. */
  function DeleteBelow(t: Tree, p: seq<Dir>): (r: Tree)
    requires SizesOk(t) && ValidPath(t, p) && |p| > 0
    ensures SizesOk(r) && SizeOf(r) == SizeOf(t) - 1
    ensures PathIndex(t, p) < |InOrder(t)| && InOrder(r) == Without(InOrder(t), PathIndex(t, p))
    ensures r.Node? && r.heapKey == t.heapKey
    decreases t, 0
  {
    var d, q := p[0], p[1..];
    DescendStep(t, p);
    var l, x, rt := InOrder(t.left), [t.data], InOrder(t.right);
    if d == Left then
      var sub := Reduce(t.left, q, t.heapKey);
      WithoutLeft(l, x, rt, PathIndex(t.left, q));
      Node(t.data, t.heapKey, t.size - 1, sub, t.right)
    else
      var sub := Reduce(t.right, q, t.heapKey);
      WithoutRight(l, x, rt, PathIndex(t.right, q));
      Node(t.data, t.heapKey, t.size - 1, t.left, sub)
  }

  /** What replaces the child `c` on the path: the victim's replacement when
      `c` is the victim, otherwise `c` with the victim removed further down. */
  function Reduce(c: Tree, q: seq<Dir>, parentKey: int): (r: Tree)
    requires SizesOk(c) && ValidPath(c, q)
    ensures SizesOk(r) && SizeOf(r) == SizeOf(c) - 1
    ensures PathIndex(c, q) < |InOrder(c)| && InOrder(r) == Without(InOrder(c), PathIndex(c, q))
    decreases c, 1
  {
    PathElement(c, q);
    if |q| == 0 then
      WithoutRoot(c);
      Unlink(c, parentKey)
    else
      DeleteBelow(c, q)
  }

  lemma WithoutLeft(l: seq<Elem>, x: seq<Elem>, r: seq<Elem>, j: nat)
    requires j < |l| && |x| == 1
    ensures Without(l + x + r, j) == Without(l, j) + x + r
  {
    assert (l + x + r)[..j] == l[..j];
    assert (l + x + r)[j + 1..] == l[j + 1..] + x + r;
  }

  lemma WithoutRight(l: seq<Elem>, x: seq<Elem>, r: seq<Elem>, j: nat)
    requires j < |r| && |x| == 1
    ensures Without(l + x + r, |l| + 1 + j) == l + x + Without(r, j)
  {
    assert (l + x + r)[..|l| + 1 + j] == l + x + r[..j];
    assert (l + x + r)[|l| + 1 + j + 1..] == r[j + 1..];
  }

  /** The first step of a non-empty path: the victim's position in `t` is its
      position in the child's subtree, shifted past the left part when the
      step goes right. */
  lemma DescendStep(t: Tree, p: seq<Dir>)
    requires SizesOk(t) && ValidPath(t, p) && |p| > 0
    ensures t.Node? && SizesOk(Child(t, p[0])) && ValidPath(Child(t, p[0]), p[1..])
    ensures PathIndex(Child(t, p[0]), p[1..]) < |InOrder(Child(t, p[0]))|
    ensures PathIndex(t, p) == (if p[0] == Left then 0 else |InOrder(t.left)| + 1) + PathIndex(Child(t, p[0]), p[1..])
    ensures |p| == 1 ==>
      Without(InOrder(Child(t, p[0])), PathIndex(Child(t, p[0]), p[1..]))
        == InOrder(Child(t, p[0]).left) + InOrder(Child(t, p[0]).right)
  {
    var d, q := p[0], p[1..];
    PathCons(t, d, q);
    assert [d] + q == p;
    PathElement(Child(t, d), q);
    if |q| == 0 {
      WithoutRoot(Child(t, d));
    }
  }

  /** The replacement `deleteIterator` hangs under the victim's parent: the
      victim's only child, or the successor carrying `parentKey`. */
  function Unlink(c: Tree, parentKey: int): (r: Tree)
    requires SizesOk(c) && c.Node?
    ensures SizesOk(r) && SizeOf(r) == SizeOf(c) - 1
    ensures InOrder(r) == InOrder(c.left) + InOrder(c.right)
    decreases c, 0
  {
    if c.left.Leaf? || c.right.Leaf? then
      if c.left.Leaf? then c.right else c.left
    else
      var parts := DeleteAndGetBegin(c.right);
      Node(parts.first.data, parentKey, SizeOf(c.left) + SizeOf(parts.rest) + 1, c.left, parts.rest)
  }

  /** `deleteAndGetBegin()`. */
  function DeleteAndGetBegin(t: Tree): (r: Detached)
    requires SizesOk(t) && t.Node?
    ensures r.first.Node? && r.first.data == InOrder(t)[0]
    ensures SizesOk(r.rest) && SizeOf(r.rest) == SizeOf(t) - 1
    ensures InOrder(r.rest) == InOrder(t)[1..]
    decreases t, 2
  {
    LeftmostIsFirst(t);
    PathElement(t, LeftmostPath(t));
    var n := Subtree(t, LeftmostPath(t));
    Detached(Node(n.data, n.heapKey, 1, Leaf, Leaf), DeleteAt(t, LeftmostPath(t)))
  }

  // ---------------------------------------------------------------------
  // Heap order. The successor inherits the heap key of the victim's parent
  // (of the victim itself at the root); that key is no larger than any key
  // below the victim, so the non-strict min-heap order survives.
  // ---------------------------------------------------------------------

  lemma {:induction false} DeleteAtHeap(t: Tree, p: seq<Dir>)
    requires SizesOk(t) && ValidPath(t, p) && HeapOrdered(t)
    ensures HeapOrdered(DeleteAt(t, p)) && RootKeyFrom(DeleteAt(t, p), t)
    decreases t, 1
  {
    if |p| == 0 {
      DeleteRootHeap(t);
    } else {
      DeleteBelowHeap(t, p);
    }
  }

  lemma {:induction false} DeleteRootHeap(t: Tree)
    requires SizesOk(t) && t.Node? && HeapOrdered(t)
    ensures HeapOrdered(DeleteRoot(t)) && RootKeyFrom(DeleteRoot(t), t)
    decreases t, 0
  {
    ChildRootKeys(t);
    if t.left.Node? && t.right.Node? {
      LeftmostIsFirst(t.right);
      DeleteAtHeap(t.right, LeftmostPath(t.right));
      assert DeleteAndGetBegin(t.right).rest == DeleteAt(t.right, LeftmostPath(t.right));
      SuccessorKeepsHeap(t, t.heapKey, DeleteRoot(t));
      assert t.heapKey in HeapKeys(t);
    }
  }

  lemma {:induction false} DeleteBelowHeap(t: Tree, p: seq<Dir>)
    requires SizesOk(t) && ValidPath(t, p) && |p| > 0 && HeapOrdered(t)
    ensures HeapOrdered(DeleteBelow(t, p))
    decreases t, 0
  {
    DescendStep(t, p);
    var c, q := Child(t, p[0]), p[1..];
    if |q| == 0 {
      UnlinkHeap(c, t.heapKey);
    } else {
      DeleteBelowHeap(c, q);
    }
  }

  lemma {:induction false} UnlinkHeap(c: Tree, parentKey: int)
    requires SizesOk(c) && c.Node? && HeapOrdered(c) && parentKey <= c.heapKey
    ensures HeapOrdered(Unlink(c, parentKey)) && KeyAtLeast(Unlink(c, parentKey), parentKey)
    decreases c, 0
  {
    if c.left.Node? && c.right.Node? {
      LeftmostIsFirst(c.right);
      DeleteAtHeap(c.right, LeftmostPath(c.right));
      assert DeleteAndGetBegin(c.right).rest == DeleteAt(c.right, LeftmostPath(c.right));
      SuccessorKeepsHeap(c, parentKey, Unlink(c, parentKey));
    }
  }

  /** The successor node that replaces `c` under a parent whose heap key is
      `parentKey`: heap order survives because the parent's key is no larger
      than any key below `c`. */
  lemma SuccessorKeepsHeap(c: Tree, parentKey: int, r: Tree)
    requires c.Node? && r.Node? && r.heapKey == parentKey && r.left == c.left
    requires RootKeyFrom(r.right, c.right)
    requires HeapOrdered(c) ==> HeapOrdered(r.right)
  {
    if HeapOrdered(c) && parentKey <= c.heapKey {
      HeapOrderedParts(c);
    }
  }

  /** Removing a node's own element from its in-order sequence. */
  lemma WithoutRoot(t: Tree)
    requires t.Node?
    ensures PathIndex(t, []) == |InOrder(t.left)| < |InOrder(t)|
    ensures Without(InOrder(t), PathIndex(t, [])) == InOrder(t.left) + InOrder(t.right)
  {
    var l, r := InOrder(t.left), InOrder(t.right);
    assert InOrder(t)[..|l|] == l;
    assert InOrder(t)[|l| + 1..] == r;
  }

  lemma ChildRootKeys(t: Tree)
    requires t.Node?
  {
    if t.left.Node? {
      assert t.left.heapKey in HeapKeys(t.left);
    }
    if t.right.Node? {
      assert t.right.heapKey in HeapKeys(t.right);
    }
  }

  /** In a heap-ordered tree every key below a node is at least the node's. */
  lemma HeapOrderedParts(t: Tree)
    requires t.Node?
  {
    if HeapOrdered(t) {
      if t.left.Node? {
        HeapRootIsMin(t.left);
      }
      if t.right.Node? {
        HeapRootIsMin(t.right);
      }
    }
  }

  // ---------------------------------------------------------------------
  // The combined guarantee of `deleteIterator`.
  // ---------------------------------------------------------------------

  /** Removing position `i` takes exactly one copy of `s[i]` out of the multiset. */
  lemma WithoutMultiset(s: seq<Elem>, i: nat)
    requires i < |s|
    ensures multiset(Without(s, i)) == multiset(s) - multiset{s[i]}
  {
    assert s == s[..i] + [s[i]] + s[i + 1..];
  }

  /** A tree whose order is a sorted sequence less one position, and whose
      sizes and heap keys are in order, is a valid treap holding that
      sequence's elements less one copy of the removed one. */
  lemma RemovalValid(r: Tree, s: seq<Elem>, i: nat)
    requires SizesOk(r) && HeapOrdered(r) && Sorted(s) && i < |s|
    requires InOrder(r) == Without(s, i)
    ensures Valid(r) && multiset(InOrder(r)) == multiset(s) - multiset{s[i]}
  {
    RemoveKeepsSorted(s, i);
    WithoutMultiset(s, i);
  }

  /** On a valid treap, erasing at a cursor leaves a valid treap one smaller
      whose elements are the old ones minus exactly the element under the
      cursor. */
  lemma DeleteAtCorrect(t: Tree, p: seq<Dir>)
    requires Valid(t) && ValidPath(t, p)
    ensures Valid(DeleteAt(t, p))
    ensures SizeOf(DeleteAt(t, p)) == SizeOf(t) - 1
    ensures InOrder(DeleteAt(t, p)) == Without(InOrder(t), PathIndex(t, p))
    ensures multiset(InOrder(DeleteAt(t, p))) == multiset(InOrder(t)) - multiset{Subtree(t, p).data}
  {
    PathElement(t, p);
    DeleteAtHeap(t, p);
    RemovalValid(DeleteAt(t, p), InOrder(t), PathIndex(t, p));
  }
}
