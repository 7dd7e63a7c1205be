/**
  The rotation engine: `rotateLeft`, `rotateRight` and `rotateUp`.

  In the source a rotation also rewires the grandparent's child pointer to the
  new subtree root. With immutable trees the grandparent is rebuilt by its
  caller around the returned subtree, so the grandparent argument disappears.
*/
module Rotation {
  import opened Elements
  import opened Trees

  /** `rotateLeft(node, parent, _)`: the right child becomes the subtree root.
      Stored sizes are carried over unchanged; `RotateUp` repairs them. */
  function RotateLeft(t: Tree): (r: Tree)
    requires t.Node? && t.right.Node?
    ensures InOrder(r) == InOrder(t)
    ensures HeapKeys(r) == HeapKeys(t)
    ensures r.Node? && r.data == t.right.data && r.heapKey == t.right.heapKey
  {
    var n := t.right;
    Node(n.data, n.heapKey, n.size, Node(t.data, t.heapKey, t.size, t.left, n.left), n.right)
  }

  /** `rotateRight(node, parent, _)`: the left child becomes the subtree root. */
  function RotateRight(t: Tree): (r: Tree)
    requires t.Node? && t.left.Node?
    ensures InOrder(r) == InOrder(t)
    ensures HeapKeys(r) == HeapKeys(t)
    ensures r.Node? && r.data == t.left.data && r.heapKey == t.left.heapKey
  {
    var n := t.left;
    Node(n.data, n.heapKey, n.size, n.left, Node(t.data, t.heapKey, t.size, n.right, t.right))
  }

  /** A copy of node `t` whose stored size is recomputed from its children. */
  function Resized(t: Tree): (r: Tree)
    requires t.Node?
    ensures SizesOk(t.left) && SizesOk(t.right) ==> SizesOk(r)
    ensures InOrder(r) == InOrder(t) && HeapKeys(r) == HeapKeys(t)
    ensures r.Node? && r.data == t.data && r.heapKey == t.heapKey
  {
    Node(t.data, t.heapKey, SizeOf(t.left) + SizeOf(t.right) + 1, t.left, t.right)
  }

  /** `rotateUp(node, parent, _)`: lift the child of `t` in direction `d` above
      `t`, then recompute the stored sizes -- the demoted parent first, the
      lifted node second. */
  function RotateUp(t: Tree, d: Dir): (r: Tree)
    requires t.Node? && Child(t, d).Node?
    ensures r.Node? && r.data == Child(t, d).data && r.heapKey == Child(t, d).heapKey
  {
    if d == Left then
      var rotated := RotateRight(t);
      Resized(Node(rotated.data, rotated.heapKey, rotated.size, rotated.left, Resized(rotated.right)))
    else
      var rotated := RotateLeft(t);
      Resized(Node(rotated.data, rotated.heapKey, rotated.size, Resized(rotated.left), rotated.right))
  }

  /** A rotation keeps the elements in order and the heap keys, and -- once
      the two sizes are recomputed -- the size bookkeeping of the subtree. */
  lemma RotateUpPreserves(t: Tree, d: Dir)
    requires t.Node? && Child(t, d).Node?
    ensures InOrder(RotateUp(t, d)) == InOrder(t)
    ensures HeapKeys(RotateUp(t, d)) == HeapKeys(t)
    ensures SizesOk(Child(t, d).left) && SizesOk(Child(t, d).right) && SizesOk(Child(t, Opposite(d)))
      ==> SizesOk(RotateUp(t, d)) && SizeOf(RotateUp(t, d)) == |InOrder(t)|
  {
    if d == Left {
      LiftLeftPreserves(t);
    } else {
      LiftRightPreserves(t);
    }
  }

  lemma LiftLeftPreserves(t: Tree)
    requires t.Node? && t.left.Node?
    ensures InOrder(RotateUp(t, Left)) == InOrder(t)
    ensures HeapKeys(RotateUp(t, Left)) == HeapKeys(t)
    ensures SizesOk(t.left.left) && SizesOk(t.left.right) && SizesOk(t.right)
      ==> SizesOk(RotateUp(t, Left)) && SizeOf(RotateUp(t, Left)) == |InOrder(t)|
  {
    LiftLeftShape(t);
    LiftLeftInOrder(t);
    LiftLeftHeapKeys(t);
    LiftLeftSizes(t);
  }

  /** The tree `RotateUp(t, Left)` written out. */
  function LiftedLeft(t: Tree): Tree
    requires t.Node? && t.left.Node?
  {
    var c := t.left;
    var lower := Node(t.data, t.heapKey, SizeOf(c.right) + SizeOf(t.right) + 1, c.right, t.right);
    Node(c.data, c.heapKey, SizeOf(c.left) + lower.size + 1, c.left, lower)
  }

  lemma LiftLeftShape(t: Tree)
    requires t.Node? && t.left.Node?
    ensures RotateUp(t, Left) == LiftedLeft(t)
  {
  }

  lemma LiftLeftInOrder(t: Tree)
    requires t.Node? && t.left.Node?
    ensures InOrder(LiftedLeft(t)) == InOrder(t)
  {
    var c, lifted := t.left, LiftedLeft(t);
    var a, b, e := InOrder(c.left), InOrder(c.right), InOrder(t.right);
    assert InOrder(lifted.right) == b + [t.data] + e;
    assert InOrder(lifted) == a + [c.data] + InOrder(lifted.right);
    assert InOrder(c) == a + [c.data] + b;
    Regroup(a, c.data, b, t.data, e);
  }

  lemma Regroup<T>(a: seq<T>, x: T, b: seq<T>, y: T, e: seq<T>)
    ensures a + [x] + (b + [y] + e) == (a + [x] + b) + [y] + e
  {
  }

  lemma LiftLeftHeapKeys(t: Tree)
    requires t.Node? && t.left.Node?
    ensures HeapKeys(LiftedLeft(t)) == HeapKeys(t)
  {
    var c := t.left;
    calc {
      HeapKeys(LiftedLeft(t));
      HeapKeys(c.left) + multiset{c.heapKey} + (HeapKeys(c.right) + multiset{t.heapKey} + HeapKeys(t.right));
      (HeapKeys(c.left) + multiset{c.heapKey} + HeapKeys(c.right)) + multiset{t.heapKey} + HeapKeys(t.right);
    }
  }

  lemma LiftLeftSizes(t: Tree)
    requires t.Node? && t.left.Node?
    ensures SizesOk(t.left.left) && SizesOk(t.left.right) && SizesOk(t.right)
      ==> SizesOk(LiftedLeft(t)) && SizeOf(LiftedLeft(t)) == |InOrder(t)|
  {
    var c := t.left;
    if SizesOk(c.left) && SizesOk(c.right) && SizesOk(t.right) {
      SizeIsLength(c.left);
      SizeIsLength(c.right);
      SizeIsLength(t.right);
    }
  }

  lemma LiftRightPreserves(t: Tree)
    requires t.Node? && t.right.Node?
    ensures InOrder(RotateUp(t, Right)) == InOrder(t)
    ensures HeapKeys(RotateUp(t, Right)) == HeapKeys(t)
    ensures SizesOk(t.right.left) && SizesOk(t.right.right) && SizesOk(t.left)
      ==> SizesOk(RotateUp(t, Right)) && SizeOf(RotateUp(t, Right)) == |InOrder(t)|
  {
    LiftRightShape(t);
    LiftRightInOrder(t);
    LiftRightHeapKeys(t);
    LiftRightSizes(t);
  }

  /** The tree `RotateUp(t, Right)` written out. */
  function LiftedRight(t: Tree): Tree
    requires t.Node? && t.right.Node?
  {
    var c := t.right;
    var lower := Node(t.data, t.heapKey, SizeOf(t.left) + SizeOf(c.left) + 1, t.left, c.left);
    Node(c.data, c.heapKey, lower.size + SizeOf(c.right) + 1, lower, c.right)
  }

  lemma LiftRightShape(t: Tree)
    requires t.Node? && t.right.Node?
    ensures RotateUp(t, Right) == LiftedRight(t)
  {
  }

  lemma LiftRightInOrder(t: Tree)
    requires t.Node? && t.right.Node?
    ensures InOrder(LiftedRight(t)) == InOrder(t)
  {
    var c, lifted := t.right, LiftedRight(t);
    var a, b, e := InOrder(t.left), InOrder(c.left), InOrder(c.right);
    assert InOrder(lifted.left) == a + [t.data] + b;
    assert InOrder(lifted) == InOrder(lifted.left) + [c.data] + e;
    assert InOrder(c) == b + [c.data] + e;
    Regroup(a, t.data, b, c.data, e);
  }

  lemma LiftRightHeapKeys(t: Tree)
    requires t.Node? && t.right.Node?
    ensures HeapKeys(LiftedRight(t)) == HeapKeys(t)
  {
    var c := t.right;
    calc {
      HeapKeys(LiftedRight(t));
      (HeapKeys(t.left) + multiset{t.heapKey} + HeapKeys(c.left)) + multiset{c.heapKey} + HeapKeys(c.right);
      HeapKeys(t.left) + multiset{t.heapKey} + (HeapKeys(c.left) + multiset{c.heapKey} + HeapKeys(c.right));
    }
  }

  lemma LiftRightSizes(t: Tree)
    requires t.Node? && t.right.Node?
    ensures SizesOk(t.right.left) && SizesOk(t.right.right) && SizesOk(t.left)
      ==> SizesOk(LiftedRight(t)) && SizeOf(LiftedRight(t)) == |InOrder(t)|
  {
    var c := t.right;
    if SizesOk(t.left) && SizesOk(c.left) && SizesOk(c.right) {
      SizeIsLength(t.left);
      SizeIsLength(c.left);
      SizeIsLength(c.right);
    }
  }

  /** Lifting a child whose heap key is not greater than its parent's gives a
      heap-ordered subtree, provided the grandchild that moves under the old
      parent has keys at least the parent's. */
  lemma RotateUpKeepsHeap(t: Tree, d: Dir)
    requires t.Node? && Child(t, d).Node?
    requires HeapOrdered(Child(t, d)) && HeapOrdered(Child(t, Opposite(d)))
    requires KeyAtLeast(Child(t, Opposite(d)), t.heapKey)
    requires Child(t, d).heapKey <= t.heapKey
    requires AllKeysAtLeast(Child(Child(t, d), Opposite(d)), t.heapKey)
    ensures HeapOrdered(RotateUp(t, d))
  {
    var c := Child(t, d);
    var moved := Child(c, Opposite(d));
    if moved.Node? {
      assert moved.heapKey in HeapKeys(moved);
    }
    if d == Left {
      LiftLeftShape(t);
      LiftLeftKeepsHeap(t);
    } else {
      LiftRightShape(t);
      LiftRightKeepsHeap(t);
    }
  }

  lemma LiftLeftKeepsHeap(t: Tree)
    requires t.Node? && t.left.Node?
    requires HeapOrdered(t.left) && HeapOrdered(t.right)
    requires KeyAtLeast(t.right, t.heapKey) && t.left.heapKey <= t.heapKey
    requires KeyAtLeast(t.left.right, t.heapKey)
    ensures HeapOrdered(LiftedLeft(t))
  {
  }

  lemma LiftRightKeepsHeap(t: Tree)
    requires t.Node? && t.right.Node?
    requires HeapOrdered(t.left) && HeapOrdered(t.right)
    requires KeyAtLeast(t.left, t.heapKey) && t.right.heapKey <= t.heapKey
    requires KeyAtLeast(t.right.left, t.heapKey)
    ensures HeapOrdered(LiftedRight(t))
  {
  }
}
