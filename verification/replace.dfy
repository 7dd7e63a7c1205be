/**
  The path copy behind `update`: `clonePtrs` copies the root-to-node path and
  the copy of the last node gets the new element. Heap keys, stored sizes and
  the shape are untouched.
*/
module Replace {
  import opened Elements
  import opened Trees

  /** Copy the path `p` and put `x` into the node it leads to. */
  function ReplaceAt(t: Tree, p: seq<Dir>, x: Elem): (r: Tree)
    requires ValidPath(t, p)
    ensures SameShape(t, r)
    ensures PathIndex(t, p) < |InOrder(t)| && InOrder(r) == InOrder(t)[PathIndex(t, p) := x]
    ensures ValidPath(r, p) && Subtree(r, p).data == x
    decreases |p|
  {
    PathElement(t, p);
    if |p| == 0 then
      SameShapeRefl(t.left);
      SameShapeRefl(t.right);
      Node(x, t.heapKey, t.size, t.left, t.right)
    else
      var d, q := p[0], p[1..];
      PathCons(t, d, q);
      assert [d] + q == p;
      var sub := ReplaceAt(Child(t, d), q, x);
      GraftShape(t, d, sub);
      GraftOrder(t, d, sub, PathIndex(Child(t, d), q), x);
      GraftPath(t, d, q, sub);
      Graft(t, d, sub)
  }

  /** The copy of node `t` whose child `d` is replaced by `c`. */
  function Graft(t: Tree, d: Dir, c: Tree): (r: Tree)
    requires t.Node?
    ensures r.Node? && Child(r, d) == c && Child(r, Opposite(d)) == Child(t, Opposite(d))
  {
    if d == Left then Node(t.data, t.heapKey, t.size, c, t.right)
    else Node(t.data, t.heapKey, t.size, t.left, c)
  }

  lemma GraftShape(t: Tree, d: Dir, c: Tree)
    requires t.Node? && SameShape(Child(t, d), c)
    ensures SameShape(t, Graft(t, d, c))
  {
    SameShapeRefl(Child(t, Opposite(d)));
  }

  /** Writing position `j` of the grafted child writes the matching position
      of the whole in-order sequence. */
  lemma GraftOrder(t: Tree, d: Dir, c: Tree, j: nat, x: Elem)
    requires t.Node? && j < |InOrder(Child(t, d))|
    requires InOrder(c) == InOrder(Child(t, d))[j := x]
    ensures var k := (if d == Left then 0 else |InOrder(t.left)| + 1) + j;
      k < |InOrder(t)| && InOrder(Graft(t, d, c)) == InOrder(t)[k := x]
  {
    if d == Left {
      UpdateLeft(InOrder(t.left), t.data, InOrder(t.right), j, x);
    } else {
      UpdateRight(InOrder(t.left), t.data, InOrder(t.right), j, x);
    }
  }

  lemma UpdateLeft<T>(l: seq<T>, y: T, r: seq<T>, j: nat, x: T)
    requires j < |l|
    ensures l[j := x] + [y] + r == (l + [y] + r)[j := x]
  {
  }

  lemma UpdateRight<T>(l: seq<T>, y: T, r: seq<T>, j: nat, x: T)
    requires j < |r|
    ensures l + [y] + r[j := x] == (l + [y] + r)[|l| + 1 + j := x]
  {
  }

  /** The grafted copy keeps the path through child `d` and what it leads to. */
  lemma GraftPath(t: Tree, d: Dir, q: seq<Dir>, c: Tree)
    requires t.Node?
    ensures Subtree(Graft(t, d, c), [d] + q) == Subtree(c, q)
  {
    PathCons(Graft(t, d, c), d, q);
  }
}
