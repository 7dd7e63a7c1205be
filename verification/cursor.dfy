/**
  The path-stack cursor (`TreapIterator`).

  The source keeps the root-to-current-node path as a vector of node pointers
  and tells left from right children by pointer identity. Here the path is a
  sequence of directions from the root, which identifies a node uniquely even
  when two sibling subtrees are equal as values. The end sentinel (an empty
  pointer vector) is `End`; the root itself is `At([])`.
*/
module Cursor {
  import opened Elements
  import opened Trees

  datatype Pos = End | At(dirs: seq<Dir>)

  /** A cursor together with the root of the version it was taken from. */
  datatype Iterator = Iterator(root: Tree, pos: Pos)

  /** The cursor belongs to a tree with correct sizes and points at a node or at the end. */
  ghost predicate ValidIter(it: Iterator) {
    && SizesOk(it.root)
    && (it.pos.At? ==> ValidPath(it.root, it.pos.dirs))
  }

  /** The in-order position the cursor denotes; the end sits after the last element. */
  ghost function Index(it: Iterator): nat {
    if it.pos.End? then |InOrder(it.root)| else PathIndex(it.root, it.pos.dirs)
  }

  /** `begin()`: descend left from the root; the end cursor for an empty tree. */
  function Begin(t: Tree): (it: Iterator)
    ensures it.root == t && (it.pos.End? <==> t.Leaf?)
    ensures it.pos.At? ==> ValidPath(t, it.pos.dirs) && PathIndex(t, it.pos.dirs) == 0
  {
    if t.Leaf? then Iterator(t, End)
    else
      LeftmostIsFirst(t);
      Iterator(t, At(LeftmostPath(t)))
  }

  /** `end()`: the position after the last element. */
  function EndOf(t: Tree): (it: Iterator)
    ensures it.root == t && !it.pos.At?
    ensures SizesOk(t) ==> ValidIter(it) && Index(it) == |InOrder(t)|
  {
    Iterator(t, End)
  }

  /** `*it`: the element under the cursor. */
  function Deref(it: Iterator): (e: Elem)
    requires ValidIter(it) && it.pos.At?
    ensures Index(it) < |InOrder(it.root)| && e == InOrder(it.root)[Index(it)]
  {
    PathElement(it.root, it.pos.dirs);
    Subtree(it.root, it.pos.dirs).data
  }

  /** `p` with its trailing run of `d` steps popped off. */
  function DropTrailing(p: seq<Dir>, d: Dir): (r: seq<Dir>)
    ensures |r| <= |p| && r == p[..|r|]
    ensures forall i :: |r| <= i < |p| ==> p[i] == d
    ensures |r| > 0 ==> r[|r| - 1] != d
  {
    if |p| > 0 && p[|p| - 1] == d then DropTrailing(p[..|p| - 1], d) else p
  }

  /** `operator++` on the node at `p`: into the right subtree's leftmost node
      if there is one, otherwise up past every ancestor reached from its right
      child. */
  function NextPos(t: Tree, p: seq<Dir>): Pos
    requires ValidPath(t, p)
  {
    var n := Subtree(t, p);
    if n.right.Node? then
      At(p + [Right] + LeftmostPath(n.right))
    else
      var p0 := DropTrailing(p, Right);
      if |p0| == 0 then End else At(p0[..|p0| - 1])
  }

  /** `operator++`: the cursor one position further on, or `end()` after the
      last element. */
  function Next(it: Iterator): (r: Iterator)
    requires ValidIter(it) && it.pos.At?
    ensures ValidIter(r) && r.root == it.root
    ensures Index(r) == Index(it) + 1
  {
    NextStep(it.root, it.pos.dirs);
    Iterator(it.root, NextPos(it.root, it.pos.dirs))
  }

  /** `operator--` at `pos`: from the end to the rightmost node; otherwise into
      the left subtree's rightmost node, or up past every ancestor reached from
      its left child. */
  function PrevPos(t: Tree, pos: Pos): Pos
    requires pos.At? ==> ValidPath(t, pos.dirs)
  {
    if pos.End? then
      if t.Leaf? then End else At(RightmostPath(t))
    else
      var p := pos.dirs;
      var n := Subtree(t, p);
      if n.left.Node? then
        At(p + [Left] + RightmostPath(n.left))
      else
        var p0 := DropTrailing(p, Left);
        if |p0| == 0 then pos else At(p0[..|p0| - 1])
  }

  /** `operator--`: the cursor one position back; `--end()` of an empty
      version stays at the end. Stepping back from the first element is a
      caller error. */
  function Prev(it: Iterator): (r: Iterator)
    requires ValidIter(it)
    requires it.pos.At? ==> Index(it) > 0
    ensures ValidIter(r) && r.root == it.root
    ensures it.root.Node? ==> r.pos.At? && Index(r) == Index(it) - 1
    ensures it.root.Leaf? ==> r == it
  {
    if it.root.Node? then PrevStep(it.root, it.pos); Iterator(it.root, PrevPos(it.root, it.pos))
    else Iterator(it.root, PrevPos(it.root, it.pos))
  }

  /** A path of one direction appended to a prefix. */
  lemma SplitTrailing(t: Tree, p: seq<Dir>, d: Dir)
    requires ValidPath(t, p)
    ensures var p0 := DropTrailing(p, d);
      && ValidPath(t, p0)
      && p == p0 + p[|p0|..]
      && PathIndex(t, p) == Offset(t, p0) + PathIndex(Subtree(t, p0), p[|p0|..])
      && Subtree(t, p) == Subtree(Subtree(t, p0), p[|p0|..])
  {
    var p0 := DropTrailing(p, d);
    ValidPrefix(t, p, |p0|);
    assert p == p0 + p[|p0|..];
    PathIndexAppend(t, p0, p[|p0|..]);
  }

  /** `++` moves the node at `p` one position forward in the in-order sequence. */
  lemma NextStep(t: Tree, p: seq<Dir>)
    requires SizesOk(t) && ValidPath(t, p)
    ensures ValidIter(Iterator(t, NextPos(t, p)))
    ensures Index(Iterator(t, NextPos(t, p))) == PathIndex(t, p) + 1
  {
    var n := Subtree(t, p);
    if n.right.Node? {
      StepDown(t, p, Right);
      LeftmostIsFirst(n.right);
      PathIndexAppend(t, p + [Right], LeftmostPath(n.right));
    } else {
      var p0 := DropTrailing(p, Right);
      SplitTrailing(t, p, Right);
      var x := Subtree(t, p0);
      AllRightIsLast(x, p[|p0|..]);
      if |p0| > 0 {
        var p1 := p0[..|p0| - 1];
        assert p0 == p1 + [Left];
        ValidPrefix(t, p0, |p1|);
        StepDown(t, p1, Left);
      }
    }
  }

  /** `--` moves a position one back; from the end it reaches the last element. */
  lemma PrevStep(t: Tree, pos: Pos)
    requires SizesOk(t) && t.Node?
    requires pos.At? ==> ValidPath(t, pos.dirs) && PathIndex(t, pos.dirs) > 0
    ensures PrevPos(t, pos).At? && ValidIter(Iterator(t, PrevPos(t, pos)))
    ensures Index(Iterator(t, PrevPos(t, pos))) == Index(Iterator(t, pos)) - 1
  {
    if pos.End? {
      RightmostIsLast(t);
    } else {
      var p := pos.dirs;
      var n := Subtree(t, p);
      if n.left.Node? {
        StepDown(t, p, Left);
        RightmostIsLast(n.left);
        PathIndexAppend(t, p + [Left], RightmostPath(n.left));
      } else {
        var p0 := DropTrailing(p, Left);
        SplitTrailing(t, p, Left);
        var x := Subtree(t, p0);
        AllLeftIsFirst(x, p[|p0|..]);
        if |p0| > 0 {
          var p1 := p0[..|p0| - 1];
          assert p0 == p1 + [Right];
          ValidPrefix(t, p0, |p1|);
          StepDown(t, p1, Right);
        }
      }
    }
  }

  /** Two valid cursors of one tree at the same position are equal. */
  lemma IndexDetermines(a: Iterator, b: Iterator)
    requires ValidIter(a) && ValidIter(b) && a.root == b.root
    requires Index(a) == Index(b)
    ensures a == b
  {
    if a.pos.At? {
      PathElementBounds(a.root, a.pos.dirs);
    }
    if b.pos.At? {
      PathElementBounds(b.root, b.pos.dirs);
    }
    if a.pos.At? && b.pos.At? {
      PathIndexInjective(a.root, a.pos.dirs, b.pos.dirs);
    }
  }

  /** `--` undoes `++`. */
  lemma PrevUndoesNext(it: Iterator)
    requires ValidIter(it) && it.pos.At?
    ensures ValidIter(Next(it)) && Index(Next(it)) > 0
    ensures Prev(Next(it)) == it
  {
    PathElementBounds(it.root, it.pos.dirs);
    IndexDetermines(Prev(Next(it)), it);
  }

  /** `++` undoes `--` on every cursor other than `begin()`. */
  lemma NextUndoesPrev(it: Iterator)
    requires ValidIter(it) && it.root.Node?
    requires it.pos.At? ==> Index(it) > 0
    ensures ValidIter(Prev(it)) && Prev(it).pos.At?
    ensures Next(Prev(it)) == it
  {
    IndexDetermines(Next(Prev(it)), it);
  }

  /** `begin()` is at position 0 and `end()` at the position after the last element. */
  lemma BeginEndPositions(t: Tree)
    requires SizesOk(t)
    ensures ValidIter(Begin(t)) && Index(Begin(t)) == 0
    ensures ValidIter(EndOf(t)) && Index(EndOf(t)) == |InOrder(t)|
    ensures t.Leaf? <==> Begin(t) == EndOf(t)
  {
  }

  /** Iterating from `begin()` with `++` until `end()`: yields the in-order
      sequence and stops after exactly as many steps as there are elements. */
  method Traverse(t: Tree) returns (out: seq<Elem>, steps: nat)
    requires SizesOk(t)
    ensures out == InOrder(t)
    ensures steps == SizeOf(t)
  {
    BeginEndPositions(t);
    var it := Begin(t);
    out := [];
    steps := 0;
    while it.pos.At?
      invariant ValidIter(it) && it.root == t
      invariant Index(it) == steps == |out| <= |InOrder(t)|
      invariant out == InOrder(t)[..steps]
      decreases |InOrder(t)| - Index(it)
    {
      var e := Deref(it);
      out := out + [e];
      it := Next(it);
      steps := steps + 1;
      if it.pos.At? {
        PathElementBounds(t, it.pos.dirs);
      }
    }
    SizeIsLength(t);
  }

  /** `rank()`: the number of elements before the cursor, accumulated from the
      stored sizes along the path. */
  method Rank(it: Iterator) returns (r: nat)
    requires ValidIter(it)
    ensures r == Index(it)
  {
    SizeIsLength(it.root);
    if it.root.Leaf? {
      return 0;
    }
    if it.pos.End? {
      return it.root.size;
    }
    var t, p := it.root, it.pos.dirs;
    // The number of elements at or after the first element of the current subtree.
    var count: int := t.size;
    var node := t;
    var i := 0;
    while i < |p|
      invariant 0 <= i <= |p|
      invariant ValidPath(t, p[..i]) && node == Subtree(t, p[..i])
      invariant count == |InOrder(t)| - Offset(t, p[..i])
    {
      ValidPrefix(t, p, i + 1);
      assert p[..i + 1] == p[..i] + [p[i]];
      StepDown(t, p[..i], p[i]);
      SubtreeSizesOk(t, p[..i]);
      var child := Child(node, p[i]);
      SizeIsLength(node);
      SizeIsLength(child);
      if p[i] == Right {
        count := count - node.size + child.size;
      }
      node := child;
      i := i + 1;
    }
    assert p[..i] == p;
    SubtreeSizesOk(t, p);
    SizeIsLength(node.left);
    count := count - SizeOf(node.left);
    r := t.size - count;
  }

  /** `moveToRank(rank)`: a fresh descent from the root steered by stored sizes. */
  method MoveToRank(it: Iterator, rank: nat) returns (r: Iterator)
    requires ValidIter(it)
    requires rank <= SizeOf(it.root)
    ensures ValidIter(r) && r.root == it.root
    ensures Index(r) == rank
  {
    var t := it.root;
    SizeIsLength(t);
    if t.Leaf? {
      return it;
    }
    if rank == t.size {
      return Iterator(t, End);
    }
    var path: seq<Dir> := [];
    var node := t;
    SizeIsLength(t.left);
    var currRank: int := SizeOf(t.left);
    while currRank != rank
      invariant ValidPath(t, path) && node == Subtree(t, path)
      invariant currRank == PathIndex(t, path)
      invariant Offset(t, path) <= rank < Offset(t, path) + |InOrder(node)|
      decreases |InOrder(node)|
    {
      SubtreeSizesOk(t, path);
      if currRank < rank {
        StepDown(t, path, Right);
        path := path + [Right];
        node := node.right;
        currRank := currRank + 1;
      } else {
        StepDown(t, path, Left);
        path := path + [Left];
        node := node.left;
        SizeIsLength(node);
        currRank := currRank - node.size;
      }
      SubtreeSizesOk(t, path);
      SizeIsLength(node.left);
      currRank := currRank + SizeOf(node.left);
    }
    r := Iterator(t, At(path));
  }

  /** `moveToRank(k)` followed by `rank()` returns `k`. */
  method RankAfterMove(it: Iterator, k: nat) returns (r: nat)
    requires ValidIter(it) && k <= SizeOf(it.root)
    ensures r == k
  {
    var moved := MoveToRank(it, k);
    r := Rank(moved);
  }

  /** `a - b`: the signed distance between two cursors of one version. */
  method Distance(a: Iterator, b: Iterator) returns (d: int)
    requires ValidIter(a) && ValidIter(b)
    ensures d == Index(a) - Index(b)
  {
    var otherRank := Rank(b);
    var thisRank := Rank(a);
    d := thisRank as int - otherRank as int;
  }
}
