/**
  Level-order traversal (`levelorder`): a queue seeded with the root; each
  step pops the front node, pushes its left and then its right child when
  present, and visits the popped node. A node is named here by its path from
  the root, so the traversal is the sequence of visited paths.
*/
module LevelOrder {
  import opened Trees

  /** A queued node: its path from the root and the subtree it roots. */
  datatype Pending = Pending(path: seq<Dir>, sub: Tree)

  /** Nodes still to be visited through the queued entries. */
  function Weight(q: seq<Pending>): nat {
    if |q| == 0 then 0 else |InOrder(q[0].sub)| + Weight(q[1..])
  }

  lemma {:induction false} WeightAppend(a: seq<Pending>, b: seq<Pending>)
    ensures Weight(a + b) == Weight(a) + Weight(b)
  {
    if |a| == 0 {
      assert a + b == b;
    } else {
      assert (a + b)[1..] == a[1..] + b;
      WeightAppend(a[1..], b);
    }
  }

  /** The entries pushed for the children of `top`, left before right. */
  function Children(top: Pending): (kids: seq<Pending>)
    requires top.sub.Node?
    ensures Weight(kids) == |InOrder(top.sub)| - 1
    ensures forall k :: 0 <= k < |kids| ==> kids[k].sub.Node?
  {
    var n := top.sub;
    var l := if n.left.Node? then [Pending(top.path + [Left], n.left)] else [];
    var r := if n.right.Node? then [Pending(top.path + [Right], n.right)] else [];
    WeightAppend(l, r);
    l + r
  }

  /** The paths visited by draining queue `q`, in visiting order. */
  function Bfs(q: seq<Pending>): (order: seq<seq<Dir>>)
    requires forall k :: 0 <= k < |q| ==> q[k].sub.Node?
    ensures |order| == Weight(q)
    decreases Weight(q)
  {
    if |q| == 0 then []
    else
      var kids := Children(q[0]);
      WeightAppend(q[1..], kids);
      [q[0].path] + Bfs(q[1..] + kids)
  }

  /** `levelorder(t, f)`: the order in which `f` sees the nodes of `t`. */
  function Traversal(t: Tree): (order: seq<seq<Dir>>)
    ensures |order| == |InOrder(t)|
  {
    if t.Leaf? then []
    else
      WeightSingle(Pending([], t));
      Bfs([Pending([], t)])
  }

  lemma WeightSingle(e: Pending)
    ensures Weight([e]) == |InOrder(e.sub)|
  {
    assert [e][1..] == [];
  }

  /** The parent of a non-root path. */
  function Parent(p: seq<Dir>): seq<Dir>
    requires |p| > 0
  {
    p[..|p| - 1]
  }

  /** Every visited non-root path is preceded by its parent's. */
  ghost predicate ParentsFirst(order: seq<seq<Dir>>) {
    forall i :: 0 <= i < |order| && |order[i]| > 0 ==>
      exists j :: 0 <= j < i && order[j] == Parent(order[i])
  }

  /** The position at which `p` is first visited, or `|order|` if never. */
  function IndexOf(order: seq<seq<Dir>>, p: seq<Dir>): (i: nat)
    ensures i <= |order|
    ensures i < |order| <==> p in order
    ensures i < |order| ==> order[i] == p
    ensures forall j :: 0 <= j < i ==> order[j] != p
  {
    if |order| == 0 then 0
    else if order[0] == p then 0
    else 1 + IndexOf(order[1..], p)
  }

  /** A parent is visited before each of its children. */
  lemma ParentVisitedFirst(order: seq<seq<Dir>>, p: seq<Dir>, d: Dir)
    requires ParentsFirst(order) && p + [d] in order
    ensures p in order && IndexOf(order, p) < IndexOf(order, p + [d])
  {
    var i := IndexOf(order, p + [d]);
    assert Parent(order[i]) == p;
  }

  /** The `i`-th visited path was queued in `q` from the start or is preceded
      by its parent. */
  ghost predicate Placed(q: seq<Pending>, order: seq<seq<Dir>>, i: nat)
    requires i < |order|
  {
    || (exists k :: 0 <= k < |q| && order[i] == q[k].path)
    || (|order[i]| > 0 && exists j :: 0 <= j < i && order[j] == Parent(order[i]))
  }

  /** Each path `Bfs(q)` visits is either queued in `q` or follows its parent. */
  lemma {:induction false} BfsParentsFirst(q: seq<Pending>)
    requires forall k :: 0 <= k < |q| ==> q[k].sub.Node?
    ensures forall i :: 0 <= i < |Bfs(q)| ==> Placed(q, Bfs(q), i)
    decreases Weight(q)
  {
    if |q| > 0 {
      var kids := Children(q[0]);
      var rest := q[1..] + kids;
      WeightAppend(q[1..], kids);
      BfsParentsFirst(rest);
      var order, tail := Bfs(q), Bfs(rest);
      assert order == [q[0].path] + tail;
      forall i | 0 <= i < |order|
        ensures Placed(q, order, i)
      {
        if i == 0 {
          assert order[0] == q[0].path;
        } else {
          var p := tail[i - 1];
          assert order[i] == p;
          assert Placed(rest, tail, i - 1);
          if exists k :: 0 <= k < |rest| && p == rest[k].path {
            var k :| 0 <= k < |rest| && p == rest[k].path;
            if k < |q| - 1 {
              assert rest[k] == q[k + 1];
            } else {
              KidsFollowParent(q[0], rest[k]);
              assert order[0] == Parent(order[i]);
            }
          } else {
            var j :| 0 <= j < i - 1 && tail[j] == Parent(p);
            assert order[j + 1] == tail[j];
          }
        }
      }
    }
  }

  lemma KidsFollowParent(top: Pending, c: Pending)
    requires top.sub.Node? && c in Children(top)
    ensures |c.path| > 0 && Parent(c.path) == top.path
  {
  }

  /** The entry queued for child `d` of the front entry, after it is popped. */
  lemma ChildEntry(q: seq<Pending>, d: Dir) returns (at: nat)
    requires |q| > 0 && q[0].sub.Node? && Child(q[0].sub, d).Node?
    ensures var rest := q[1..] + Children(q[0]);
      at < |rest| && rest[at] == Pending(q[0].path + [d], Child(q[0].sub, d))
  {
    var n := q[0].sub;
    at := if d == Left || n.left.Leaf? then |q| - 1 else |q|;
  }

  /** Every node below a queued entry is visited, under the entry's path. */
  lemma {:induction false} BfsCovers(q: seq<Pending>, k: nat, r: seq<Dir>)
    requires forall k :: 0 <= k < |q| ==> q[k].sub.Node?
    requires k < |q| && ValidPath(q[k].sub, r)
    ensures q[k].path + r in Bfs(q)
    decreases Weight(q), k
  {
    var rest := PopFront(q);
    if k > 0 {
      assert rest[k - 1] == q[k];
      BfsCovers(rest, k - 1, r);
    } else if |r| == 0 {
      assert q[0].path + r == q[0].path;
    } else {
      var at, tail := DescendEntry(q, r);
      BfsCovers(rest, at, tail);
    }
  }

  /** Visiting the front entry leaves the rest of the queue with its
      children appended. */
  lemma PopFront(q: seq<Pending>) returns (rest: seq<Pending>)
    requires |q| > 0 && forall k :: 0 <= k < |q| ==> q[k].sub.Node?
    ensures rest == q[1..] + Children(q[0])
    ensures forall k :: 0 <= k < |rest| ==> rest[k].sub.Node?
    ensures Weight(rest) < Weight(q)
    ensures Bfs(q) == [q[0].path] + Bfs(rest)
  {
    rest := q[1..] + Children(q[0]);
    WeightAppend(q[1..], Children(q[0]));
  }

  /** A non-empty path below the front entry continues below the entry
      queued for its first step. */
  lemma DescendEntry(q: seq<Pending>, r: seq<Dir>) returns (at: nat, tail: seq<Dir>)
    requires |q| > 0 && q[0].sub.Node? && |r| > 0 && ValidPath(q[0].sub, r)
    ensures var rest := q[1..] + Children(q[0]);
      at < |rest| && ValidPath(rest[at].sub, tail) && rest[at].path + tail == q[0].path + r
  {
    var n := q[0].sub;
    var d := r[0];
    tail := r[1..];
    assert r == [d] + tail;
    PathCons(n, d, tail);
    if Child(n, d).Leaf? {
      SubtreeOfLeaf(tail);
    }
    at := ChildEntry(q, d);
    assert q[0].path + [d] + tail == q[0].path + r;
  }

  /** The level order of a tree visits every node, each after its parent. */
  lemma TraversalCorrect(t: Tree)
    ensures ParentsFirst(Traversal(t))
    ensures forall r :: ValidPath(t, r) ==> r in Traversal(t)
  {
    if t.Node? {
      var q := [Pending([], t)];
      BfsParentsFirst(q);
      var order := Traversal(t);
      forall i | 0 <= i < |order| && |order[i]| > 0
        ensures exists j :: 0 <= j < i && order[j] == Parent(order[i])
      {
        assert Placed(q, order, i);
      }
      forall r | ValidPath(t, r) ensures r in Traversal(t) {
        BfsCovers(q, 0, r);
        assert [] + r == r;
      }
    }
  }
}
