/**
  The bulk constructor `Treap(first, last)`. Unsorted input is inserted one
  element at a time; sorted input is assembled bottom-up in linear time
  (`assignSorted`): every element starts as a one-node tree and, in round `k`
  (`start == 2^(k-1)`), the elements at positions `start - 1`, `start - 1 +
  2 * start`, ... adopt the trees of the previous round pairwise, left then
  right. The heap keys are then drawn from a fixed generator state, sorted,
  and handed out in level order, so that every parent precedes its children.
*/
module Bulk {
  import opened Elements
  import opened Trees
  import opened Random
  import opened Queries
  import opened Treaps
  import opened LevelOrder

  function Min(x: int, y: int): int {
    if x <= y then x else y
  }

  /** `NODE_GET(i)`: the `i`-th tree of the previous round, or no tree. */
  function Get(level: seq<Tree>, i: nat): (t: Tree)
    ensures i < |level| ==> t == level[i]
    ensures i >= |level| ==> t.Leaf?
  {
    if i < |level| then level[i] else Leaf
  }

  /** The node for element `x` adopting `l` and `r`, its size recomputed; the
      heap key 0 is the placeholder `fillNodes` gives every node. */
  function Adopt(x: Elem, l: Tree, r: Tree): (t: Tree)
    ensures SizesOk(l) && SizesOk(r) ==> SizesOk(t)
    ensures InOrder(t) == InOrder(l) + [x] + InOrder(r)
  {
    Node(x, 0, SizeOf(l) + SizeOf(r) + 1, l, r)
  }

  /** `m * w`, counted out: the offset of the `m`-th block of width `w`. */
  function Off(m: nat, w: nat): nat {
    if m == 0 then 0 else Off(m - 1, w) + w
  }

  lemma {:induction false} OffDouble(j: nat, w: nat)
    ensures Off(2 * j, w) == Off(j, 2 * w)
  {
    if j > 0 {
      OffDouble(j - 1, w);
      assert Off(2 * j, w) == Off(2 * j - 2, w) + 2 * w;
    }
  }

  lemma {:induction false} OffMono(x: nat, y: nat, w: nat)
    ensures x <= y ==> Off(x, w) <= Off(y, w)
    decreases y
  {
    if x < y {
      OffMono(x, y - 1, w);
    }
  }

  lemma {:induction false} OffAtLeast(j: nat, w: nat)
    requires w >= 1
    ensures j <= Off(j, w)
  {
    if j > 0 {
      OffAtLeast(j - 1, w);
    }
  }

  /** The position of the `j`-th adopting element when `start == w`. */
  function AdoptAt(w: nat, j: nat): (i: nat)
    requires w >= 1
    ensures j <= i
  {
    OffAtLeast(j, 2 * w);
    w - 1 + Off(j, 2 * w)
  }

  /** The trees of one round from the `j`-th adopting element on: element
      `w - 1 + j * 2w` adopts trees `2j` and `2j + 1` of `prev`; once the
      positions run out, the trees of `prev` not adopted are carried over. */
  function Pairs(a: seq<Elem>, prev: seq<Tree>, w: nat, j: nat): (p: seq<Tree>)
    requires w >= 1
    ensures AllSized(prev) ==> AllSized(p)
    decreases |a| - j
  {
    var i := AdoptAt(w, j);
    if i >= |a| then
      (if 2 * j < |prev| then prev[2 * j..] else [])
    else
      [Adopt(a[i], Get(prev, 2 * j), Get(prev, 2 * j + 1))] + Pairs(a, prev, w, j + 1)
  }

  /** Every tree of `level` has correct stored sizes. */
  ghost predicate AllSized(level: seq<Tree>) {
    forall k :: 0 <= k < |level| ==> SizesOk(level[k])
  }

  /** One pass of the outer loop of `assignSorted` with `start == w`: it
      takes the loop invariant from `start == w` to `start == 2w`. */
  function Round(a: seq<Elem>, prev: seq<Tree>, w: nat): (next: seq<Tree>)
    requires w >= 1
    ensures AllSized(prev) ==> AllSized(next)
    ensures Inv(a, prev, w) ==> Inv(a, next, 2 * w)
  {
    RoundKeepsInv(a, prev, w);
    Pairs(a, prev, w, 0)
  }

  /** The elements below the `m`-th tree after the round that doubled `start`
      to `w`: positions `m * w` up to, not including, `m * w + w - 1`, cut off
      at the end of the input. */
  ghost function Seg(a: seq<Elem>, w: nat, m: nat): seq<Elem>
    requires w >= 1
  {
    a[Min(Off(m, w), |a|)..Min(Off(m, w) + w - 1, |a|)]
  }

  /** The loop invariant of `assignSorted` when `start == w`: the current
      trees hold consecutive non-empty segments of width `w - 1` and, from
      the second round on, cover the input. */
  ghost predicate Inv(a: seq<Elem>, level: seq<Tree>, w: nat) {
    && w >= 1
    && (if w == 1 then |level| == 0 else Off(|level|, w) >= |a|)
    && forall m :: 0 <= m < |level| ==> Holds(a, level[m], w, m)
  }

  /** Tree `t` is a valid `m`-th tree when `start == w`: its segment is
      non-empty and it holds exactly that segment. */
  ghost predicate Holds(a: seq<Elem>, t: Tree, w: nat, m: nat)
    requires w >= 1
  {
    Off(m, w) < |a| && SizesOk(t) && InOrder(t) == Seg(a, w, m)
  }

  /** `w` is a power of two. */
  ghost predicate IsPow2(w: nat) {
    w == 1 || (w >= 2 && w % 2 == 0 && IsPow2(w / 2))
  }

  /** Past the last tree of a round lies nothing but the empty segment. */
  lemma GetSeg(a: seq<Elem>, level: seq<Tree>, w: nat, m: nat)
    requires Inv(a, level, w)
    ensures SizesOk(Get(level, m)) && InOrder(Get(level, m)) == Seg(a, w, m)
  {
    if m >= |level| && w >= 2 {
      OffMono(|level|, m, w);
    }
  }

  /** An adopting element joins the two segments of width `w - 1` on either
      side of it into one of width `2w - 1`. */
  lemma SegJoin(a: seq<Elem>, w: nat, j: nat)
    requires w >= 1 && AdoptAt(w, j) < |a|
    ensures Seg(a, w, 2 * j) + [a[AdoptAt(w, j)]] + Seg(a, w, 2 * j + 1) == Seg(a, 2 * w, j)
  {
    OffDouble(j, w);
    var lo := Off(j, 2 * w);
    var i := lo + w - 1;
    var hi := Min(lo + 2 * w - 1, |a|);
    assert Off(2 * j + 1, w) == lo + w;
    assert Seg(a, w, 2 * j) == a[lo..i];
    assert Seg(a, w, 2 * j + 1) == a[i + 1..hi];
    assert Seg(a, 2 * w, j) == a[lo..hi];
    assert a[lo..hi] == a[lo..i] + [a[i]] + a[i + 1..hi];
  }

  /** The trees `p` hold the segments of width `w - 1` numbered `j`, `j + 1`,
      ..., each of them non-empty. */
  ghost predicate SegsFrom(a: seq<Elem>, p: seq<Tree>, w: nat, j: nat)
    requires w >= 1
  {
    forall m :: 0 <= m < |p| ==> Holds(a, p[m], w, j + m)
  }

  /** The trees a round produces from the `j`-th adopting element on hold
      the segments of width `2w - 1` from the `j`-th on, and cover the input. */
  lemma {:induction false} PairsSpec(a: seq<Elem>, prev: seq<Tree>, w: nat, j: nat)
    requires Inv(a, prev, w)
    ensures SegsFrom(a, Pairs(a, prev, w, j), 2 * w, j)
    decreases |a| - j
  {
    var i := AdoptAt(w, j);
    if i >= |a| {
      PairsTail(a, prev, w, j);
    } else {
      PairsSpec(a, prev, w, j + 1);
      PairsStep(a, prev, w, j);
    }
  }

  lemma PairsStep(a: seq<Elem>, prev: seq<Tree>, w: nat, j: nat)
    requires Inv(a, prev, w) && AdoptAt(w, j) < |a|
    requires SegsFrom(a, Pairs(a, prev, w, j + 1), 2 * w, j + 1)
    ensures SegsFrom(a, Pairs(a, prev, w, j), 2 * w, j)
  {
    PairsHead(a, prev, w, j);
    SegsCons(a, Pairs(a, prev, w, j), 2 * w, j);
  }

  lemma SegsCons(a: seq<Elem>, p: seq<Tree>, w: nat, j: nat)
    requires w >= 1 && |p| > 0
    requires Holds(a, p[0], w, j) && SegsFrom(a, p[1..], w, j + 1)
    ensures SegsFrom(a, p, w, j)
  {
    forall m | 0 <= m < |p|
      ensures Holds(a, p[m], w, j + m)
    {
      if m > 0 {
        assert p[m] == p[1..][m - 1] && j + m == (j + 1) + (m - 1);
      }
    }
  }

  /** The extent of a round's trees: from the second round on they reach
      the end of the input, and the last of them starts inside it. */
  ghost predicate Reaches(a: seq<Elem>, level: seq<Tree>, w: nat)
    requires w >= 1
  {
    && (if w == 1 then |level| == 0 else Off(|level|, w) >= |a|)
    && (|level| > 0 ==> Off(|level| - 1, w) < |a|)
  }

  lemma InvReaches(a: seq<Elem>, level: seq<Tree>, w: nat)
    requires Inv(a, level, w)
    ensures Reaches(a, level, w)
  {
    if |level| > 0 {
      assert Holds(a, level[|level| - 1], w, |level| - 1);
    }
  }

  /** Once the adopting positions run out, at most one tree is carried over. */
  lemma PairsCarry(a: seq<Elem>, prev: seq<Tree>, w: nat, j: nat)
    requires w >= 1 && Reaches(a, prev, w) && AdoptAt(w, j) >= |a|
    ensures 2 * j < |prev| ==> |prev| == 2 * j + 1 && Pairs(a, prev, w, j) == [prev[2 * j]]
    ensures 2 * j >= |prev| ==> Pairs(a, prev, w, j) == []
  {
    OffDouble(j, w);
    assert Off(2 * j + 1, w) == Off(j, 2 * w) + w;
    if |prev| > 0 {
      OffMono(2 * j + 1, |prev| - 1, w);
    }
  }

  /** The trees a round produces from the `j`-th adopting element on, with
      the `j` before them, cover the input in segments of width `2w`. */
  lemma {:induction false} PairsCover(a: seq<Elem>, prev: seq<Tree>, w: nat, j: nat)
    requires w >= 1 && Reaches(a, prev, w)
    ensures Off(|Pairs(a, prev, w, j)| + j, 2 * w) >= |a|
    decreases |a| - j
  {
    if AdoptAt(w, j) >= |a| {
      PairsCoverEnd(a, prev, w, j);
    } else {
      PairsCover(a, prev, w, j + 1);
      PairsLength(a, prev, w, j);
    }
  }

  /** Once the adopting positions run out, the carried tree, if any, reaches
      the end of the input. */
  lemma PairsCoverEnd(a: seq<Elem>, prev: seq<Tree>, w: nat, j: nat)
    requires w >= 1 && Reaches(a, prev, w) && AdoptAt(w, j) >= |a|
    ensures Off(|Pairs(a, prev, w, j)| + j, 2 * w) >= |a|
  {
    PairsCarry(a, prev, w, j);
    OffDouble(j, w);
    if 2 * j < |prev| {
      assert |Pairs(a, prev, w, j)| + j == j + 1;
      assert Off(j + 1, 2 * w) == Off(2 * j + 1, w) + w;
    } else {
      assert |Pairs(a, prev, w, j)| + j == j;
      if w >= 2 {
        OffMono(|prev|, 2 * j, w);
      }
    }
  }

  lemma PairsLength(a: seq<Elem>, prev: seq<Tree>, w: nat, j: nat)
    requires w >= 1 && AdoptAt(w, j) < |a|
    ensures |Pairs(a, prev, w, j)| == |Pairs(a, prev, w, j + 1)| + 1
  {
  }

  /** The first tree a round produces from the `j`-th adopting element on
      holds the `j`-th segment of width `2w - 1`. */
  lemma PairsHead(a: seq<Elem>, prev: seq<Tree>, w: nat, j: nat)
    requires Inv(a, prev, w) && AdoptAt(w, j) < |a|
    ensures var p := Pairs(a, prev, w, j);
      && |p| > 0 && p[1..] == Pairs(a, prev, w, j + 1)
      && Holds(a, p[0], 2 * w, j)
  {
    var i := AdoptAt(w, j);
    var l, r := Get(prev, 2 * j), Get(prev, 2 * j + 1);
    GetSeg(a, prev, w, 2 * j);
    GetSeg(a, prev, w, 2 * j + 1);
    SegJoin(a, w, j);
    var p := Pairs(a, prev, w, j);
    assert p == [Adopt(a[i], l, r)] + Pairs(a, prev, w, j + 1);
  }

  /** Once the adopting positions run out, the tree carried over, if any,
      already holds a segment reaching the end of the input. */
  lemma PairsTail(a: seq<Elem>, prev: seq<Tree>, w: nat, j: nat)
    requires Inv(a, prev, w) && AdoptAt(w, j) >= |a|
    ensures SegsFrom(a, Pairs(a, prev, w, j), 2 * w, j)
  {
    InvReaches(a, prev, w);
    PairsCarry(a, prev, w, j);
    if 2 * j < |prev| {
      OffDouble(j, w);
      assert Holds(a, prev[2 * j], w, 2 * j);
      assert Seg(a, w, 2 * j) == Seg(a, 2 * w, j);
    }
  }

  /** One round takes the invariant from `start == w` to `start == 2w`. */
  lemma RoundKeepsInv(a: seq<Elem>, prev: seq<Tree>, w: nat)
    requires w >= 1
    ensures Inv(a, prev, w) ==> Inv(a, Pairs(a, prev, w, 0), 2 * w)
  {
    if Inv(a, prev, w) {
      PairsSpec(a, prev, w, 0);
      InvReaches(a, prev, w);
      RoundCover(a, prev, w);
      InvFrom(a, prev, w);
    }
  }

  /** A round's trees reach the end of the input in segments of width `2w`. */
  lemma RoundCover(a: seq<Elem>, prev: seq<Tree>, w: nat)
    requires w >= 1 && Reaches(a, prev, w)
    ensures Off(|Pairs(a, prev, w, 0)| + 0, 2 * w) >= |a|
  {
    PairsCover(a, prev, w, 0);
  }

  /** A round whose trees hold the segments from the first on, and reach the
      end of the input, leaves the invariant for the doubled width. */
  lemma InvFrom(a: seq<Elem>, prev: seq<Tree>, w: nat)
    requires w >= 1
    requires SegsFrom(a, Pairs(a, prev, w, 0), 2 * w, 0)
    requires Off(|Pairs(a, prev, w, 0)| + 0, 2 * w) >= |a|
    ensures Inv(a, Pairs(a, prev, w, 0), 2 * w)
  {
    var p := Pairs(a, prev, w, 0);
    forall m | 0 <= m < |p|
      ensures Holds(a, p[m], 2 * w, m)
    {
      assert 0 + m == m;
    }
  }

  lemma {:induction false} Pow2Unique(x: nat, y: nat)
    requires IsPow2(x) && IsPow2(y) && x <= y < 2 * x
    ensures x == y
    decreases x
  {
    if x >= 2 {
      Pow2Unique(x / 2, y / 2);
    }
  }

  /** While more than one tree is left, or none yet, `start` has not passed
      the input length. */
  lemma LoopProgress(a: seq<Elem>, level: seq<Tree>, w: nat)
    requires |a| >= 1 && Inv(a, level, w) && |level| != 1
    ensures w == 1 || w < |a|
  {
    if w >= 2 {
      assert Holds(a, level[1], w, 1);
    }
  }

  /** The doubled `start` is again a power of two, within the loop's range. */
  lemma NextWidth(w: nat, n: nat)
    requires IsPow2(w) && (w == 1 || w < n)
    ensures IsPow2(2 * w) && (2 * w < 2 * n || 2 * w <= 2)
  {
  }

  /** The single tree left when `start == w` holds the first `w - 1`
      elements, cut off at the end of the input. */
  lemma LoopExit(a: seq<Elem>, level: seq<Tree>, w: nat)
    requires Inv(a, level, w) && |level| == 1
    ensures w >= 2 && |a| <= w
    ensures SizesOk(level[0]) && InOrder(level[0]) == a[..Min(w - 1, |a|)]
  {
    assert Holds(a, level[0], w, 0);
  }

  /** Stopping at one tree, the loop has stopped at the least power of two
      not below the input length: the last element is missing exactly when
      the length is itself a power of two. */
  lemma LoopExitAsWritten(a: seq<Elem>, level: seq<Tree>, w: nat)
    requires |a| >= 1 && Inv(a, level, w) && IsPow2(w) && |level| == 1
    requires w < 2 * |a| || w <= 2
    ensures SizesOk(level[0])
    ensures InOrder(level[0]) == if |a| >= 2 && IsPow2(|a|) then a[..|a| - 1] else a
  {
    LoopExit(a, level, w);
    if |a| >= 2 && IsPow2(|a|) {
      Pow2Unique(|a|, w);
    }
  }

  /** The outer loop of `assignSorted` as written: it stops as soon as a
      round leaves exactly one tree. When the input length is a power of two
      that happens one round early, before the last element is adopted. */
  function LoopAsWritten(a: seq<Elem>, level: seq<Tree>, w: nat): (t: Tree)
    requires |a| >= 1 && Inv(a, level, w) && IsPow2(w)
    requires w < 2 * |a| || w <= 2
    ensures SizesOk(t)
    ensures InOrder(t) == if |a| >= 2 && IsPow2(|a|) then a[..|a| - 1] else a
    decreases |a| + 1 - w
  {
    if |level| == 1 then
      LoopExitAsWritten(a, level, w);
      level[0]
    else
      LoopProgress(a, level, w);
      LoopAsWritten(a, Round(a, level, w), 2 * w)
  }

  /** The outer loop with the exit the construction needs: it runs until
      `start` exceeds the input length, so that the last segment covers the
      whole input. */
  function Loop(a: seq<Elem>, level: seq<Tree>, w: nat): (t: Tree)
    requires |a| >= 1 && Inv(a, level, w)
    ensures SizesOk(t) && InOrder(t) == a
    decreases |a| + 1 - w
  {
    if w > |a| then
      LoopExitFixed(a, level, w);
      level[0]
    else
      Loop(a, Round(a, level, w), 2 * w)
  }

  lemma LoopExitFixed(a: seq<Elem>, level: seq<Tree>, w: nat)
    requires |a| >= 1 && Inv(a, level, w) && w > |a|
    ensures |level| == 1 && SizesOk(level[0]) && InOrder(level[0]) == a
  {
    OffMono(1, |level|, w);
    var last := |level| - 1;
    assert Holds(a, level[last], w, last);
    OffMono(1, last, w);
    assert Holds(a, level[0], w, 0);
  }

  /** The tree `assignSorted` assembles before any heap key is set. */
  function AssembleAsWritten(a: seq<Elem>): (t: Tree)
    requires |a| >= 1
    ensures SizesOk(t)
    ensures InOrder(t) == if |a| >= 2 && IsPow2(|a|) then a[..|a| - 1] else a
  {
    LoopAsWritten(a, [], 1)
  }

  /** The assembly with the corrected loop exit: every element is placed. */
  function Assemble(a: seq<Elem>): (t: Tree)
    requires |a| >= 1
    ensures SizesOk(t) && InOrder(t) == a
  {
    Loop(a, [], 1)
  }

  /** The two loops produce the same tree unless the input length is a power
      of two of at least 2. */
  lemma {:induction false} LoopsAgree(a: seq<Elem>, level: seq<Tree>, w: nat)
    requires |a| >= 1 && Inv(a, level, w) && IsPow2(w)
    requires w < 2 * |a| || w <= 2
    requires !(|a| >= 2 && IsPow2(|a|))
    ensures LoopAsWritten(a, level, w) == Loop(a, level, w)
    decreases |a| + 1 - w
  {
    if |level| == 1 {
      LoopExit(a, level, w);
      assert w != |a|;
    } else {
      LoopProgress(a, level, w);
      NextWidth(w, |a|);
      var next := Round(a, level, w);
      assert Inv(a, next, 2 * w);
      LoopsAgree(a, next, 2 * w);
      assert LoopAsWritten(a, level, w) == LoopAsWritten(a, next, 2 * w);
      assert Loop(a, level, w) == Loop(a, next, 2 * w);
    }
  }

  lemma AssembleAgrees(a: seq<Elem>)
    requires |a| >= 1 && !(|a| >= 2 && IsPow2(|a|))
    ensures AssembleAsWritten(a) == Assemble(a)
  {
    LoopsAgree(a, [], 1);
  }

  // ---------------------------------------------------------------------
  // Heap keys: drawn, sorted ascending, handed out in level order.
  // ---------------------------------------------------------------------

  ghost predicate Ascending(s: seq<int>) {
    forall i, j :: 0 <= i < j < |s| ==> s[i] <= s[j]
  }

  /** `x` placed into ascending `s` before the first element not below it. */
  function InsertKey(s: seq<int>, x: int): (r: seq<int>)
    requires Ascending(s)
    ensures Ascending(r) && multiset(r) == multiset(s) + multiset{x}
    ensures |r| == |s| + 1
    decreases |s|
  {
    if |s| == 0 || x <= s[0] then [x] + s
    else
      var rest := InsertKey(s[1..], x);
      InsertKeyBehind(s, x, rest);
      [s[0]] + rest
  }

  /** `x` inserted behind the head of `s` keeps that head in front. */
  lemma InsertKeyBehind(s: seq<int>, x: int, rest: seq<int>)
    requires Ascending(s) && |s| > 0 && s[0] < x
    requires Ascending(rest) && multiset(rest) == multiset(s[1..]) + multiset{x}
    ensures Ascending([s[0]] + rest) && multiset([s[0]] + rest) == multiset(s) + multiset{x}
  {
    assert s == [s[0]] + s[1..];
    forall k | 0 <= k < |rest| ensures s[0] <= rest[k] {
      assert rest[k] in multiset(rest);
    }
  }

  /** `std::sort` on the drawn keys. */
  function SortKeys(s: seq<int>): (r: seq<int>)
    ensures Ascending(r) && multiset(r) == multiset(s)
    ensures |r| == |s|
    decreases |s|
  {
    if |s| == 0 then []
    else
      assert s == [s[0]] + s[1..];
      InsertKey(SortKeys(s[1..]), s[0])
  }

  /** The keys for a tree of `n` nodes: `n` draws from `BulkSeed`, each
      reduced modulo `12n + 1`. */
  function DrawnKeys(rng: nat -> Draw, n: nat): (keys: seq<int>)
    ensures |keys| == n
    ensures forall i :: 0 <= i < n ==> 0 <= keys[i] <= n * 12
  {
    var d := Draws(rng, BulkSeed, n);
    seq(n, i requires 0 <= i < n => HeapKeyFor(d[i], n) as int)
  }

  /** The key the visitor hands to the node at path `p`: the one at the
      position where the traversal reaches `p`. */
  function KeyAt(order: seq<seq<Dir>>, keys: seq<int>, p: seq<Dir>): int {
    var i := IndexOf(order, p);
    if i < |keys| then keys[i] else 0
  }

  /** The tree below `prefix` with every heap key replaced by the one its
      node receives in the traversal `order`. */
  function Relabel(t: Tree, order: seq<seq<Dir>>, keys: seq<int>, prefix: seq<Dir>): (r: Tree)
    ensures InOrder(r) == InOrder(t) && SizeOf(r) == SizeOf(t)
    ensures SizesOk(t) ==> SizesOk(r)
  {
    if t.Leaf? then Leaf
    else
      Node(t.data, KeyAt(order, keys, prefix), t.size,
           Relabel(t.left, order, keys, prefix + [Left]),
           Relabel(t.right, order, keys, prefix + [Right]))
  }

  /** Ascending keys handed out in an order that visits every node after its
      parent give a heap. */
  lemma {:induction false} RelabelHeap(t: Tree, order: seq<seq<Dir>>, keys: seq<int>, prefix: seq<Dir>)
    requires Ascending(keys) && |order| <= |keys| && ParentsFirst(order)
    requires forall r :: ValidPath(t, r) ==> prefix + r in order
    ensures HeapOrdered(Relabel(t, order, keys, prefix))
  {
    if t.Node? {
      assert prefix + [] == prefix && ValidPath(t, []);
      forall d: Dir | Child(t, d).Node?
        ensures KeyAt(order, keys, prefix) <= KeyAt(order, keys, prefix + [d])
      {
        PathCons(t, d, []);
        assert ValidPath(t, [d] + []);
        assert prefix + ([d] + []) == prefix + [d];
        ParentVisitedFirst(order, prefix, d);
      }
      RelabelChild(t, order, keys, prefix, Left);
      RelabelChild(t, order, keys, prefix, Right);
      RelabelHeap(t.left, order, keys, prefix + [Left]);
      RelabelHeap(t.right, order, keys, prefix + [Right]);
    }
  }

  /** A child's paths, under the child's prefix, are visited too. */
  lemma RelabelChild(t: Tree, order: seq<seq<Dir>>, keys: seq<int>, prefix: seq<Dir>, d: Dir)
    requires t.Node?
    requires forall r :: ValidPath(t, r) ==> prefix + r in order
    ensures forall r :: ValidPath(Child(t, d), r) ==> prefix + [d] + r in order
  {
    forall r | ValidPath(Child(t, d), r) ensures prefix + [d] + r in order {
      PathCons(t, d, r);
      assert prefix + ([d] + r) == prefix + [d] + r;
    }
  }

  /** The heap-key pass of `assignSorted`: the keys drawn for the tree's size
      (`size()`), sorted, handed out in level order. */
  function AssignKeys(t: Tree, rng: nat -> Draw): (r: Tree)
    ensures InOrder(r) == InOrder(t) && (SizesOk(t) ==> SizesOk(r))
  {
    Relabel(t, Traversal(t), SortKeys(DrawnKeys(rng, SizeOf(t))), [])
  }

  /** The heap-key pass yields a heap over any tree with correct sizes. */
  lemma AssignKeysHeap(t: Tree, rng: nat -> Draw)
    requires SizesOk(t)
    ensures HeapOrdered(AssignKeys(t, rng))
  {
    var order := Traversal(t);
    var keys := SortKeys(DrawnKeys(rng, SizeOf(t)));
    SizeIsLength(t);
    assert |order| <= |keys|;
    TraversalCovers(t);
    RelabelHeap(t, order, keys, []);
  }

  lemma TraversalCovers(t: Tree)
    ensures ParentsFirst(Traversal(t))
    ensures forall r :: ValidPath(t, r) ==> [] + r in Traversal(t)
  {
    TraversalCorrect(t);
    forall r | ValidPath(t, r) ensures [] + r in Traversal(t) {
      assert [] + r == r;
    }
  }

  // ---------------------------------------------------------------------
  // The constructor.
  // ---------------------------------------------------------------------

  /** `adjacent_find` with the reversed comparator: some element is less
      than the one before it. */
  function HasDescent(a: seq<Elem>): (b: bool)
    ensures b <==> exists i :: 0 <= i < |a| - 1 && Lt(a[i + 1], a[i])
  {
    if |a| < 2 then false
    else if Lt(a[1], a[0]) then true
    else HasDescent(a[1..])
  }

  /** The scan decides sortedness exactly. */
  lemma DescentIffUnsorted(a: seq<Elem>)
    ensures HasDescent(a) <==> !Sorted(a)
  {
    if !HasDescent(a) {
      NoDescentSorted(a);
    }
  }

  /** The unsorted path: each element inserted in turn, each drawing its heap
      key from the treap's own generator state. */
  function InsertAll(tr: Treap, a: seq<Elem>, rng: nat -> Draw): (r: Treap)
    ensures multiset(InOrder(r.root)) == multiset(InOrder(tr.root)) + multiset(a)
    decreases |a|
  {
    if |a| == 0 then tr
    else
      var next := Insert(tr, a[0], rng);
      var r := InsertAll(next, a[1..], rng);
      BagStep(multiset(InOrder(tr.root)), multiset(InOrder(next.root)), multiset(InOrder(r.root)), a);
      r
  }

  /** Inserting the head and then the rest of `a` adds all of `a`. */
  lemma BagStep(before: multiset<Elem>, mid: multiset<Elem>, after: multiset<Elem>, a: seq<Elem>)
    requires |a| > 0
    requires mid == before + multiset{a[0]} && after == mid + multiset(a[1..])
    ensures after == before + multiset(a)
  {
    assert a == [a[0]] + a[1..];
  }


  lemma {:induction false} InsertAllCorrect(tr: Treap, a: seq<Elem>, rng: nat -> Draw)
    requires WellFormed(tr)
    ensures WellFormed(InsertAll(tr, a, rng))
    ensures Size(InsertAll(tr, a, rng)) == Size(tr) + |a|
    decreases |a|
  {
    if |a| > 0 {
      InsertCorrect(tr, a[0], rng);
      InsertAllCorrect(Insert(tr, a[0], rng), a[1..], rng);
    }
  }

  /** Inserting, one at a time, elements none of which is less than anything
      before it appends them in order. */
  lemma {:induction false} InsertAllAppends(tr: Treap, a: seq<Elem>, rng: nat -> Draw)
    requires WellFormed(tr) && Sorted(InOrder(tr.root) + a)
    ensures InOrder(InsertAll(tr, a, rng).root) == InOrder(tr.root) + a
    decreases |a|
  {
    if |a| > 0 {
      var next := Insert(tr, a[0], rng);
      InsertCorrect(tr, a[0], rng);
      AppendStep(InOrder(tr.root), a, InOrder(next.root));
      InsertAllAppends(next, a[1..], rng);
    }
  }

  /** In a sorted `s + a`, `a[0]` placed at its upper bound in `s` goes to
      the end of `s`, and the rest of `a` still follows in order. */
  lemma AppendStep(s: seq<Elem>, a: seq<Elem>, s2: seq<Elem>)
    requires |a| > 0 && Sorted(s) && Sorted(s + a)
    requires s2 == s[..UpperIndex(s, a[0])] + [a[0]] + s[UpperIndex(s, a[0])..]
    ensures s2 + a[1..] == s + a && Sorted(s2 + a[1..])
  {
    forall j | 0 <= j < |s|
      ensures !Lt(a[0], s[j])
    {
      assert (s + a)[j] == s[j] && (s + a)[|s|] == a[0];
    }
    UpperBoundUnique(s, a[0], |s|, UpperIndex(s, a[0]));
    assert s2 == s + [a[0]];
    assert s + [a[0]] + a[1..] == s + a;
  }

  /** For sorted input the bulk path and one-by-one insertion into an empty
      treap hold the same sequence. */
  lemma SortedPathsAgree(a: seq<Elem>, rng: nat -> Draw)
    requires Sorted(a)
    ensures InOrder(FromSeq(a, rng).root) == InOrder(InsertAll(Empty(), a, rng).root)
  {
    FromSeqCorrect(a, rng);
    assert InOrder(Empty().root) + a == a;
    InsertAllAppends(Empty(), a, rng);
  }

  /** The bulk constructor `Treap(first, last)` as written. A single element
      is read through the iterator already advanced to `last`, a read past
      the end of the range; sorted input is assembled by the loop as
      written. */
  function FromSeqAsWritten(a: seq<Elem>, rng: nat -> Draw): (r: Read<Treap>)
    ensures r.PastTheEnd? <==> |a| == 1
  {
    if |a| == 0 then Defined(Empty())
    else if |a| == 1 then PastTheEnd
    else if HasDescent(a) then Defined(InsertAll(Empty(), a, rng))
    else Defined(Treap(AssignKeys(AssembleAsWritten(a), rng), DefaultSeed))
  }

  /** The bulk constructor with both defects corrected: a single element is
      read from `first`, and the assembly places every element. Its heap
      key is drawn for an empty treap and the generator state advances. */
  function FromSeq(a: seq<Elem>, rng: nat -> Draw): (r: Treap)
    ensures multiset(InOrder(r.root)) == multiset(a)
  {
    if |a| == 0 then Empty()
    else if |a| == 1 then
      var draw := rng(DefaultSeed);
      Treap(Node(a[0], HeapKeyFor(draw.value, 0), 1, Leaf, Leaf), draw.next)
    else if HasDescent(a) then InsertAll(Empty(), a, rng)
    else Treap(AssignKeys(Assemble(a), rng), DefaultSeed)
  }

  /** The constructor yields a well-formed treap holding exactly the input;
      sorted input keeps its order element for element. */
  lemma FromSeqCorrect(a: seq<Elem>, rng: nat -> Draw)
    ensures WellFormed(FromSeq(a, rng))
    ensures Size(FromSeq(a, rng)) == |a|
    ensures Sorted(a) ==> InOrder(FromSeq(a, rng).root) == a
  {
    DescentIffUnsorted(a);
    var r := FromSeq(a, rng);
    if |a| == 1 {
      assert InOrder(r.root) == a;
      assert SizesOk(r.root);
      assert HeapOrdered(r.root);
    } else if |a| >= 2 {
      if HasDescent(a) {
        InsertAllCorrect(Empty(), a, rng);
      } else {
        var t := Assemble(a);
        AssignKeysHeap(t, rng);
        SizeIsLength(r.root);
        assert InOrder(r.root) == a;
      }
    }
  }

  /** Sorted input whose length is a power of two loses its last element
      in the constructor as written. */
  lemma PowerOfTwoLosesLast(a: seq<Elem>, rng: nat -> Draw)
    requires |a| >= 2 && Sorted(a) && IsPow2(|a|)
    ensures FromSeqAsWritten(a, rng).Defined?
    ensures InOrder(FromSeqAsWritten(a, rng).value.root) == a[..|a| - 1]
    ensures Size(FromSeqAsWritten(a, rng).value) == |a| - 1
  {
    DescentIffUnsorted(a);
    var t := AssignKeys(AssembleAsWritten(a), rng);
    SizeIsLength(t);
  }

  /** Four sorted elements: the treap holds only the first three. */
  lemma FourSortedLoseLast(rng: nat -> Draw)
    ensures var a := [Elem(1, 0), Elem(2, 0), Elem(3, 0), Elem(4, 0)];
      InOrder(FromSeqAsWritten(a, rng).value.root) == [Elem(1, 0), Elem(2, 0), Elem(3, 0)]
  {
    var a := [Elem(1, 0), Elem(2, 0), Elem(3, 0), Elem(4, 0)];
    assert IsPow2(4) by {
      assert IsPow2(2);
    }
    PowerOfTwoLosesLast(a, rng);
  }

  /** Apart from those two inputs, the constructor as written and the
      corrected one agree. */
  lemma FromSeqAsWrittenAgrees(a: seq<Elem>, rng: nat -> Draw)
    requires |a| != 1 && !(|a| >= 2 && Sorted(a) && IsPow2(|a|))
    ensures FromSeqAsWritten(a, rng) == Defined(FromSeq(a, rng))
  {
    DescentIffUnsorted(a);
    if |a| >= 2 && !HasDescent(a) {
      AssembleAgrees(a);
    }
  }

  lemma SingleElementReadsPastEnd(x: Elem, rng: nat -> Draw)
    ensures FromSeqAsWritten([x], rng) == PastTheEnd
  {
  }
}
