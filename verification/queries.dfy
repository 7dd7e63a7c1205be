/**
  Key queries of the treap: `exists`, `lower_bound`, `upper_bound`, `find`
  and `count`. Each descends from the root along the ordering; the bounds
  return a cursor at the last node of the descent where the search went left.
*/
module Queries {
  import opened Elements
  import opened Trees
  import opened Cursor

  /** Reading `*it` through a cursor: defined, or a read of `end()`. */
  datatype Read<T> = Defined(value: T) | PastTheEnd

  /** Every element of `s` is less than `key`. */
  ghost predicate AllLess(s: seq<Elem>, key: Elem) {
    forall i :: 0 <= i < |s| ==> Lt(s[i], key)
  }

  /** `exists(key)`: some element is equivalent to `key`. */
  function Exists(t: Tree, key: Elem): (r: bool)
    requires Sorted(InOrder(t))
    ensures r <==> Contains(InOrder(t), key)
  {
    if t.Leaf? then false
    else
      SortedSplit(InOrder(t.left), t.data, InOrder(t.right));
      ContainsSplit(InOrder(t.left), t.data, InOrder(t.right), key);
      if Lt(key, t.data) then Exists(t.left, key)
      else if Lt(t.data, key) then Exists(t.right, key)
      else true
  }

  /** The path of `lower_bound`: the deepest node of the descent whose element
      is not less than `key`, or `End` when there is none. */
  function LowerPos(t: Tree, key: Elem): (r: Pos)
    requires Sorted(InOrder(t))
    ensures r.At? ==> ValidPath(t, r.dirs)
    ensures IsLowerBound(InOrder(t), key, if r.End? then |InOrder(t)| else PathIndex(t, r.dirs))
  {
    if t.Leaf? then End
    else
      var l, r := InOrder(t.left), InOrder(t.right);
      SortedSplit(l, t.data, r);
      if !Lt(t.data, key) then
        match LowerPos(t.left, key)
        case End =>
          LowerBoundInLeft(l, t.data, r, key, |l|);
          At([])
        case At(q) =>
          PathCons(t, Left, q);
          LowerBoundInLeft(l, t.data, r, key, PathIndex(t.left, q));
          At([Left] + q)
      else
        match LowerPos(t.right, key)
        case End =>
          LowerBoundInRight(l, t.data, r, key, |r|);
          End
        case At(q) =>
          PathCons(t, Right, q);
          LowerBoundInRight(l, t.data, r, key, PathIndex(t.right, q));
          At([Right] + q)
  }

  /** The path of `upper_bound`: the deepest node of the descent whose element
      is greater than `key`, or `End` when there is none. */
  function UpperPos(t: Tree, key: Elem): (r: Pos)
    requires Sorted(InOrder(t))
    ensures r.At? ==> ValidPath(t, r.dirs)
    ensures IsUpperBound(InOrder(t), key, if r.End? then |InOrder(t)| else PathIndex(t, r.dirs))
  {
    if t.Leaf? then End
    else
      var l, r := InOrder(t.left), InOrder(t.right);
      SortedSplit(l, t.data, r);
      if Lt(key, t.data) then
        match UpperPos(t.left, key)
        case End =>
          UpperBoundInLeft(l, t.data, r, key, |l|);
          At([])
        case At(q) =>
          PathCons(t, Left, q);
          UpperBoundInLeft(l, t.data, r, key, PathIndex(t.left, q));
          At([Left] + q)
      else
        match UpperPos(t.right, key)
        case End =>
          UpperBoundInRight(l, t.data, r, key, |r|);
          End
        case At(q) =>
          PathCons(t, Right, q);
          UpperBoundInRight(l, t.data, r, key, PathIndex(t.right, q));
          At([Right] + q)
  }

  /** `lower_bound(key)`: the cursor at the first element not less than `key`. */
  function LowerBound(t: Tree, key: Elem): (it: Iterator)
    requires SizesOk(t) && Sorted(InOrder(t))
    ensures ValidIter(it) && it.root == t
    ensures Index(it) == LowerIndex(InOrder(t), key)
  {
    var it := Iterator(t, LowerPos(t, key));
    LowerBoundUnique(InOrder(t), key, Index(it), LowerIndex(InOrder(t), key));
    it
  }

  /** `upper_bound(key)`: the cursor at the first element greater than `key`. */
  function UpperBound(t: Tree, key: Elem): (it: Iterator)
    requires SizesOk(t) && Sorted(InOrder(t))
    ensures ValidIter(it) && it.root == t
    ensures Index(it) == UpperIndex(InOrder(t), key)
  {
    var it := Iterator(t, UpperPos(t, key));
    UpperBoundUnique(InOrder(t), key, Index(it), UpperIndex(InOrder(t), key));
    it
  }

  /** `find(key)`, with the end check the source omits (see `FindAsWritten`):
      the lower bound if it holds an equivalent element, otherwise `end()`. */
  function Find(t: Tree, key: Elem): (it: Iterator)
    requires SizesOk(t) && Sorted(InOrder(t))
    ensures ValidIter(it) && it.root == t
    ensures it.pos.At? <==> Contains(InOrder(t), key)
    ensures it.pos.At? ==> it == LowerBound(t, key) && Equiv(Deref(it), key)
  {
    var it := LowerBound(t, key);
    ContainsAtLowerBound(InOrder(t), key);
    if it.pos.At? && !Lt(key, Deref(it)) && !Lt(Deref(it), key) then it else EndOf(t)
  }

  /** `find(key)` as written: it dereferences the lower bound before checking
      for `end()`, which is a read past the end exactly when every element is
      less than `key`; whenever it is defined it agrees with `Find`. */
  function FindAsWritten(t: Tree, key: Elem): (r: Read<Iterator>)
    requires SizesOk(t) && Sorted(InOrder(t))
    ensures r.PastTheEnd? <==> AllLess(InOrder(t), key)
    ensures r.Defined? ==> r.value == Find(t, key)
  {
    var it := LowerBound(t, key);
    if it.pos.End? then PastTheEnd
    else if !Lt(key, Deref(it)) && !Lt(Deref(it), key) then Defined(it)
    else Defined(EndOf(t))
  }

  /** Concretely: `find` on an empty treap reads `*end()`. */
  lemma FindOnEmptyReadsPastEnd(key: Elem)
    ensures FindAsWritten(Leaf, key) == PastTheEnd
  {
  }

  /** `count(key)`: the distance from `lower_bound(key)` to `upper_bound(key)`. */
  method Count(t: Tree, key: Elem) returns (n: nat)
    requires SizesOk(t) && Sorted(InOrder(t))
    ensures n == CountEquiv(InOrder(t), key)
  {
    var first := LowerBound(t, key);
    var last := UpperBound(t, key);
    var d := Distance(last, first);
    CountIsBoundGap(InOrder(t), key);
    n := d;
  }
}
