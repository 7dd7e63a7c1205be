/**
  The public face of the persistent treap (`Treap`): a version is a root and
  the generator state that the next insertion draws from. Every operation
  returns a new version; the receiver is a value and cannot change, which is
  the persistence the source obtains by path copying.
*/
module Treaps {
  import opened Elements
  import opened Trees
  import opened Cursor
  import opened Queries
  import opened Insertion
  import opened Erasure
  import opened Replace
  import opened Random

  /** A version of the treap: `root` and `seed`. */
  datatype Treap = Treap(root: Tree, seed: nat)

  /** The three node-tree invariants hold for the version's root. */
  ghost predicate WellFormed(tr: Treap) {
    Valid(tr.root)
  }

  /** The default constructor: no elements, the default generator state. */
  function Empty(): (tr: Treap)
    ensures WellFormed(tr) && InOrder(tr.root) == [] && tr.seed == DefaultSeed
  {
    Treap(Leaf, DefaultSeed)
  }

  /** `size()`: the root's stored size, zero for an empty treap. */
  function Size(tr: Treap): (n: nat)
    ensures SizesOk(tr.root) ==> n == |InOrder(tr.root)|
  {
    SizeCounts(tr.root);
    SizeOf(tr.root)
  }

  lemma SizeCounts(t: Tree)
    ensures SizesOk(t) ==> SizeOf(t) == |InOrder(t)|
  {
    if SizesOk(t) {
      SizeIsLength(t);
    }
  }

  /** `empty()`. */
  function IsEmpty(tr: Treap): (b: bool)
    ensures b <==> InOrder(tr.root) == []
  {
    tr.root.Leaf?
  }

  /** `insert(x)`: one draw from the version's generator state gives the heap
      key; the new version carries the advanced state. */
  function Insert(tr: Treap, x: Elem, rng: nat -> Draw): (r: Treap)
    ensures r.seed == rng(tr.seed).next
    ensures multiset(InOrder(r.root)) == multiset(InOrder(tr.root)) + multiset{x}
  {
    var draw := rng(tr.seed);
    var hk := HeapKeyFor(draw.value, Size(tr));
    InsertInOrder(tr.root, x, hk);
    InsertedMultiset(InOrder(tr.root), x, InsertPos(tr.root, x));
    Treap(InsertNode(tr.root, x, hk), draw.next)
  }

  lemma InsertedMultiset(s: seq<Elem>, x: Elem, i: nat)
    requires i <= |s|
    ensures multiset(s[..i] + [x] + s[i..]) == multiset(s) + multiset{x}
  {
    assert s[..i] + s[i..] == s;
  }

  /** `deleteKey(key)`: erase the element at the lower bound of `key` if it
      is equivalent to `key`; otherwise the same root. */
  function DeleteKey(t: Tree, key: Elem): (r: Tree)
    requires SizesOk(t) && Sorted(InOrder(t))
    ensures !Contains(InOrder(t), key) ==> r == t
    ensures Contains(InOrder(t), key) ==>
      && Equiv(InOrder(t)[LowerIndex(InOrder(t), key)], key)
      && InOrder(r) == Without(InOrder(t), LowerIndex(InOrder(t), key))
  {
    var it := LowerBound(t, key);
    ContainsAtLowerBound(InOrder(t), key);
    if it.pos.End? then t
    else if !Lt(key, Deref(it)) && !Lt(Deref(it), key) then DeleteAt(t, it.pos.dirs)
    else t
  }

  /** `erase(key)`: the generator state is copied unchanged. */
  function Erase(tr: Treap, key: Elem): (r: Treap)
    requires SizesOk(tr.root) && Sorted(InOrder(tr.root))
    ensures r.seed == tr.seed
    ensures !Contains(InOrder(tr.root), key) ==> r == tr
  {
    Treap(DeleteKey(tr.root, key), tr.seed)
  }

  /** `erase(it)`: the cursor must be a non-end cursor of this version. */
  function EraseAt(tr: Treap, it: Iterator): (r: Treap)
    requires ValidIter(it) && it.root == tr.root && it.pos.At?
    ensures r.seed == tr.seed
    ensures Index(it) < |InOrder(tr.root)| && InOrder(r.root) == Without(InOrder(tr.root), Index(it))
  {
    Treap(DeleteAt(tr.root, it.pos.dirs), tr.seed)
  }

  /** `update(oldKey, newKey)`: replace the element `find(oldKey)` finds by `newKey`,
      which must be equivalent to it. The new version is built by the private
      constructor, so its generator state is the default one. */
  function Update(tr: Treap, oldKey: Elem, newKey: Elem): (r: Treap)
    requires SizesOk(tr.root) && Sorted(InOrder(tr.root))
    requires Equiv(oldKey, newKey)
    ensures !Contains(InOrder(tr.root), oldKey) ==> r == tr
    ensures Contains(InOrder(tr.root), oldKey) ==>
      && SameShape(tr.root, r.root)
      && InOrder(r.root) == InOrder(tr.root)[LowerIndex(InOrder(tr.root), oldKey) := newKey]
      && r.seed == DefaultSeed
  {
    var it := Find(tr.root, oldKey);
    if it.pos.End? then tr
    else Treap(ReplaceAt(tr.root, it.pos.dirs, newKey), DefaultSeed)
  }

  // ---------------------------------------------------------------------
  // Each mutation keeps the invariants and changes the contents exactly as
  // the ordered-multiset abstraction prescribes.
  // ---------------------------------------------------------------------

  lemma InsertCorrect(tr: Treap, x: Elem, rng: nat -> Draw)
    requires WellFormed(tr)
    ensures WellFormed(Insert(tr, x, rng))
    ensures Size(Insert(tr, x, rng)) == Size(tr) + 1
    ensures InOrder(Insert(tr, x, rng).root)
      == InOrder(tr.root)[..UpperIndex(InOrder(tr.root), x)] + [x] + InOrder(tr.root)[UpperIndex(InOrder(tr.root), x)..]
    ensures HeapKeys(Insert(tr, x, rng).root)
      == HeapKeys(tr.root) + multiset{HeapKeyFor(rng(tr.seed).value, Size(tr))}
  {
    InsertNodeCorrect(tr.root, x, HeapKeyFor(rng(tr.seed).value, Size(tr)));
  }

  lemma EraseCorrect(tr: Treap, key: Elem)
    requires WellFormed(tr)
    ensures WellFormed(Erase(tr, key))
    ensures Size(Erase(tr, key)) == Size(tr) - (if Contains(InOrder(tr.root), key) then 1 else 0)
    ensures Contains(InOrder(tr.root), key) ==>
      multiset(InOrder(Erase(tr, key).root))
        == multiset(InOrder(tr.root)) - multiset{InOrder(tr.root)[LowerIndex(InOrder(tr.root), key)]}
  {
    var s := InOrder(tr.root);
    if Contains(s, key) {
      var it := LowerBound(tr.root, key);
      ContainsAtLowerBound(s, key);
      DeleteAtCorrect(tr.root, it.pos.dirs);
    }
  }

  lemma EraseAtCorrect(tr: Treap, it: Iterator)
    requires WellFormed(tr) && ValidIter(it) && it.root == tr.root && it.pos.At?
    ensures WellFormed(EraseAt(tr, it))
    ensures Size(EraseAt(tr, it)) == Size(tr) - 1
    ensures multiset(InOrder(EraseAt(tr, it).root)) == multiset(InOrder(tr.root)) - multiset{Deref(it)}
  {
    DeleteAtCorrect(tr.root, it.pos.dirs);
  }

  lemma UpdateCorrect(tr: Treap, oldKey: Elem, newKey: Elem)
    requires WellFormed(tr) && Equiv(oldKey, newKey)
    ensures WellFormed(Update(tr, oldKey, newKey))
    ensures Size(Update(tr, oldKey, newKey)) == Size(tr)
    ensures HeapKeys(Update(tr, oldKey, newKey).root) == HeapKeys(tr.root)
  {
    var s := InOrder(tr.root);
    if Contains(s, oldKey) {
      var i := LowerIndex(s, oldKey);
      ContainsAtLowerBound(s, oldKey);
      ReplaceKeepsSorted(s, i, newKey);
      SameShapeKeepsInvariants(tr.root, Update(tr, oldKey, newKey).root);
      SameShapeKeys(tr.root, Update(tr, oldKey, newKey).root);
    }
  }

  lemma {:induction false} SameShapeKeys(a: Tree, b: Tree)
    requires SameShape(a, b)
    ensures HeapKeys(a) == HeapKeys(b) && SizeOf(a) == SizeOf(b)
  {
    if a.Node? {
      SameShapeKeys(a.left, b.left);
      SameShapeKeys(a.right, b.right);
    }
  }

  /** Inserting an element and then erasing its key gives back the same keys:
      the erase may remove an equivalent element other than the one inserted,
      but never one with a different key. When no element was equivalent to
      the inserted one, the old sequence comes back exactly. */
  lemma InsertThenEraseRestoresKeys(tr: Treap, x: Elem, rng: nat -> Draw)
    requires WellFormed(tr)
    ensures WellFormed(Insert(tr, x, rng))
    ensures WellFormed(Erase(Insert(tr, x, rng), x))
    ensures Size(Erase(Insert(tr, x, rng), x)) == Size(tr)
    ensures KeyBag(InOrder(Erase(Insert(tr, x, rng), x).root)) == KeyBag(InOrder(tr.root))
    ensures !Contains(InOrder(tr.root), x) ==>
      InOrder(Erase(Insert(tr, x, rng), x).root) == InOrder(tr.root)
  {
    var s := InOrder(tr.root);
    var u := UpperIndex(s, x);
    var mid := Insert(tr, x, rng);
    InsertCorrect(tr, x, rng);
    var s2 := InOrder(mid.root);
    assert s2[u] == x;
    assert Contains(s2, x);
    EraseCorrect(mid, x);
    RemovesEquivalentKey(s, x, u, s2);
    if !Contains(s, x) {
      FreshInsertIsLowerBound(s, x, u, s2);
    }
  }

  /** An element with no equivalent lands at its own lower bound, so erasing
      that position gives back the sequence it was inserted into. */
  lemma FreshInsertIsLowerBound(s: seq<Elem>, x: Elem, u: nat, s2: seq<Elem>)
    requires !Contains(s, x) && IsUpperBound(s, x, u)
    requires s2 == s[..u] + [x] + s[u..] && Sorted(s2)
    ensures LowerIndex(s2, x) == u && Without(s2, u) == s
  {
    forall j | 0 <= j < u
      ensures Lt(s2[j], x)
    {
      assert s2[j] == s[j];
    }
    forall j | u < j < |s2|
      ensures !Lt(s2[j], x)
    {
      assert s2[j] == s[j - 1];
    }
    LowerBoundUnique(s2, x, u, LowerIndex(s2, x));
    assert Without(s2, u) == s[..u] + s[u..];
    assert s[..u] + s[u..] == s;
  }

  /** The sequence-level fact behind the round trip. */
  lemma RemovesEquivalentKey(s: seq<Elem>, x: Elem, u: nat, s2: seq<Elem>)
    requires u <= |s| && s2 == s[..u] + [x] + s[u..] && Sorted(s2)
    ensures Contains(s2, x)
    ensures KeyBag(Without(s2, LowerIndex(s2, x))) == KeyBag(s)
  {
    assert s2[u] == x;
    ContainsAtLowerBound(s2, x);
    var lo := LowerIndex(s2, x);
    assert s2[lo].key == x.key;
    KeyBagInsert(s, x, u);
    KeyBagRemove(s2, lo);
    assert Without(s2, lo) == s2[..lo] + s2[lo + 1..];
  }
}
