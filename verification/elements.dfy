/**
  Elements stored in the treap and the ordering relation over them.

  The container is generic over an element type and a strict weak ordering
  `LessThan`. This model fixes the element to a key/payload pair ordered by its
  key alone, so that two elements can be equivalent under the ordering without
  being equal -- the situation `update` and duplicate insertion are about.
*/
module Elements {

  /** An element: `key` takes part in the ordering, `payload` does not. */
  datatype Elem = Elem(key: int, payload: int)

  /** The ordering relation `LessThan` (a strict weak ordering). */
  predicate Lt(a: Elem, b: Elem) {
    a.key < b.key
  }

  /** Equivalence induced by the ordering: neither is less than the other. */
  predicate Equiv(a: Elem, b: Elem) {
    !Lt(a, b) && !Lt(b, a)
  }

  /** Non-decreasing under `Lt`: no later element is less than an earlier one. */
  ghost predicate Sorted(s: seq<Elem>) {
    forall i, j :: 0 <= i < j < |s| ==> !Lt(s[j], s[i])
  }

  /** `i` is the position of the first element not less than `key`. */
  ghost predicate IsLowerBound(s: seq<Elem>, key: Elem, i: int) {
    && 0 <= i <= |s|
    && (forall j :: 0 <= j < i ==> Lt(s[j], key))
    && (forall j :: i <= j < |s| ==> !Lt(s[j], key))
  }

  /** `i` is the position of the first element strictly greater than `key`. */
  ghost predicate IsUpperBound(s: seq<Elem>, key: Elem, i: int) {
    && 0 <= i <= |s|
    && (forall j :: 0 <= j < i ==> !Lt(key, s[j]))
    && (forall j :: i <= j < |s| ==> Lt(key, s[j]))
  }

  /** The lower-bound position of a sorted sequence. */
  ghost function LowerIndex(s: seq<Elem>, key: Elem): (i: nat)
    requires Sorted(s)
    ensures IsLowerBound(s, key, i)
  {
    if |s| == 0 then 0
    else if Lt(s[0], key) then 1 + LowerIndex(s[1..], key)
    else 0
  }

  /** The upper-bound position of a sorted sequence. */
  ghost function UpperIndex(s: seq<Elem>, key: Elem): (i: nat)
    requires Sorted(s)
    ensures IsUpperBound(s, key, i)
  {
    if |s| == 0 then 0
    else if Lt(key, s[0]) then 0
    else 1 + UpperIndex(s[1..], key)
  }

  /** Number of elements of `s` equivalent to `key`. */
  ghost function CountEquiv(s: seq<Elem>, key: Elem): nat {
    if |s| == 0 then 0
    else (if Equiv(s[0], key) then 1 else 0) + CountEquiv(s[1..], key)
  }

  /** Some element of `s` is equivalent to `key`. */
  ghost predicate Contains(s: seq<Elem>, key: Elem) {
    exists i :: 0 <= i < |s| && Equiv(s[i], key)
  }

  lemma LowerBoundUnique(s: seq<Elem>, key: Elem, i: int, j: int)
    requires IsLowerBound(s, key, i) && IsLowerBound(s, key, j)
    ensures i == j
  {
    var m := if i < j then i else j;
    if m < |s| {
      var e := s[m];
    }
  }

  lemma UpperBoundUnique(s: seq<Elem>, key: Elem, i: int, j: int)
    requires IsUpperBound(s, key, i) && IsUpperBound(s, key, j)
    ensures i == j
  {
    var m := if i < j then i else j;
    if m < |s| {
      var e := s[m];
    }
  }

  /** The lower bound of a node's sequence when the node's element is not less than `key`. */
  lemma LowerBoundInLeft(l: seq<Elem>, d: Elem, r: seq<Elem>, key: Elem, i: int)
    requires Sorted(l + [d] + r) && !Lt(d, key) && IsLowerBound(l, key, i)
    ensures IsLowerBound(l + [d] + r, key, i)
  {
    SortedSplit(l, d, r);
    var s := l + [d] + r;
    forall j | i <= j < |s| ensures !Lt(s[j], key) {
      if j < |l| {
        assert s[j] == l[j];
      } else if j > |l| {
        assert s[j] == r[j - |l| - 1];
      }
    }
    forall j | 0 <= j < i ensures Lt(s[j], key) {
      assert s[j] == l[j];
    }
  }

  /** The lower bound of a node's sequence when the node's element is less than `key`. */
  lemma LowerBoundInRight(l: seq<Elem>, d: Elem, r: seq<Elem>, key: Elem, i: int)
    requires Sorted(l + [d] + r) && Lt(d, key) && IsLowerBound(r, key, i)
    ensures IsLowerBound(l + [d] + r, key, |l| + 1 + i)
  {
    SortedSplit(l, d, r);
    var s := l + [d] + r;
    forall j | |l| + 1 + i <= j < |s| ensures !Lt(s[j], key) {
      assert s[j] == r[j - |l| - 1];
    }
    forall j | 0 <= j < |l| + 1 + i ensures Lt(s[j], key) {
      if j < |l| {
        assert s[j] == l[j];
        assert !Lt(d, l[j]);
      } else if j > |l| {
        assert s[j] == r[j - |l| - 1];
      }
    }
  }

  /** The upper bound of a node's sequence when `key` is less than the node's element. */
  lemma UpperBoundInLeft(l: seq<Elem>, d: Elem, r: seq<Elem>, key: Elem, i: int)
    requires Sorted(l + [d] + r) && Lt(key, d) && IsUpperBound(l, key, i)
    ensures IsUpperBound(l + [d] + r, key, i)
  {
    SortedSplit(l, d, r);
    var s := l + [d] + r;
    forall j | i <= j < |s| ensures Lt(key, s[j]) {
      if j < |l| {
        assert s[j] == l[j];
      } else if j > |l| {
        assert s[j] == r[j - |l| - 1];
        assert !Lt(r[j - |l| - 1], d);
      }
    }
    forall j | 0 <= j < i ensures !Lt(key, s[j]) {
      assert s[j] == l[j];
    }
  }

  /** The upper bound of a node's sequence when `key` is not less than the node's element. */
  lemma UpperBoundInRight(l: seq<Elem>, d: Elem, r: seq<Elem>, key: Elem, i: int)
    requires Sorted(l + [d] + r) && !Lt(key, d) && IsUpperBound(r, key, i)
    ensures IsUpperBound(l + [d] + r, key, |l| + 1 + i)
  {
    SortedSplit(l, d, r);
    var s := l + [d] + r;
    forall j | |l| + 1 + i <= j < |s| ensures Lt(key, s[j]) {
      assert s[j] == r[j - |l| - 1];
    }
    forall j | 0 <= j < |l| + 1 + i ensures !Lt(key, s[j]) {
      if j < |l| {
        assert s[j] == l[j];
        assert !Lt(d, l[j]);
      } else if j > |l| {
        assert s[j] == r[j - |l| - 1];
      }
    }
  }

  /** Where an equivalent of `key` can be in a node's sorted sequence. */
  lemma ContainsSplit(l: seq<Elem>, d: Elem, r: seq<Elem>, key: Elem)
    requires Sorted(l + [d] + r)
    ensures Lt(key, d) ==> (Contains(l + [d] + r, key) <==> Contains(l, key))
    ensures Lt(d, key) ==> (Contains(l + [d] + r, key) <==> Contains(r, key))
    ensures Equiv(d, key) ==> Contains(l + [d] + r, key)
  {
    SortedSplit(l, d, r);
    var s := l + [d] + r;
    assert s[|l|] == d;
    if Contains(l, key) {
      var i :| 0 <= i < |l| && Equiv(l[i], key);
      assert s[i] == l[i];
    }
    if Contains(r, key) {
      var i :| 0 <= i < |r| && Equiv(r[i], key);
      assert s[|l| + 1 + i] == r[i];
    }
    if Contains(s, key) {
      var i :| 0 <= i < |s| && Equiv(s[i], key);
      if i < |l| {
        assert s[i] == l[i];
      } else if i > |l| {
        assert s[i] == r[i - |l| - 1];
      }
    }
  }

  /** A node's in-order sequence `l + [d] + r` is sorted exactly when both
      sides are sorted and `d` separates them. */
  lemma {:induction false} SortedSplit(l: seq<Elem>, d: Elem, r: seq<Elem>)
    ensures Sorted(l + [d] + r) <==>
      && Sorted(l) && Sorted(r)
      && (forall i :: 0 <= i < |l| ==> !Lt(d, l[i]))
      && (forall i :: 0 <= i < |r| ==> !Lt(r[i], d))
  {
    var s := l + [d] + r;
    if Sorted(s) {
      forall i, j | 0 <= i < j < |l| ensures !Lt(l[j], l[i]) {
        assert s[i] == l[i] && s[j] == l[j];
      }
      forall i, j | 0 <= i < j < |r| ensures !Lt(r[j], r[i]) {
        assert s[|l| + 1 + i] == r[i] && s[|l| + 1 + j] == r[j];
      }
      forall i | 0 <= i < |l| ensures !Lt(d, l[i]) {
        assert s[i] == l[i] && s[|l|] == d;
      }
      forall i | 0 <= i < |r| ensures !Lt(r[i], d) {
        assert s[|l| + 1 + i] == r[i] && s[|l|] == d;
      }
    }
    if && Sorted(l) && Sorted(r)
       && (forall i :: 0 <= i < |l| ==> !Lt(d, l[i]))
       && (forall i :: 0 <= i < |r| ==> !Lt(r[i], d))
    {
      forall i, j | 0 <= i < j < |s| ensures !Lt(s[j], s[i]) {
        if j < |l| {
          assert s[i] == l[i] && s[j] == l[j];
        } else if j == |l| {
          assert s[i] == l[i];
        } else if i < |l| {
          assert s[i] == l[i] && s[j] == r[j - |l| - 1];
          assert !Lt(d, l[i]) && !Lt(r[j - |l| - 1], d);
        } else if i == |l| {
          assert s[j] == r[j - |l| - 1];
        } else {
          assert s[i] == r[i - |l| - 1] && s[j] == r[j - |l| - 1];
        }
      }
    }
  }

  /** Placing `x` at its upper-bound position keeps a sorted sequence sorted. */
  lemma InsertKeepsSorted(s: seq<Elem>, x: Elem, i: int)
    requires Sorted(s) && IsUpperBound(s, x, i)
    ensures Sorted(s[..i] + [x] + s[i..])
  {
    var t := s[..i] + [x] + s[i..];
    forall a, b | 0 <= a < b < |t| ensures !Lt(t[b], t[a]) {
      if b < i {
        assert t[a] == s[a] && t[b] == s[b];
      } else if b == i {
        assert t[a] == s[a];
      } else if a < i {
        assert t[a] == s[a] && t[b] == s[b - 1];
      } else if a == i {
        assert t[b] == s[b - 1];
      } else {
        assert t[a] == s[a - 1] && t[b] == s[b - 1];
      }
    }
  }

  /** Removing any one element keeps a sorted sequence sorted. */
  lemma RemoveKeepsSorted(s: seq<Elem>, i: int)
    requires Sorted(s) && 0 <= i < |s|
    ensures Sorted(s[..i] + s[i + 1..])
  {
    var t := s[..i] + s[i + 1..];
    forall a, b | 0 <= a < b < |t| ensures !Lt(t[b], t[a]) {
      var a' := if a < i then a else a + 1;
      var b' := if b < i then b else b + 1;
      assert t[a] == s[a'] && t[b] == s[b'];
    }
  }

  /** Replacing an element by an equivalent one keeps a sorted sequence sorted. */
  lemma ReplaceKeepsSorted(s: seq<Elem>, i: int, x: Elem)
    requires Sorted(s) && 0 <= i < |s| && Equiv(s[i], x)
    ensures Sorted(s[i := x])
  {
  }

  /** A sequence with no adjacent descent is sorted (the scan of the bulk loader). */
  lemma {:induction false} NoDescentSorted(s: seq<Elem>)
    requires forall i :: 0 <= i < |s| - 1 ==> !Lt(s[i + 1], s[i])
    ensures Sorted(s)
  {
    if |s| > 1 {
      NoDescentSorted(s[1..]);
      forall i, j | 0 <= i < j < |s| ensures !Lt(s[j], s[i]) {
        if i > 0 {
          assert s[i] == s[1..][i - 1] && s[j] == s[1..][j - 1];
        } else if j > 1 {
          assert s[1] == s[1..][0] && s[j] == s[1..][j - 1];
          assert !Lt(s[1], s[0]);
        }
      }
    }
  }

  lemma {:induction false} CountEquivAppend(a: seq<Elem>, b: seq<Elem>, key: Elem)
    ensures CountEquiv(a + b, key) == CountEquiv(a, key) + CountEquiv(b, key)
  {
    if |a| > 0 {
      assert (a + b)[1..] == a[1..] + b;
      CountEquivAppend(a[1..], b, key);
    } else {
      assert a + b == b;
    }
  }

  lemma {:induction false} CountEquivAll(s: seq<Elem>, key: Elem)
    requires forall i :: 0 <= i < |s| ==> Equiv(s[i], key)
    ensures CountEquiv(s, key) == |s|
  {
    if |s| > 0 {
      CountEquivAll(s[1..], key);
    }
  }

  lemma {:induction false} CountEquivNone(s: seq<Elem>, key: Elem)
    requires forall i :: 0 <= i < |s| ==> !Equiv(s[i], key)
    ensures CountEquiv(s, key) == 0
  {
    if |s| > 0 {
      CountEquivNone(s[1..], key);
    }
  }

  /** In a sorted sequence the equivalents of `key` are exactly the elements
      between the lower and the upper bound. */
  lemma CountIsBoundGap(s: seq<Elem>, key: Elem)
    requires Sorted(s)
    ensures LowerIndex(s, key) <= UpperIndex(s, key)
    ensures CountEquiv(s, key) == UpperIndex(s, key) - LowerIndex(s, key)
  {
    var lo, hi := LowerIndex(s, key), UpperIndex(s, key);
    assert lo <= hi by {
      assert hi < lo ==> Lt(s[hi], key);
    }
    assert s == s[..lo] + s[lo..hi] + s[hi..];
    CountBands(s[..lo], s[lo..hi], s[hi..], key);
  }

  /** A run of equivalents between two runs without any is counted exactly. */
  lemma CountBands(x: seq<Elem>, y: seq<Elem>, z: seq<Elem>, key: Elem)
    requires forall i :: 0 <= i < |x| ==> !Equiv(x[i], key)
    requires forall i :: 0 <= i < |y| ==> Equiv(y[i], key)
    requires forall i :: 0 <= i < |z| ==> !Equiv(z[i], key)
    ensures CountEquiv(x + y + z, key) == |y|
  {
    CountEquivAppend(x + y, z, key);
    CountEquivAppend(x, y, key);
    CountEquivNone(x, key);
    CountEquivAll(y, key);
    CountEquivNone(z, key);
  }

  /** `Contains` holds exactly when the lower bound points at an equivalent element. */
  lemma ContainsAtLowerBound(s: seq<Elem>, key: Elem)
    requires Sorted(s)
    ensures Contains(s, key) <==>
      (LowerIndex(s, key) < |s| && Equiv(s[LowerIndex(s, key)], key))
  {
    var lo := LowerIndex(s, key);
    if Contains(s, key) {
      var i :| 0 <= i < |s| && Equiv(s[i], key);
      assert lo <= i;
      assert lo == i || !Lt(s[i], s[lo]);
    }
  }

  /** The keys of `s`, position by position. */
  function Keys(s: seq<Elem>): (r: seq<int>)
    ensures |r| == |s| && forall i :: 0 <= i < |s| ==> r[i] == s[i].key
  {
    seq(|s|, i requires 0 <= i < |s| => s[i].key)
  }

  /** The multiset of keys of `s`: what the treap holds up to the payloads. */
  ghost function KeyBag(s: seq<Elem>): multiset<int> {
    multiset(Keys(s))
  }

  /** Inserting `x` at position `i` adds its key. */
  lemma KeyBagInsert(s: seq<Elem>, x: Elem, i: nat)
    requires i <= |s|
    ensures KeyBag(s[..i] + [x] + s[i..]) == KeyBag(s) + multiset{x.key}
  {
    var k := Keys(s);
    assert Keys(s[..i] + [x] + s[i..]) == k[..i] + [x.key] + k[i..];
    assert k == k[..i] + k[i..];
  }

  /** Removing position `j` removes that element's key. */
  lemma KeyBagRemove(s: seq<Elem>, j: nat)
    requires j < |s|
    ensures KeyBag(s[..j] + s[j + 1..]) == KeyBag(s) - multiset{s[j].key}
  {
    var k := Keys(s);
    assert Keys(s[..j] + s[j + 1..]) == k[..j] + k[j + 1..];
    assert k == k[..j] + [s[j].key] + k[j + 1..];
  }
}
