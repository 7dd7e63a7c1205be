/**
  Heap-key generation. The source draws numbers with the C library's
  reentrant generator `rand_r`, whose algorithm belongs to the platform; here
  it is a parameter: a function from a generator state to the number drawn
  and the successor state. Only the rule that turns a draw into a heap key is
  fixed.
*/
module Random {
  /** One call of `rand_r(&state)`: the non-negative number returned and the
      state written back. */
  datatype Draw = Draw(value: nat, next: nat)

  /** The generator state of every treap built without a stored state. */
  const DefaultSeed: nat := 6781

  /** The fixed state from which the sorted bulk loader draws its keys. */
  const BulkSeed: nat := 8271

  /** `rno % (size * 12 + 1)`: the heap key for a node entering a treap of
      `size` elements. */
  function HeapKeyFor(value: nat, size: nat): (k: nat)
    ensures k <= size * 12
    ensures size == 0 ==> k == 0
  {
    value % (size * 12 + 1)
  }

  /** The generator state after `i` calls of `rand_r` starting from `state`:
      what `RNGIterator`'s `operator++` reaches after `i` steps. */
  ghost function StateAfter(rng: nat -> Draw, state: nat, i: nat): nat
    decreases i
  {
    if i == 0 then state else StateAfter(rng, rng(state).next, i - 1)
  }

  /** `n` successive draws starting from `state`, in the order drawn: the
      `i`-th is the number drawn from the state reached after `i` calls. */
  function Draws(rng: nat -> Draw, state: nat, n: nat): (r: seq<nat>)
    ensures |r| == n
    ensures forall i :: 0 <= i < n ==> r[i] == rng(StateAfter(rng, state, i)).value
    decreases n
  {
    if n == 0 then [] else [rng(state).value] + Draws(rng, rng(state).next, n - 1)
  }
}
