/** `FixedSizeVector<T, N>`: an array of `N` slots with a push-back that
    keeps track of how many slots are in use. The array is `data` (its
    length is `N`); `size` counts the slots in use. */
module FixedSizeVectors {

  datatype FixedSizeVector<T> = FixedSizeVector(data: seq<T>, size: nat)

  /** The number of slots, the template parameter `N`. */
  function Capacity<T>(v: FixedSizeVector<T>): nat
  {
    |v.data|
  }

  /** The size never exceeds the number of slots. */
  predicate Valid<T>(v: FixedSizeVector<T>)
  {
    v.size <= |v.data|
  }

  /** A freshly constructed vector: `slots` stands for the contents the
      array holds before anything is pushed. */
  function New<T>(slots: seq<T>): (v: FixedSizeVector<T>)
    ensures Valid(v) && Capacity(v) == |slots|
    ensures Size(v) == 0 && Elements(v) == []
  {
    FixedSizeVector(slots, 0)
  }

  /** `size()`. */
  function Size<T>(v: FixedSizeVector<T>): nat
  {
    v.size
  }

  /** The elements between `begin()` and `end()`: the first `size` slots. */
  function Elements<T>(v: FixedSizeVector<T>): (elems: seq<T>)
    requires Valid(v)
    ensures |elems| == Size(v)
    ensures forall i :: 0 <= i < |elems| ==> elems[i] == Get(v, i)
  {
    v.data[..v.size]
  }

  /** `operator[]` for reading: there is no bounds check against the size,
      only the array bound. */
  function Get<T>(v: FixedSizeVector<T>, idx: nat): T
    requires idx < Capacity(v)
  {
    v.data[idx]
  }

  /** `operator[]` for writing. */
  function Set<T>(v: FixedSizeVector<T>, idx: nat, x: T): (r: FixedSizeVector<T>)
    requires idx < Capacity(v)
    ensures Capacity(r) == Capacity(v) && Size(r) == Size(v)
    ensures Get(r, idx) == x
    ensures forall k :: 0 <= k < Capacity(v) && k != idx ==> Get(r, k) == Get(v, k)
  {
    v.(data := v.data[idx := x])
  }

  /** `clear()`: the size drops to 0, the slots keep their contents. */
  function Clear<T>(v: FixedSizeVector<T>): (r: FixedSizeVector<T>)
    ensures Valid(r) && Size(r) == 0 && Elements(r) == []
    ensures Capacity(r) == Capacity(v)
    ensures forall k :: 0 <= k < Capacity(v) ==> Get(r, k) == Get(v, k)
  {
    v.(size := 0)
  }

  /** `push_back(x)`: the caller must not push beyond `N`. */
  function PushBack<T>(v: FixedSizeVector<T>, x: T): (r: FixedSizeVector<T>)
    requires Valid(v) && Size(v) < Capacity(v)
    ensures Valid(r) && Capacity(r) == Capacity(v)
    ensures Size(r) == Size(v) + 1
    ensures Elements(r) == Elements(v) + [x]
    ensures forall k :: 0 <= k < Capacity(v) && k != Size(v) ==> Get(r, k) == Get(v, k)
  {
    FixedSizeVector(v.data[v.size := x], v.size + 1)
  }

  /** `operator++` on a vector of numbers: every one of the `N` slots is
      incremented, also those beyond the size. */
  method Increment(v: FixedSizeVector<int>) returns (r: FixedSizeVector<int>)
    ensures Capacity(r) == Capacity(v) && Size(r) == Size(v)
    ensures forall k :: 0 <= k < Capacity(v) ==> Get(r, k) == Get(v, k) + 1
  {
    var data := v.data;
    var i := 0;
    while i < |data|
      invariant 0 <= i <= |data| && |data| == |v.data|
      invariant forall k :: 0 <= k < i ==> data[k] == v.data[k] + 1
      invariant forall k :: i <= k < |data| ==> data[k] == v.data[k]
    {
      data := data[i := data[i] + 1];
      i := i + 1;
    }
    r := FixedSizeVector(data, v.size);
  }

  /** Pushing a sequence of values one after another. */
  function PushAll<T>(v: FixedSizeVector<T>, xs: seq<T>): (r: FixedSizeVector<T>)
    requires Valid(v) && Size(v) + |xs| <= Capacity(v)
    ensures Valid(r) && Capacity(r) == Capacity(v) && Size(r) == Size(v) + |xs|
    decreases |xs|
  {
    if |xs| == 0 then v else PushAll(PushBack(v, xs[0]), xs[1..])
  }

  /** The elements after pushing are the old elements followed by the
      pushed values, in push order. */
  lemma {:induction false} PushAllAppends<T>(v: FixedSizeVector<T>, xs: seq<T>)
    requires Valid(v) && Size(v) + |xs| <= Capacity(v)
    ensures Elements(PushAll(v, xs)) == Elements(v) + xs
    decreases |xs|
  {
    if |xs| > 0 {
      PushAllAppends(PushBack(v, xs[0]), xs[1..]);
      assert [xs[0]] + xs[1..] == xs;
    }
  }

  /** After `clear()`, pushing `xs` leaves exactly `xs` between `begin()`
      and `end()`, whatever the slots held before. */
  lemma ClearThenPushAll<T>(v: FixedSizeVector<T>, xs: seq<T>)
    requires |xs| <= Capacity(v)
    ensures Elements(PushAll(Clear(v), xs)) == xs
  {
    PushAllAppends(Clear(v), xs);
  }
}
