/** The two member containers of the scalar back end: `VectorPlaceholder`,
    a vector interface without storage, and `OneElementArray`, an array
    interface around one value. */
module Backend {
  import opened Wrappers

  /** The message of the `std::logic_error` both containers throw. */
  const Unsupported: string := "Unsupported operation!"

  /** The operations of the vector interface. */
  datatype VectorOp<T> =
    | Index(idx: nat)
    | PushBack(x: T)
    | EmplaceBack(x: T)
    | PopBack
    | Begin
    | End

  // ----- VectorPlaceholder ---------------------------------------------------

  /** A `VectorPlaceholder` has no data members: both constructors give
      the same value, and the list of the initializer-list constructor is
      dropped. */
  datatype VectorPlaceholder<T> = VectorPlaceholder

  /** `size()`. */
  function PlaceholderSize<T>(v: VectorPlaceholder<T>): (n: nat)
    ensures n == 0
  {
    0
  }

  /** Every element access and every mutation throws. */
  function PlaceholderApply<T>(v: VectorPlaceholder<T>, op: VectorOp<T>): (r: Result<T>)
    ensures r.Failure? && r.error == LogicError(Unsupported)
  {
    Failure(LogicError(Unsupported))
  }

  // ----- OneElementArray -----------------------------------------------------

  datatype OneElementArray<T> = OneElementArray(data: T)

  /** The default constructor value-initialises the element; `zero` stands
      for `T()`. */
  function NewDefault<T>(zero: T): (a: OneElementArray<T>)
    ensures forall i: nat :: Get(a, i) == zero
  {
    FromValue(zero)
  }

  /** The value constructors (by reference and by move) store the value. */
  function FromValue<T>(x: T): (a: OneElementArray<T>)
    ensures forall i: nat :: Get(a, i) == x
  {
    OneElementArray(x)
  }

  /** The initializer-list constructor stores the first element of the
      list; it dereferences `list.begin()`, so the list must not be empty. */
  function FromList<T>(list: seq<T>): (a: OneElementArray<T>)
    requires |list| > 0
    ensures forall i: nat :: Get(a, i) == list[0]
  {
    OneElementArray(list[0])
  }

  /** `size()`. */
  function Size<T>(a: OneElementArray<T>): (n: nat)
    ensures n == 1
  {
    1
  }

  /** `operator[]` for reading: the index is ignored. */
  function Get<T>(a: OneElementArray<T>, idx: nat): T
  {
    a.data
  }

  /** `operator[]` for writing: the index is ignored, so the written value
      is seen through every index. */
  function Set<T>(a: OneElementArray<T>, idx: nat, x: T): (r: OneElementArray<T>)
    ensures forall i: nat :: Get(r, i) == x
  {
    OneElementArray(x)
  }

  /** All indices denote the same element. */
  lemma EveryIndexIsTheElement<T>(a: OneElementArray<T>, i: nat, j: nat)
    ensures Get(a, i) == Get(a, j)
  {
  }

  /** The elements between `begin()` and `end()`: exactly the one element. */
  function Elements<T>(a: OneElementArray<T>): (elems: seq<T>)
    ensures |elems| == Size(a)
    ensures forall i :: 0 <= i < |elems| ==> elems[i] == Get(a, i)
  {
    [a.data]
  }

  /** `push_back` throws: the array has a fixed single element. */
  function ArrayPushBack<T>(a: OneElementArray<T>, x: T): (r: Result<OneElementArray<T>>)
    ensures r.Failure? && r.error == LogicError(Unsupported)
  {
    Failure(LogicError(Unsupported))
  }

  /** `pop_back` throws as well. */
  function ArrayPopBack<T>(a: OneElementArray<T>): (r: Result<OneElementArray<T>>)
    ensures r.Failure? && r.error == LogicError(Unsupported)
  {
    Failure(LogicError(Unsupported))
  }
}
