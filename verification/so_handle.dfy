/** `SoHandle`: the storage location of a simulation object inside the
    resource manager, a NUMA node number and an index into that node's
    vector. */
module SoHandles {
  import opened BoundedInts

  datatype SoHandle = SoHandle(numaNode: uint16, elementIdx: uint32)

  /** The default constructor: both parts hold their type's maximum, a
      handle that names the last slot of the last possible node, which only
      a store whose node 65535 is full up to that slot reaches. */
  function Default(): (h: SoHandle)
    ensures h.numaNode == UINT16_LIMIT - 1 && h.elementIdx == UINT32_LIMIT - 1
    ensures forall other: SoHandle :: other.numaNode <= h.numaNode && other.elementIdx <= h.elementIdx
  {
    SoHandle(UINT16_LIMIT - 1, UINT32_LIMIT - 1)
  }

  /** The one-argument constructor places the element on NUMA node 0. */
  function OnNodeZero(elementIdx: uint32): (h: SoHandle)
    ensures h.numaNode == 0 && h.elementIdx == elementIdx
  {
    SoHandle(0, elementIdx)
  }

  /** `operator==`: compares both parts. */
  predicate Equal(a: SoHandle, b: SoHandle)
    ensures Equal(a, b) <==> a == b
  {
    a.numaNode == b.numaNode && a.elementIdx == b.elementIdx
  }

  /** `operator<`: by NUMA node first, then by element index. */
  predicate Less(a: SoHandle, b: SoHandle)
  {
    if a.numaNode == b.numaNode then a.elementIdx < b.elementIdx
    else a.numaNode < b.numaNode
  }

  /** The position a handle would have if all NUMA nodes were laid out one
      after another, each with room for every 32-bit element index. */
  function Key(h: SoHandle): nat
  {
    h.numaNode * UINT32_LIMIT + h.elementIdx
  }

  /** `operator<` is the order of the linear layout above, so it is a
      strict total order on handles. */
  lemma LessIsKeyOrder(a: SoHandle, b: SoHandle)
    ensures Less(a, b) <==> Key(a) < Key(b)
  {
    if a.numaNode < b.numaNode {
      assert a.numaNode * UINT32_LIMIT + UINT32_LIMIT <= b.numaNode * UINT32_LIMIT;
    } else if b.numaNode < a.numaNode {
      assert b.numaNode * UINT32_LIMIT + UINT32_LIMIT <= a.numaNode * UINT32_LIMIT;
    }
  }

  lemma LessIsStrictTotalOrder(a: SoHandle, b: SoHandle, c: SoHandle)
    ensures !Less(a, a)
    ensures Less(a, b) && Less(b, c) ==> Less(a, c)
    ensures a == b || Less(a, b) || Less(b, a)
    ensures !(Less(a, b) && Less(b, a))
  {
    LessIsKeyOrder(a, b);
    LessIsKeyOrder(b, c);
    LessIsKeyOrder(a, c);
    LessIsKeyOrder(b, a);
    if Key(a) == Key(b) {
      KeyInjective(a, b);
    }
  }

  lemma KeyInjective(a: SoHandle, b: SoHandle)
    requires Key(a) == Key(b)
    ensures a == b
  {
    LessIsKeyOrder(a, b);
    LessIsKeyOrder(b, a);
  }
}
