/** The agent store of the resource manager: one vector of simulation
    objects per NUMA node, and an identity map from each object's uid to
    the handle of the slot that holds it.

    Objects are values `SimObject(uid, data)`; the store reads nothing of
    an object but its uid. Deleting an object's memory is not modelled:
    an object that leaves the store simply is no longer in it. */
module ResourceManager {
  import opened Wrappers
  import opened BoundedInts
  import opened SoHandles
  import DiffusionGrids

  /** `SoUid`: the identity of a simulation object. */
  type Uid = nat

  datatype SimObject<T> = SimObject(uid: Uid, data: T)

  datatype Store<T> = Store(
    uidSohMap: map<Uid, SoHandle>,
    simObjects: seq<seq<SimObject<T>>>,
    diffusionGrids: DiffusionGrids.Registry)

  // ----- Addressing -----------------------------------------------------

  /** Every slot can be named by a handle: at most 2^16 NUMA nodes, at most
      2^32 objects per node. */
  predicate Addressable<T>(objs: seq<seq<SimObject<T>>>)
  {
    |objs| <= UINT16_LIMIT && forall n :: 0 <= n < |objs| ==> |objs[n]| <= UINT32_LIMIT
  }

  predicate InRange<T>(objs: seq<seq<SimObject<T>>>, h: SoHandle)
  {
    h.numaNode < |objs| && h.elementIdx < |objs[h.numaNode]|
  }

  /** `GetSimObjectWithSoHandle`: the object in the slot a handle names. */
  function At<T>(objs: seq<seq<SimObject<T>>>, h: SoHandle): (so: SimObject<T>)
    requires InRange(objs, h)
    ensures so in objs[h.numaNode]
  {
    objs[h.numaNode][h.elementIdx]
  }

  predicate HandlesInRange<T>(s: Store<T>)
  {
    forall u :: u in s.uidSohMap ==> InRange(s.simObjects, s.uidSohMap[u])
  }

  // ----- The store invariant ------------------------------------------------

  /** Map and storage agree exactly: every mapped uid names a slot holding an
      object with that uid, and every stored object's uid is mapped to the
      slot that holds it. */
  ghost predicate Valid<T>(s: Store<T>)
  {
    && Addressable(s.simObjects)
    && HandlesInRange(s)
    && (forall u :: u in s.uidSohMap ==> At(s.simObjects, s.uidSohMap[u]).uid == u)
    && (forall n, i :: 0 <= n < |s.simObjects| && 0 <= i < |s.simObjects[n]| ==>
          && s.simObjects[n][i].uid in s.uidSohMap
          && s.uidSohMap[s.simObjects[n][i].uid] == SoHandle(n, i))
  }

  /** A consequence of the invariant: no uid is stored twice. */
  lemma ValidUidsUnique<T>(s: Store<T>, n: nat, i: nat, m: nat, j: nat)
    requires Valid(s)
    requires n < |s.simObjects| && i < |s.simObjects[n]|
    requires m < |s.simObjects| && j < |s.simObjects[m]|
    requires s.simObjects[n][i].uid == s.simObjects[m][j].uid
    ensures n == m && i == j
  {
  }

  // ----- Construction -----------------------------------------------------

  /** The default constructor: one empty vector per configured NUMA node and
      no diffusion grids. */
  function Empty<T>(numaNodes: nat): (s: Store<T>)
    requires numaNodes <= UINT16_LIMIT
    ensures Valid(s)
    ensures |s.simObjects| == numaNodes && s.uidSohMap == map[]
    ensures forall n :: 0 <= n < numaNodes ==> s.simObjects[n] == []
  {
    Store(map[], seq(numaNodes, _ => []), map[])
  }

  // ----- Queries -----------------------------------------------------------

  /** `Contains`: the uid is a key of the identity map. Under the store
      invariant that is the same as some slot holding an object with that
      uid. */
  predicate Contains<T>(s: Store<T>, uid: Uid)
  {
    uid in s.uidSohMap
  }

  /** `Contains` answers exactly whether the uid is stored in some slot. */
  lemma ContainsIffStored<T>(s: Store<T>, uid: Uid)
    requires Valid(s)
    ensures Contains(s, uid) <==>
      exists n, i :: 0 <= n < |s.simObjects| && 0 <= i < |s.simObjects[n]| && s.simObjects[n][i].uid == uid
  {
    if Contains(s, uid) {
      var h := s.uidSohMap[uid];
      assert s.simObjects[h.numaNode][h.elementIdx].uid == uid;
    }
  }

  /** `GetSimObject`: the caller must know that the uid is stored (the
      C++ function asserts it). */
  function GetSimObject<T>(s: Store<T>, uid: Uid): (so: SimObject<T>)
    requires HandlesInRange(s) && Contains(s, uid)
    ensures Valid(s) ==> so.uid == uid
    ensures so in s.simObjects[s.uidSohMap[uid].numaNode]
  {
    At(s.simObjects, s.uidSohMap[uid])
  }

  /** `GetSoHandle` reads the map with `operator[]`, which inserts a
      default-constructed handle when the uid is absent. It returns the
      handle and the store as the call leaves it. */
  function GetSoHandle<T>(s: Store<T>, uid: Uid): (r: (SoHandle, Store<T>))
    ensures Contains(s, uid) ==> r.0 == s.uidSohMap[uid] && r.1 == s
    ensures !Contains(s, uid) ==> r.0 == Default() && r.1.uidSohMap == s.uidSohMap[uid := Default()]
    ensures r.1.simObjects == s.simObjects && r.1.diffusionGrids == s.diffusionGrids
  {
    if uid in s.uidSohMap then (s.uidSohMap[uid], s)
    else (Default(), s.(uidSohMap := s.uidSohMap[uid := Default()]))
  }

  /** Asking for the handle of a uid that is not stored corrupts the store:
      the inserted default handle names no slot holding that uid. */
  lemma GetSoHandleOfAbsentUidBreaksInvariant<T>(s: Store<T>, uid: Uid)
    requires Valid(s) && !Contains(s, uid)
    ensures !Valid(GetSoHandle(s, uid).1)
  {
    var s' := GetSoHandle(s, uid).1;
    var h := Default();
    assert uid in s'.uidSohMap && s'.uidSohMap[uid] == h;
    if InRange(s'.simObjects, h) {
      var other := At(s.simObjects, h);
      assert other.uid in s.uidSohMap;
      assert At(s'.simObjects, s'.uidSohMap[uid]).uid != uid;
    }
  }

  /** The total number of stored objects, node by node. */
  function SumSizes<T>(objs: seq<seq<SimObject<T>>>): nat
  {
    if |objs| == 0 then 0 else SumSizes(objs[..|objs| - 1]) + |objs[|objs| - 1]|
  }

  /** `GetNumSimObjects(numa_node)`: -1 asks for all nodes. */
  method GetNumSimObjects<T>(s: Store<T>, numaNode: int) returns (count: nat)
    requires numaNode == -1 || 0 <= numaNode < |s.simObjects|
    ensures numaNode != -1 ==> count == |s.simObjects[numaNode]|
    ensures numaNode == -1 ==> count == SumSizes(s.simObjects)
    ensures numaNode == -1 && Valid(s) ==> count == |s.uidSohMap|
  {
    if numaNode == -1 {
      count := 0;
      var n := 0;
      while n < |s.simObjects|
        invariant 0 <= n <= |s.simObjects|
        invariant count == SumSizes(s.simObjects[..n])
      {
        assert s.simObjects[..n + 1][..n] == s.simObjects[..n];
        count := count + |s.simObjects[n]|;
        n := n + 1;
      }
      assert s.simObjects[..n] == s.simObjects;
      if Valid(s) {
        CountMatchesIdentityMap(s);
      }
    } else {
      count := |s.simObjects[numaNode]|;
    }
  }

  // ----- Insertion ---------------------------------------------------------

  /** `push_back(so, numa_node)`: appends to the node and maps the object's
      uid to the new last slot. */
  function PushBack<T>(s: Store<T>, so: SimObject<T>, numaNode: uint16): (r: Store<T>)
    requires numaNode < |s.simObjects|
    requires |s.simObjects[numaNode]| < UINT32_LIMIT
    ensures |r.simObjects| == |s.simObjects|
    ensures r.simObjects[numaNode] == s.simObjects[numaNode] + [so]
    ensures forall n :: 0 <= n < |s.simObjects| && n != numaNode ==> r.simObjects[n] == s.simObjects[n]
    ensures r.uidSohMap == s.uidSohMap[so.uid := SoHandle(numaNode, |s.simObjects[numaNode]|)]
    ensures r.diffusionGrids == s.diffusionGrids
  {
    var node := s.simObjects[numaNode];
    s.(simObjects := s.simObjects[numaNode := node + [so]],
       uidSohMap := s.uidSohMap[so.uid := SoHandle(numaNode, |node|)])
  }

  /** With a fresh uid, push_back keeps map and storage in agreement, and
      the new object is found through its uid. */
  lemma PushBackPreservesValid<T>(s: Store<T>, so: SimObject<T>, numaNode: uint16)
    requires Valid(s) && !Contains(s, so.uid)
    requires numaNode < |s.simObjects| && |s.simObjects[numaNode]| < UINT32_LIMIT
    ensures Valid(PushBack(s, so, numaNode))
    ensures GetSimObject(PushBack(s, so, numaNode), so.uid) == so
  {
    var r := PushBack(s, so, numaNode);
    forall n, i | 0 <= n < |r.simObjects| && 0 <= i < |r.simObjects[n]|
      ensures r.simObjects[n][i].uid in r.uidSohMap
      ensures r.uidSohMap[r.simObjects[n][i].uid] == SoHandle(n, i)
    {
      if n == numaNode && i == |s.simObjects[numaNode]| {
      } else {
        assert r.simObjects[n][i] == s.simObjects[n][i];
      }
    }
  }

  // ----- Removal ------------------------------------------------------------

  /** `Remove(uid)`: erases the uid from the map; if its slot is the last of
      its node the slot is popped, otherwise the node's last object moves
      into the freed slot and its uid is re-pointed there. A uid that is not
      mapped is ignored. */
  function Remove<T>(s: Store<T>, uid: Uid): (r: Store<T>)
    requires HandlesInRange(s)
    ensures |r.simObjects| == |s.simObjects| && r.diffusionGrids == s.diffusionGrids
    ensures !Contains(s, uid) ==> r == s
    ensures Contains(s, uid) ==>
      var h := s.uidSohMap[uid];
      var node := s.simObjects[h.numaNode];
      && |r.simObjects[h.numaNode]| == |node| - 1
      && (forall n :: 0 <= n < |s.simObjects| && n != h.numaNode ==> r.simObjects[n] == s.simObjects[n])
      && (forall i :: 0 <= i < |node| - 1 && i != h.elementIdx ==> r.simObjects[h.numaNode][i] == node[i])
      && (h.elementIdx == |node| - 1 ==> r.uidSohMap == s.uidSohMap - {uid})
      && (h.elementIdx < |node| - 1 ==>
            && r.simObjects[h.numaNode][h.elementIdx] == node[|node| - 1]
            && r.uidSohMap == (s.uidSohMap - {uid})[node[|node| - 1].uid := h])
  {
    if uid !in s.uidSohMap then s
    else
      var h := s.uidSohMap[uid];
      var m := s.uidSohMap - {uid};
      var node := s.simObjects[h.numaNode];
      var last := |node| - 1;
      if h.elementIdx == last then
        s.(uidSohMap := m, simObjects := s.simObjects[h.numaNode := node[..last]])
      else
        var reordered := node[last];
        s.(uidSohMap := m[reordered.uid := h],
           simObjects := s.simObjects[h.numaNode := node[h.elementIdx := reordered][..last]])
  }

  /** Removal keeps map and storage in agreement and the uid is gone. */
  lemma RemovePreservesValid<T>(s: Store<T>, uid: Uid)
    requires Valid(s)
    ensures Valid(Remove(s, uid))
    ensures !Contains(Remove(s, uid), uid)
  {
    if uid in s.uidSohMap {
      RemoveMapSide(s, uid);
      RemoveStorageSide(s, uid);
    }
  }

  /** After a removal every mapped uid still names a slot holding it. */
  lemma RemoveMapSide<T>(s: Store<T>, uid: Uid)
    requires Valid(s) && uid in s.uidSohMap
    ensures HandlesInRange(Remove(s, uid))
    ensures forall u :: u in Remove(s, uid).uidSohMap ==>
      At(Remove(s, uid).simObjects, Remove(s, uid).uidSohMap[u]).uid == u
  {
    var r := Remove(s, uid);
    var h := s.uidSohMap[uid];
    var node := s.simObjects[h.numaNode];
    var last := |node| - 1;
    var lastObj := node[last];
    assert s.uidSohMap[lastObj.uid] == SoHandle(h.numaNode, last);
    forall u | u in r.uidSohMap
      ensures InRange(r.simObjects, r.uidSohMap[u])
      ensures At(r.simObjects, r.uidSohMap[u]).uid == u
    {
      if h.elementIdx < last && u == lastObj.uid {
      } else {
        var hu := s.uidSohMap[u];
        assert At(s.simObjects, hu).uid == u;
        assert hu != h;
        assert hu != SoHandle(h.numaNode, last);
        assert r.uidSohMap[u] == hu;
      }
    }
  }

  /** After a removal every stored object is mapped to its own slot. */
  lemma RemoveStorageSide<T>(s: Store<T>, uid: Uid)
    requires Valid(s) && uid in s.uidSohMap
    ensures forall n, i :: 0 <= n < |Remove(s, uid).simObjects| && 0 <= i < |Remove(s, uid).simObjects[n]| ==>
      && Remove(s, uid).simObjects[n][i].uid in Remove(s, uid).uidSohMap
      && Remove(s, uid).uidSohMap[Remove(s, uid).simObjects[n][i].uid] == SoHandle(n, i)
  {
    var r := Remove(s, uid);
    var h := s.uidSohMap[uid];
    forall n, i | 0 <= n < |r.simObjects| && 0 <= i < |r.simObjects[n]|
      ensures r.simObjects[n][i].uid in r.uidSohMap
      ensures r.uidSohMap[r.simObjects[n][i].uid] == SoHandle(n, i)
    {
      if n == h.numaNode && i == h.elementIdx {
      } else {
        var o := s.simObjects[n][i];
        assert r.simObjects[n][i] == o;
        assert s.uidSohMap[o.uid] == SoHandle(n, i);
      }
    }
  }

  /** Identity stability: removing one object does not change what any
      other stored uid resolves to, although its handle may change. */
  lemma RemoveKeepsOtherObjects<T>(s: Store<T>, uid: Uid, other: Uid)
    requires Valid(s) && Contains(s, other) && other != uid
    ensures Contains(Remove(s, uid), other)
    ensures Valid(Remove(s, uid))
    ensures GetSimObject(Remove(s, uid), other) == GetSimObject(s, other)
  {
    RemovePreservesValid(s, uid);
    if uid in s.uidSohMap {
      var r := Remove(s, uid);
      var h := s.uidSohMap[uid];
      var node := s.simObjects[h.numaNode];
      var last := |node| - 1;
      assert s.uidSohMap[node[last].uid] == SoHandle(h.numaNode, last);
      var ho := s.uidSohMap[other];
      assert At(s.simObjects, ho).uid == other;
      if h.elementIdx < last && other == node[last].uid {
        assert GetSimObject(r, other) == node[last];
      } else {
        assert ho != h && ho != SoHandle(h.numaNode, last);
        assert GetSimObject(r, other) == At(s.simObjects, ho);
      }
    }
  }

  /** push_back does not change what already stored uids resolve to. */
  lemma PushBackKeepsOtherObjects<T>(s: Store<T>, so: SimObject<T>, numaNode: uint16, other: Uid)
    requires Valid(s) && !Contains(s, so.uid) && Contains(s, other)
    requires numaNode < |s.simObjects| && |s.simObjects[numaNode]| < UINT32_LIMIT
    ensures Contains(PushBack(s, so, numaNode), other)
    ensures GetSimObject(PushBack(s, so, numaNode), other) == GetSimObject(s, other)
  {
    var h := s.uidSohMap[other];
    assert InRange(s.simObjects, h);
    assert PushBack(s, so, numaNode).simObjects[h.numaNode][h.elementIdx] == s.simObjects[h.numaNode][h.elementIdx];
  }

  // ----- Counting -----------------------------------------------------------

  lemma SumSizesUpdate<T>(objs: seq<seq<SimObject<T>>>, n: nat, node: seq<SimObject<T>>)
    requires n < |objs|
    ensures SumSizes(objs[n := node]) == SumSizes(objs) - |objs[n]| + |node|
    decreases |objs|
  {
    var k := |objs| - 1;
    if n < k {
      assert objs[n := node][..k] == objs[..k][n := node];
      SumSizesUpdate(objs[..k], n, node);
    } else {
      assert objs[n := node][..k] == objs[..k];
    }
  }

  lemma SumSizesOfEmptyNodes<T>(objs: seq<seq<SimObject<T>>>)
    requires forall n :: 0 <= n < |objs| ==> objs[n] == []
    ensures SumSizes(objs) == 0
  {
    if |objs| > 0 {
      SumSizesOfEmptyNodes(objs[..|objs| - 1]);
    }
  }

  /** Removing a stored uid takes one object out of the storage and one
      key out of the map. */
  lemma RemoveShrinksBothByOne<T>(s: Store<T>, uid: Uid)
    requires Valid(s) && Contains(s, uid)
    ensures SumSizes(Remove(s, uid).simObjects) == SumSizes(s.simObjects) - 1
    ensures |Remove(s, uid).uidSohMap| == |s.uidSohMap| - 1
  {
    var r := Remove(s, uid);
    var h := s.uidSohMap[uid];
    var node := s.simObjects[h.numaNode];
    var last := |node| - 1;
    SumSizesUpdate(s.simObjects, h.numaNode, r.simObjects[h.numaNode]);
    assert r.simObjects == s.simObjects[h.numaNode := r.simObjects[h.numaNode]];
    if h.elementIdx < last {
      assert s.uidSohMap[node[last].uid] == SoHandle(h.numaNode, last);
      assert node[last].uid in s.uidSohMap - {uid};
    }
    assert r.uidSohMap.Keys == s.uidSohMap.Keys - {uid};
  }

  lemma FirstSlotIsMapped<T>(s: Store<T>, n: nat)
    requires Valid(s) && n < |s.simObjects| && |s.simObjects[n]| > 0
    ensures s.uidSohMap != map[]
  {
    assert s.simObjects[n][0].uid in s.uidSohMap;
  }

  /** With no mapped uid, a valid store holds no object. */
  lemma EmptyMapMeansEmptyStorage<T>(s: Store<T>)
    requires Valid(s) && s.uidSohMap == map[]
    ensures SumSizes(s.simObjects) == 0
  {
    forall n | 0 <= n < |s.simObjects|
      ensures s.simObjects[n] == []
    {
      if |s.simObjects[n]| > 0 {
        FirstSlotIsMapped(s, n);
        assert false;
      }
    }
    SumSizesOfEmptyNodes(s.simObjects);
  }

  /** The number of stored objects equals the number of mapped uids. */
  lemma {:induction false} CountMatchesIdentityMap<T>(s: Store<T>)
    requires Valid(s)
    ensures SumSizes(s.simObjects) == |s.uidSohMap|
    decreases |s.uidSohMap|
  {
    if s.uidSohMap == map[] {
      EmptyMapMeansEmptyStorage(s);
    } else {
      var uid :| uid in s.uidSohMap;
      RemovePreservesValid(s, uid);
      RemoveShrinksBothByOne(s, uid);
      CountMatchesIdentityMap(Remove(s, uid));
    }
  }

  // ----- Clearing -----------------------------------------------------------

  /** `Clear`: empties the map and every node, keeping the node count and
      the diffusion grids. */
  function Clear<T>(s: Store<T>): (r: Store<T>)
    requires Addressable(s.simObjects)
    ensures Valid(r)
    ensures r.uidSohMap == map[] && |r.simObjects| == |s.simObjects|
    ensures SumSizes(r.simObjects) == 0
    ensures forall n :: 0 <= n < |r.simObjects| ==> |r.simObjects[n]| == 0
    ensures r.diffusionGrids == s.diffusionGrids
  {
    var r := s.(uidSohMap := map[], simObjects := seq(|s.simObjects|, _ => []));
    SumSizesOfEmptyNodes(r.simObjects);
    r
  }

  // ----- Visiting -----------------------------------------------------------

  /** The number of objects in the nodes before node `n`. */
  function Offset<T>(objs: seq<seq<SimObject<T>>>, n: nat): nat
    requires n <= |objs|
  {
    SumSizes(objs[..n])
  }

  lemma OffsetStep<T>(objs: seq<seq<SimObject<T>>>, n: nat)
    requires n < |objs|
    ensures Offset(objs, n + 1) == Offset(objs, n) + |objs[n]|
  {
    assert objs[..n + 1][..n] == objs[..n];
  }

  lemma OffsetMonotone<T>(objs: seq<seq<SimObject<T>>>, m: nat, n: nat)
    requires m < n <= |objs|
    ensures Offset(objs, m) + |objs[m]| <= Offset(objs, n)
    decreases n - m
  {
    OffsetStep(objs, m);
    if m + 1 < n {
      OffsetMonotone(objs, m + 1, n);
      OffsetStep(objs, m + 1);
    }
  }

  /** Handles of successive calls strictly increase. */
  predicate HandlesIncrease<T>(calls: seq<(SimObject<T>, SoHandle)>)
  {
    forall k, l :: 0 <= k < l < |calls| ==> Less(calls[k].1, calls[l].1)
  }

  /** Every call pairs an object with the handle of its slot, on a node
      before `bound`. */
  ghost predicate CallsResolve<T>(objs: seq<seq<SimObject<T>>>, calls: seq<(SimObject<T>, SoHandle)>, bound: nat)
  {
    forall k :: 0 <= k < |calls| ==>
      calls[k].1.numaNode < bound && InRange(objs, calls[k].1) && At(objs, calls[k].1) == calls[k].0
  }

  /** The inner loop of `ApplyOnAllElements`: the calls for node `n`. */
  method VisitNode<T>(objs: seq<seq<SimObject<T>>>, n: nat, calls0: seq<(SimObject<T>, SoHandle)>)
    returns (calls: seq<(SimObject<T>, SoHandle)>)
    requires Addressable(objs) && n < |objs|
    requires HandlesIncrease(calls0) && CallsResolve(objs, calls0, n)
    ensures |calls| == |calls0| + |objs[n]| && calls[..|calls0|] == calls0
    ensures forall j :: 0 <= j < |objs[n]| ==> calls[|calls0| + j] == (objs[n][j], SoHandle(n, j))
    ensures HandlesIncrease(calls) && CallsResolve(objs, calls, n + 1)
  {
    calls := calls0;
    var i := 0;
    while i < |objs[n]|
      invariant 0 <= i <= |objs[n]|
      invariant |calls| == |calls0| + i && calls[..|calls0|] == calls0
      invariant forall j :: 0 <= j < i ==> calls[|calls0| + j] == (objs[n][j], SoHandle(n, j))
      invariant HandlesIncrease(calls) && CallsResolve(objs, calls, n + 1)
      invariant forall k :: 0 <= k < |calls| ==>
        calls[k].1.numaNode < n || (calls[k].1.numaNode == n && calls[k].1.elementIdx < i)
    {
      calls := calls + [(objs[n][i], SoHandle(n, i))];
      i := i + 1;
    }
  }

  /** The object in slot `i` of node `n` is visited, with its handle, at
      position `Offset(objs, n) + i` of the calls. */
  ghost predicate CalledAt<T>(objs: seq<seq<SimObject<T>>>, calls: seq<(SimObject<T>, SoHandle)>, n: nat, i: nat)
    requires Addressable(objs) && n < |objs| && i < |objs[n]|
  {
    Offset(objs, n) + i < |calls| && calls[Offset(objs, n) + i] == (objs[n][i], SoHandle(n, i))
  }

  /** `ApplyOnAllElements(fn(so, handle))`: the calls in the order they are
      made. Every stored object is visited exactly once, paired with the
      handle of its slot, node by node and in index order. */
  method ApplyOnAllElements<T>(s: Store<T>) returns (calls: seq<(SimObject<T>, SoHandle)>)
    requires Addressable(s.simObjects)
    ensures |calls| == SumSizes(s.simObjects)
    ensures forall n, i :: 0 <= n < |s.simObjects| && 0 <= i < |s.simObjects[n]| ==>
      CalledAt(s.simObjects, calls, n, i)
    ensures HandlesIncrease(calls)
    ensures CallsResolve(s.simObjects, calls, |s.simObjects|)
  {
    var objs := s.simObjects;
    calls := [];
    var n := 0;
    while n < |objs|
      invariant 0 <= n <= |objs|
      invariant |calls| == Offset(objs, n)
      invariant forall m, i :: 0 <= m < n && 0 <= i < |objs[m]| ==> CalledAt(objs, calls, m, i)
      invariant HandlesIncrease(calls) && CallsResolve(objs, calls, n)
    {
      ghost var before := calls;
      calls := VisitNode(objs, n, calls);
      OffsetStep(objs, n);
      n := n + 1;
      forall m, j | 0 <= m < n && 0 <= j < |objs[m]|
        ensures CalledAt(objs, calls, m, j)
      {
        if m < n - 1 {
          OffsetMonotone(objs, m, n - 1);
          assert CalledAt(objs, before, m, j);
          assert calls[Offset(objs, m) + j] == before[Offset(objs, m) + j];
        } else {
          assert Offset(objs, m) == |before|;
          assert calls[|before| + j] == (objs[m][j], SoHandle(m, j));
        }
      }
    }
    assert objs[..n] == objs;
  }

  // ----- Restoring ------------------------------------------------------------

  /** The move assignment used when a simulation is restored: a store with a
      different number of NUMA nodes is fatal; otherwise everything is taken
      from the restored store. */
  function MoveAssign<T>(s: Store<T>, restored: Store<T>): (r: Result<Store<T>>)
    ensures r.Success? <==> |s.simObjects| == |restored.simObjects|
    ensures r.Success? ==> r.value == restored
    ensures r.Success? && Valid(restored) ==> Valid(r.value)
  {
    if |s.simObjects| != |restored.simObjects| then
      Failure(Fatal("Restored ResourceManager has different number of NUMA nodes."))
    else
      Success(Store(restored.uidSohMap, restored.simObjects, restored.diffusionGrids))
  }
}
