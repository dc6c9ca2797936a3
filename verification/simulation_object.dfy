/** The data every simulation object keeps in the shared, process-wide
    storage: its grid box index, its element index in the resource manager
    and its list of biology modules. An object holds only its position in
    that storage (`SimulationObjectData::idx`). The storage is passed in and
    returned explicitly instead of being static. */
module SimulationObjects {
  import opened BoundedInts
  import ResourceManager
  import SoHandles

  /** The three parallel storage vectors; `M` stands for a biology-module
      pointer. */
  datatype SoStorage<M> = SoStorage(boxIdx: seq<uint32>, elementIdx: seq<uint32>, biologyModules: seq<seq<M>>)

  /** `SimulationObjectData`: the position of one object's entry. */
  datatype SoData = SoData(idx: nat)

  /** The three vectors grow together. */
  predicate Valid<M>(s: SoStorage<M>)
  {
    |s.elementIdx| == |s.boxIdx| && |s.biologyModules| == |s.boxIdx|
  }

  /** The entry of `d` exists. */
  predicate Has<M>(s: SoStorage<M>, d: SoData)
  {
    Valid(s) && d.idx < |s.boxIdx|
  }

  /** The constructor: the new entry is placed at the end of all three
      vectors, with box index 0, element index 0 and no modules. */
  function NewSoData<M>(s: SoStorage<M>): (r: (SoData, SoStorage<M>))
    requires Valid(s)
    ensures r.0.idx == |s.boxIdx| && Has(r.1, r.0)
    ensures |r.1.boxIdx| == |s.boxIdx| + 1
    ensures GetBoxIdx(r.1, r.0) == 0 && GetElementIdx(r.1, r.0) == 0 && BiologyModules(r.1, r.0) == []
    ensures Valid(r.1) && forall k :: 0 <= k < |s.boxIdx| ==> SameEntry(s, r.1, k)
  {
    (SoData(|s.boxIdx|), SoStorage(s.boxIdx + [0], s.elementIdx + [0], s.biologyModules + [[]]))
  }

  /** Entry `k` is the same in both storages. */
  ghost predicate SameEntry<M>(s: SoStorage<M>, t: SoStorage<M>, k: nat)
    requires Valid(s) && Valid(t) && k < |s.boxIdx| && k < |t.boxIdx|
  {
    && t.boxIdx[k] == s.boxIdx[k]
    && t.elementIdx[k] == s.elementIdx[k]
    && t.biologyModules[k] == s.biologyModules[k]
  }

  /** Every entry other than that of `d` is unchanged. */
  ghost predicate OthersUnchanged<M>(s: SoStorage<M>, t: SoStorage<M>, d: SoData)
    requires Valid(s) && Valid(t)
  {
    && |t.boxIdx| == |s.boxIdx|
    && forall k :: 0 <= k < |s.boxIdx| && k != d.idx ==> SameEntry(s, t, k)
  }

  /** `GetElementIdx()`, and also `GetSoHandle()`, which returns the same
      number. */
  function GetElementIdx<M>(s: SoStorage<M>, d: SoData): uint32
    requires Has(s, d)
  {
    s.elementIdx[d.idx]
  }

  /** `SetElementIdx(e)`. */
  function SetElementIdx<M>(s: SoStorage<M>, d: SoData, e: uint32): (r: SoStorage<M>)
    requires Has(s, d)
    ensures Has(r, d) && OthersUnchanged(s, r, d)
    ensures GetElementIdx(r, d) == e
    ensures GetBoxIdx(r, d) == GetBoxIdx(s, d) && BiologyModules(r, d) == BiologyModules(s, d)
  {
    s.(elementIdx := s.elementIdx[d.idx := e])
  }

  /** `GetBoxIdx()`. */
  function GetBoxIdx<M>(s: SoStorage<M>, d: SoData): uint32
    requires Has(s, d)
  {
    s.boxIdx[d.idx]
  }

  /** `SetBoxIdx(b)`. */
  function SetBoxIdx<M>(s: SoStorage<M>, d: SoData, b: uint32): (r: SoStorage<M>)
    requires Has(s, d)
    ensures Has(r, d) && OthersUnchanged(s, r, d)
    ensures GetBoxIdx(r, d) == b
    ensures GetElementIdx(r, d) == GetElementIdx(s, d) && BiologyModules(r, d) == BiologyModules(s, d)
  {
    s.(boxIdx := s.boxIdx[d.idx := b])
  }

  function BiologyModules<M>(s: SoStorage<M>, d: SoData): seq<M>
    requires Has(s, d)
  {
    s.biologyModules[d.idx]
  }

  /** `AddBiologyModule(m)`: appended at the end of this object's list. */
  function AddBiologyModule<M>(s: SoStorage<M>, d: SoData, m: M): (r: SoStorage<M>)
    requires Has(s, d)
    ensures Has(r, d) && OthersUnchanged(s, r, d)
    ensures BiologyModules(r, d) == BiologyModules(s, d) + [m]
    ensures GetBoxIdx(r, d) == GetBoxIdx(s, d) && GetElementIdx(r, d) == GetElementIdx(s, d)
  {
    s.(biologyModules := s.biologyModules[d.idx := s.biologyModules[d.idx] + [m]])
  }

  /** `RunBiologyModules()`: the result is the sequence of modules whose
      `Run` is called, in call order. What a module does when it runs is
      not modelled. */
  method RunBiologyModules<M>(s: SoStorage<M>, d: SoData) returns (ran: seq<M>)
    requires Has(s, d)
    ensures |ran| == |BiologyModules(s, d)|
    ensures forall k :: 0 <= k < |ran| ==> ran[k] == BiologyModules(s, d)[k]
  {
    var modules := s.biologyModules[d.idx];
    ran := [];
    var i := 0;
    while i < |modules|
      invariant 0 <= i <= |modules| && |ran| == i
      invariant forall k :: 0 <= k < i ==> ran[k] == modules[k]
    {
      ran := ran + [modules[i]];
      i := i + 1;
    }
  }

  /** Adding modules one after another. */
  function AddAll<M>(s: SoStorage<M>, d: SoData, ms: seq<M>): (r: SoStorage<M>)
    requires Has(s, d)
    ensures Has(r, d) && OthersUnchanged(s, r, d)
    ensures GetBoxIdx(r, d) == GetBoxIdx(s, d) && GetElementIdx(r, d) == GetElementIdx(s, d)
    decreases |ms|
  {
    if |ms| == 0 then s
    else
      var added := AddBiologyModule(s, d, ms[0]);
      var r := AddAll(added, d, ms[1..]);
      assert forall k :: 0 <= k < |s.boxIdx| && k != d.idx ==> SameEntry(s, r, k) by {
        forall k | 0 <= k < |s.boxIdx| && k != d.idx
          ensures SameEntry(s, r, k)
        {
          assert SameEntry(s, added, k) && SameEntry(added, r, k);
        }
      }
      r
  }

  /** Modules added one after another are run in the order they were added,
      after the ones already present. */
  lemma {:induction false} AddedModulesRunInOrder<M>(s: SoStorage<M>, d: SoData, ms: seq<M>)
    requires Has(s, d)
    ensures BiologyModules(AddAll(s, d, ms), d) == BiologyModules(s, d) + ms
    decreases |ms|
  {
    if |ms| > 0 {
      AddedModulesRunInOrder(AddBiologyModule(s, d, ms[0]), d, ms[1..]);
      assert [ms[0]] + ms[1..] == ms;
    }
  }

  /** A new object that is given modules `ms` runs exactly `ms`, in order. */
  method NewObjectRunsAddedModules<M>(s: SoStorage<M>, ms: seq<M>) returns (d: SoData, t: SoStorage<M>, ran: seq<M>)
    requires Valid(s)
    ensures d.idx == |s.boxIdx| && Has(t, d)
    ensures ran == ms
  {
    var r := NewSoData(s);
    d := r.0;
    t := AddAll(r.1, d, ms);
    AddedModulesRunInOrder(r.1, d, ms);
    ran := RunBiologyModules(t, d);
  }

  // ----- References ----------------------------------------------------------

  /** `UpdateReference(reference, updates)` on the element index of the
      reference: replaced by `updates[old]` when the old index is a key,
      left as it is otherwise. */
  function UpdateReference(ref: uint32, updates: map<uint32, uint32>): (r: uint32)
    ensures ref in updates ==> r == updates[ref]
    ensures ref !in updates ==> r == ref
  {
    if ref in updates then updates[ref] else ref
  }

  /** The update a removal from the resource manager produces: the last
      slot of the node moves into the freed slot. Applied to the element
      index of any other object on that node, `UpdateReference` yields the
      index the object has after the removal. */
  lemma UpdateReferenceFollowsRemove<T>(s: ResourceManager.Store<T>, uid: ResourceManager.Uid, other: ResourceManager.Uid)
    requires ResourceManager.Valid(s)
    requires ResourceManager.Contains(s, uid) && ResourceManager.Contains(s, other) && other != uid
    requires s.uidSohMap[other].numaNode == s.uidSohMap[uid].numaNode
    ensures var h := s.uidSohMap[uid];
      var last := |s.simObjects[h.numaNode]| - 1;
      0 <= last < UINT32_LIMIT &&
      ResourceManager.Contains(ResourceManager.Remove(s, uid), other) &&
      ResourceManager.Remove(s, uid).uidSohMap[other] ==
        SoHandles.SoHandle(h.numaNode, UpdateReference(s.uidSohMap[other].elementIdx, map[last := h.elementIdx]))
  {
    var h := s.uidSohMap[uid];
    var ho := s.uidSohMap[other];
    var node := s.simObjects[h.numaNode];
    var last := |node| - 1;
    var r := ResourceManager.Remove(s, uid);
    assert node[h.elementIdx].uid == uid;
    assert node[ho.elementIdx].uid == other;
    ResourceManager.RemoveKeepsOtherObjects(s, uid, other);
    if ho.elementIdx == last {
      assert h.elementIdx != last;
      assert r.uidSohMap[other] == h;
    } else {
      assert r.uidSohMap[other] == ho;
    }
  }
}
