/** The spherical cell: its data in the shared, process-wide cell storage
    (position, tractor force, diameter, volume, adherence, density), the
    accessors, and the geometry of cell division. Doubles are modelled as
    exact reals. The storage is passed in and returned explicitly instead
    of being static. */
module Cells {
  import SimulationObjects

  datatype Vec3 = Vec3(x: real, y: real, z: real)

  const Origin: Vec3 := Vec3(0.0, 0.0, 0.0)

  function Plus(a: Vec3, b: Vec3): Vec3
  {
    Vec3(a.x + b.x, a.y + b.y, a.z + b.z)
  }

  function Minus(a: Vec3, b: Vec3): Vec3
  {
    Vec3(a.x - b.x, a.y - b.y, a.z - b.z)
  }

  function Scale(k: real, a: Vec3): Vec3
  {
    Vec3(k * a.x, k * a.y, k * a.z)
  }

  // ----- The cell storage ----------------------------------------------------

  /** The six parallel storage vectors. */
  datatype CellStorage = CellStorage(
    position: seq<Vec3>,
    tractorForce: seq<Vec3>,
    diameter: seq<real>,
    volume: seq<real>,
    adherence: seq<real>,
    density: seq<real>)

  /** One entry of the storage, gathered. */
  datatype Fields = Fields(
    position: Vec3,
    tractorForce: Vec3,
    diameter: real,
    volume: real,
    adherence: real,
    density: real)

  /** `CellData`: the position of one cell's entry. */
  datatype CellData = CellData(idx: nat)

  /** The six vectors grow together. */
  predicate Valid(s: CellStorage)
  {
    var n := |s.position|;
    |s.tractorForce| == n && |s.diameter| == n && |s.volume| == n && |s.adherence| == n && |s.density| == n
  }

  predicate Has(s: CellStorage, d: CellData)
  {
    Valid(s) && d.idx < |s.position|
  }

  function FieldsAt(s: CellStorage, k: nat): Fields
    requires Valid(s) && k < |s.position|
  {
    Fields(s.position[k], s.tractorForce[k], s.diameter[k], s.volume[k], s.adherence[k], s.density[k])
  }

  /** Every entry below `bound` other than entry `except` is the same in
      both storages. */
  predicate OthersUnchanged(s: CellStorage, t: CellStorage, bound: nat, except: nat)
    requires Valid(s) && Valid(t) && bound <= |s.position| && bound <= |t.position|
  {
    forall k :: 0 <= k < bound && k != except ==> FieldsAt(t, k) == FieldsAt(s, k)
  }

  /** The constructor of `CellData`: the new entry is placed at the end of
      all six vectors, with every field zero. */
  function NewCellData(s: CellStorage): (r: (CellData, CellStorage))
    requires Valid(s)
    ensures r.0.idx == |s.position| && Has(r.1, r.0)
    ensures |r.1.position| == |s.position| + 1
    ensures FieldsAt(r.1, r.0.idx) == Fields(Origin, Origin, 0.0, 0.0, 0.0, 0.0)
    ensures OthersUnchanged(s, r.1, |s.position|, |s.position|)
  {
    (CellData(|s.position|),
     CellStorage(s.position + [Origin], s.tractorForce + [Origin], s.diameter + [0.0],
                 s.volume + [0.0], s.adherence + [0.0], s.density + [0.0]))
  }

  // ----- Accessors -----------------------------------------------------------

  /** `GetPosition()`: the position in the cell's entry. */
  function GetPosition(s: CellStorage, d: CellData): (p: Vec3)
    requires Has(s, d)
    ensures p == FieldsAt(s, d.idx).position
  {
    s.position[d.idx]
  }

  /** `SetPosition(p)`. */
  function SetPosition(s: CellStorage, d: CellData, p: Vec3): (r: CellStorage)
    requires Has(s, d)
    ensures Has(r, d) && |r.position| == |s.position| && OthersUnchanged(s, r, |s.position|, d.idx)
    ensures FieldsAt(r, d.idx) == FieldsAt(s, d.idx).(position := p)
  {
    s.(position := s.position[d.idx := p])
  }

  /** `GetVolume()`: the volume in the cell's entry. */
  function GetVolume(s: CellStorage, d: CellData): (v: real)
    requires Has(s, d)
    ensures v == FieldsAt(s, d.idx).volume
  {
    s.volume[d.idx]
  }

  /** `SetVolume(v)`: the volume, then the diameter from the volume.
      `diameterOf` stands for `UpdateDiameter`'s cube root of `6 v / pi`. */
  function SetVolume(s: CellStorage, d: CellData, v: real, diameterOf: real -> real): (r: CellStorage)
    requires Has(s, d)
    ensures Has(r, d) && |r.position| == |s.position| && OthersUnchanged(s, r, |s.position|, d.idx)
    ensures FieldsAt(r, d.idx) == FieldsAt(s, d.idx).(volume := v, diameter := diameterOf(v))
  {
    s.(volume := s.volume[d.idx := v], diameter := s.diameter[d.idx := diameterOf(v)])
  }

  /** A position or volume written through a setter is what the getter
      reads back, and reads of any other cell are unaffected. */
  lemma ReadBackAfterSet(s: CellStorage, d: CellData, other: CellData, p: Vec3, v: real, diameterOf: real -> real)
    requires Has(s, d) && Has(s, other) && other.idx != d.idx
    ensures GetPosition(SetPosition(s, d, p), d) == p
    ensures GetVolume(SetVolume(s, d, v, diameterOf), d) == v
    ensures GetPosition(SetPosition(s, d, p), other) == GetPosition(s, other)
    ensures GetVolume(SetVolume(s, d, v, diameterOf), other) == GetVolume(s, other)
  {
  }

  /** `GetDensity()`: the density in the cell's entry. */
  function GetDensity(s: CellStorage, d: CellData): (x: real)
    requires Has(s, d)
    ensures x == FieldsAt(s, d.idx).density
  {
    s.density[d.idx]
  }

  /** `SetDensity(x)`. */
  function SetDensity(s: CellStorage, d: CellData, x: real): (r: CellStorage)
    requires Has(s, d)
    ensures Has(r, d) && |r.position| == |s.position| && OthersUnchanged(s, r, |s.position|, d.idx)
    ensures FieldsAt(r, d.idx) == FieldsAt(s, d.idx).(density := x)
  {
    s.(density := s.density[d.idx := x])
  }

  /** `GetAdherence()`: the adherence in the cell's entry. */
  function GetAdherence(s: CellStorage, d: CellData): (x: real)
    requires Has(s, d)
    ensures x == FieldsAt(s, d.idx).adherence
  {
    s.adherence[d.idx]
  }

  /** `SetAdherence(x)`. */
  function SetAdherence(s: CellStorage, d: CellData, x: real): (r: CellStorage)
    requires Has(s, d)
    ensures Has(r, d) && |r.position| == |s.position| && OthersUnchanged(s, r, |s.position|, d.idx)
    ensures FieldsAt(r, d.idx) == FieldsAt(s, d.idx).(adherence := x)
  {
    s.(adherence := s.adherence[d.idx := x])
  }

  /** `GetMass()`: density times volume. */
  function GetMass(s: CellStorage, d: CellData): (m: real)
    requires Has(s, d)
    ensures GetVolume(s, d) != 0.0 ==> m / GetVolume(s, d) == GetDensity(s, d)
  {
    s.density[d.idx] * s.volume[d.idx]
  }

  /** `SetMass(m)`: the density becomes mass over volume; the volume is
      kept. */
  function SetMass(s: CellStorage, d: CellData, m: real): (r: CellStorage)
    requires Has(s, d) && GetVolume(s, d) != 0.0
    ensures Has(r, d) && |r.position| == |s.position| && OthersUnchanged(s, r, |s.position|, d.idx)
    ensures GetVolume(r, d) == GetVolume(s, d) && GetPosition(r, d) == GetPosition(s, d)
    ensures GetMass(r, d) == m
  {
    var v := s.volume[d.idx];
    var r := s.(density := s.density[d.idx := m / v]);
    assert GetMass(r, d) == (m / v) * v == m;
    r
  }

  /** Setting the mass a cell already has changes nothing. */
  lemma SetMassOfOwnMassIsIdentity(s: CellStorage, d: CellData)
    requires Has(s, d) && GetVolume(s, d) != 0.0
    ensures SetMass(s, d, GetMass(s, d)) == s
  {
    var v := s.volume[d.idx];
    var rho := s.density[d.idx];
    assert (rho * v) / v == rho;
    assert s.density[d.idx := rho] == s.density;
    assert SetMass(s, d, rho * v).density == s.density;
  }

  /** `UpdatePosition(delta)`: the position moves by `delta`, component by
      component. */
  function UpdatePosition(s: CellStorage, d: CellData, delta: Vec3): (r: CellStorage)
    requires Has(s, d)
    ensures Has(r, d) && |r.position| == |s.position| && OthersUnchanged(s, r, |s.position|, d.idx)
    ensures Minus(GetPosition(r, d), GetPosition(s, d)) == delta
    ensures FieldsAt(r, d.idx).(position := Origin) == FieldsAt(s, d.idx).(position := Origin)
  {
    var p := s.position[d.idx];
    s.(position := s.position[d.idx := Vec3(p.x + delta.x, p.y + delta.y, p.z + delta.z)])
  }

  /** Two moves add up, and moving back by the same amount restores the
      storage. */
  lemma UpdatePositionComposes(s: CellStorage, d: CellData, a: Vec3, b: Vec3)
    requires Has(s, d)
    ensures UpdatePosition(UpdatePosition(s, d, a), d, b) == UpdatePosition(s, d, Plus(a, b))
    ensures UpdatePosition(UpdatePosition(s, d, a), d, Scale(-1.0, a)) == s
  {
    var p := s.position[d.idx];
    var back := UpdatePosition(UpdatePosition(s, d, a), d, Scale(-1.0, a));
    assert back.position[d.idx] == p;
    assert back.position == s.position;
  }

  // ----- Cells -----------------------------------------------------------------

  /** Both storages a cell lives in: the simulation-object storage of its
      base class and the cell storage. `M` stands for a biology-module
      pointer. */
  datatype World<M> = World(objects: SimulationObjects.SoStorage<M>, cells: CellStorage)

  /** A `Cell`: the simulation-object data of the base class and the cell
      data. */
  datatype Cell = Cell(so: SimulationObjects.SoData, d: CellData)

  predicate Alive<M>(w: World<M>, c: Cell)
  {
    SimulationObjects.Has(w.objects, c.so) && Has(w.cells, c.d)
  }

  /** The fresh entries of a new cell: the base class's first, then the
      cell's own, before the constructor body runs. */
  function NewEntries<M>(w: World<M>): (r: (Cell, World<M>))
    requires SimulationObjects.Valid(w.objects) && Valid(w.cells)
    ensures Alive(r.1, r.0)
    ensures r.0.so.idx == |w.objects.boxIdx| && r.0.d.idx == |w.cells.position|
    ensures |r.1.objects.boxIdx| == |w.objects.boxIdx| + 1 && |r.1.cells.position| == |w.cells.position| + 1
    ensures forall k :: 0 <= k < |w.objects.boxIdx| ==> SimulationObjects.SameEntry(w.objects, r.1.objects, k)
    ensures OthersUnchanged(w.cells, r.1.cells, |w.cells.position|, |w.cells.position|)
    ensures FieldsAt(r.1.cells, r.0.d.idx) == Fields(Origin, Origin, 0.0, 0.0, 0.0, 0.0)
    ensures SimulationObjects.BiologyModules(r.1.objects, r.0.so) == []
    ensures SimulationObjects.GetElementIdx(r.1.objects, r.0.so) == 0
  {
    var (so, objects) := SimulationObjects.NewSoData(w.objects);
    var (d, cells) := NewCellData(w.cells);
    (Cell(so, d), World(objects, cells))
  }

  /** `Cell()`: a new entry whose density is 1; everything else is zero. */
  function NewCell<M>(w: World<M>): (r: (Cell, World<M>))
    requires SimulationObjects.Valid(w.objects) && Valid(w.cells)
    ensures Alive(r.1, r.0) && r.0.d.idx == |w.cells.position|
    ensures FieldsAt(r.1.cells, r.0.d.idx) == Fields(Origin, Origin, 0.0, 0.0, 0.0, 1.0)
    ensures OthersUnchanged(w.cells, r.1.cells, |w.cells.position|, |w.cells.position|)
  {
    var (c, w1) := NewEntries(w);
    (c, w1.(cells := SetDensity(w1.cells, c.d, 1.0)))
  }

  /** `Cell(position)`: as `Cell()`, at the given position. */
  function NewCellAt<M>(w: World<M>, position: Vec3): (r: (Cell, World<M>))
    requires SimulationObjects.Valid(w.objects) && Valid(w.cells)
    ensures Alive(r.1, r.0) && r.0.d.idx == |w.cells.position|
    ensures FieldsAt(r.1.cells, r.0.d.idx) == Fields(position, Origin, 0.0, 0.0, 0.0, 1.0)
    ensures OthersUnchanged(w.cells, r.1.cells, |w.cells.position|, |w.cells.position|)
  {
    var (c, w1) := NewEntries(w);
    (c, w1.(cells := SetDensity(SetPosition(w1.cells, c.d, position), c.d, 1.0)))
  }

  // ----- Division ----------------------------------------------------------------

  /** The numbers of a division: the two centre displacements and the two
      volumes. */
  datatype Split = Split(d1: real, d2: real, motherVolume: real, daughterVolume: real)

  /** The length both centres move apart: a quarter of the radius. */
  function TotalDisplacement(diameter: real): real
  {
    diameter * 0.5 / 4.0
  }

  /** The split of the division constructor for a volume ratio `ratio`
      (daughter to mother): the volume is shared in that ratio, and each
      centre moves inversely to its volume, so that the two displacements
      add up to the total and the centre of volume stays where it was. */
  function DivisionSplit(diameter: real, volume: real, ratio: real): (r: Split)
    requires ratio + 1.0 != 0.0
    ensures r.motherVolume + r.daughterVolume == volume
    ensures r.daughterVolume == ratio * r.motherVolume
    ensures r.d1 + r.d2 == TotalDisplacement(diameter)
    ensures r.d1 == ratio * r.d2
    ensures r.d1 * r.motherVolume == r.d2 * r.daughterVolume
  {
    var total := TotalDisplacement(diameter);
    var d2 := total / (ratio + 1.0);
    var d1 := total - d2;
    var newVolume := volume / (ratio + 1.0);
    SplitFacts(total, volume, ratio, d2, newVolume);
    Split(d1, d2, newVolume, volume - newVolume)
  }

  /** The algebra behind `DivisionSplit`, with the two quotients named. */
  lemma SplitFacts(total: real, volume: real, ratio: real, d2: real, newVolume: real)
    requires ratio + 1.0 != 0.0
    requires d2 == total / (ratio + 1.0) && newVolume == volume / (ratio + 1.0)
    ensures volume - newVolume == ratio * newVolume
    ensures total - d2 == ratio * d2
    ensures (total - d2) * newVolume == d2 * (volume - newVolume)
  {
    assert d2 * (ratio + 1.0) == total;
    assert newVolume * (ratio + 1.0) == volume;
    calc {
      (total - d2) * newVolume;
      (ratio * d2) * newVolume;
      d2 * (ratio * newVolume);
      d2 * (volume - newVolume);
    }
  }

  /** Moving two masses apart in inverse proportion keeps their weighted
      sum, one coordinate. */
  lemma WeightedShift(p: real, a: real, d1: real, d2: real, v1: real, v2: real, q1: real, q2: real)
    requires d1 * v1 == d2 * v2
    requires q1 == p - d1 * a && q2 == p + d2 * a
    ensures v1 * q1 + v2 * q2 == (v1 + v2) * p
  {
    calc {
      v1 * q1 + v2 * q2;
      v1 * (p - d1 * a) + v2 * (p + d2 * a);
      (v1 + v2) * p - (d1 * v1) * a + (d2 * v2) * a;
      (v1 + v2) * p;
    }
  }

  /** The volume-weighted position. */
  function Moment(v: real, p: Vec3): Vec3
  {
    Scale(v, p)
  }

  /** The entries of mother and daughter after a division, computed from
      the mother's entry before it; the daughter's entry starts from the
      all-zero entry of a new cell. `direction` stands for the unit vector
      the event's angles give and `diameterOf` for `UpdateDiameter`. The
      two volumes add up to the mother's, the volume-weighted centre stays
      where it was, and the daughter takes the mother's adherence and
      density. The centres move apart along the direction by
      `(d1 + d2) * total = total * total`: the axis of division already
      carries the factor `total`, and the displacements `d1`, `d2` scale it
      once more. */
  function DivisionFields(mother: Fields, ratio: real, direction: Vec3, diameterOf: real -> real)
    : (r: (Fields, Fields))
    requires ratio + 1.0 != 0.0
    ensures r.0.volume + r.1.volume == mother.volume
    ensures r.1.volume == ratio * r.0.volume
    ensures Minus(r.1.position, r.0.position)
      == Scale(TotalDisplacement(mother.diameter) * TotalDisplacement(mother.diameter), direction)
    ensures Plus(Moment(r.0.volume, r.0.position), Moment(r.1.volume, r.1.position))
      == Moment(mother.volume, mother.position)
    ensures r.1.adherence == mother.adherence && r.1.density == mother.density
    ensures r.0.adherence == mother.adherence && r.0.density == mother.density
    ensures r.0.tractorForce == mother.tractorForce && r.1.tractorForce == Origin
    ensures r.0.diameter == diameterOf(r.0.volume) && r.1.diameter == diameterOf(r.1.volume)
  {
    var total := TotalDisplacement(mother.diameter);
    var axis := Scale(total, direction);
    var split := DivisionSplit(mother.diameter, mother.volume, ratio);
    var p := mother.position;
    var daughterPos := Plus(p, Scale(split.d2, axis));
    var motherPos := Minus(p, Scale(split.d1, axis));
    MomentKept(p, axis, split.d1, split.d2, split.motherVolume, split.daughterVolume);
    Separation(p, total, direction, split.d1, split.d2);
    (mother.(position := motherPos, volume := split.motherVolume, diameter := diameterOf(split.motherVolume)),
     Fields(daughterPos, Origin, diameterOf(split.daughterVolume), split.daughterVolume,
            mother.adherence, mother.density))
  }

  /** Moving two volumes apart in inverse proportion along an axis keeps
      their volume-weighted sum. */
  lemma MomentKept(p: Vec3, axis: Vec3, d1: real, d2: real, v1: real, v2: real)
    requires d1 * v1 == d2 * v2
    ensures Plus(Moment(v1, Minus(p, Scale(d1, axis))), Moment(v2, Plus(p, Scale(d2, axis))))
      == Moment(v1 + v2, p)
  {
    var m1 := Minus(p, Scale(d1, axis));
    var m2 := Plus(p, Scale(d2, axis));
    WeightedShift(p.x, axis.x, d1, d2, v1, v2, m1.x, m2.x);
    WeightedShift(p.y, axis.y, d1, d2, v1, v2, m1.y, m2.y);
    WeightedShift(p.z, axis.z, d1, d2, v1, v2, m1.z, m2.z);
  }

  /** With the axis `total * direction` and `d1 + d2 == total`, the two
      centres end up `total * total` apart along the direction. */
  lemma Separation(p: Vec3, total: real, direction: Vec3, d1: real, d2: real)
    requires d1 + d2 == total
    ensures Minus(Plus(p, Scale(d2, Scale(total, direction))), Minus(p, Scale(d1, Scale(total, direction))))
      == Scale(total * total, direction)
  {
    var a := Scale(total, direction);
    assert (p.x + d2 * a.x) - (p.x - d1 * a.x) == (d1 + d2) * a.x == total * total * direction.x;
    assert (p.y + d2 * a.y) - (p.y - d1 * a.y) == (d1 + d2) * a.y == total * total * direction.y;
    assert (p.z + d2 * a.z) - (p.z - d1 * a.z) == (d1 + d2) * a.z == total * total * direction.z;
  }

  /** The division constructor `Cell(event, mother)` together with the
      update of the mother it performs, as the sequence of setter calls of
      the C++ constructor: the daughter's volume and position, the modules
      copied to it, the mother's position and volume, then the daughter's adherence,
      density and box index. `copied` stands for the modules
      `CopyBiologyModules` copies to the daughter. */
  function Divide<M>(w: World<M>, mother: Cell, ratio: real, direction: Vec3,
                     diameterOf: real -> real, copied: seq<M>): (r: (Cell, World<M>))
    requires Alive(w, mother) && ratio + 1.0 != 0.0
    ensures Alive(r.1, r.0) && Alive(r.1, mother)
    ensures r.0.d.idx == |w.cells.position| && r.0.so.idx == |w.objects.boxIdx|
    ensures |r.1.cells.position| == |w.cells.position| + 1
    ensures OthersUnchanged(w.cells, r.1.cells, |w.cells.position|, mother.d.idx)
    ensures (FieldsAt(r.1.cells, mother.d.idx), FieldsAt(r.1.cells, r.0.d.idx))
      == DivisionFields(FieldsAt(w.cells, mother.d.idx), ratio, direction, diameterOf)
    ensures SimulationObjects.GetBoxIdx(r.1.objects, r.0.so) == SimulationObjects.GetBoxIdx(w.objects, mother.so)
    ensures SimulationObjects.BiologyModules(r.1.objects, r.0.so) == copied
    ensures SimulationObjects.SameEntry(w.objects, r.1.objects, mother.so.idx)
    ensures SimulationObjects.Valid(r.1.objects) && |r.1.objects.boxIdx| == |w.objects.boxIdx| + 1
    ensures forall k :: 0 <= k < |w.objects.boxIdx| ==> SimulationObjects.SameEntry(w.objects, r.1.objects, k)
    ensures SimulationObjects.GetElementIdx(r.1.objects, r.0.so) == 0
  {
    var (daughter, w1) := NewEntries(w);
    var cells := DivideCells(w.cells, w1.cells, mother.d, daughter.d, ratio, direction, diameterOf);
    var objects := SimulationObjects.AddAll(w1.objects, daughter.so, copied);
    SimulationObjects.AddedModulesRunInOrder(w1.objects, daughter.so, copied);
    var objects' := SimulationObjects.SetBoxIdx(objects, daughter.so, w.objects.boxIdx[mother.so.idx]);
    assert mother.so.idx < |w.objects.boxIdx| && mother.so.idx != daughter.so.idx;
    assert SimulationObjects.SameEntry(w.objects, w1.objects, mother.so.idx);
    assert SimulationObjects.SameEntry(w1.objects, objects, mother.so.idx);
    assert SimulationObjects.SameEntry(objects, objects', mother.so.idx);
    forall k | 0 <= k < |w.objects.boxIdx|
      ensures SimulationObjects.SameEntry(w.objects, objects', k)
    {
      assert k != daughter.so.idx;
      assert SimulationObjects.SameEntry(w.objects, w1.objects, k);
      assert SimulationObjects.SameEntry(w1.objects, objects, k);
      assert SimulationObjects.SameEntry(objects, objects', k);
    }
    (daughter, World(objects', cells))
  }

  /** The writes of `Divide` to the cell storage; `before` is the storage
      before the daughter's entry was added, `s` the one after. */
  function DivideCells(before: CellStorage, s: CellStorage, m: CellData, dd: CellData,
                       ratio: real, direction: Vec3, diameterOf: real -> real): (r: CellStorage)
    requires Has(before, m) && dd.idx == |before.position| && Has(s, dd) && |s.position| == dd.idx + 1
    requires OthersUnchanged(before, s, |before.position|, |before.position|)
    requires FieldsAt(s, dd.idx) == Fields(Origin, Origin, 0.0, 0.0, 0.0, 0.0)
    requires ratio + 1.0 != 0.0
    ensures Has(r, dd) && |r.position| == |s.position|
    ensures OthersUnchanged(before, r, |before.position|, m.idx)
    ensures (FieldsAt(r, m.idx), FieldsAt(r, dd.idx))
      == DivisionFields(FieldsAt(before, m.idx), ratio, direction, diameterOf)
  {
    var mf := FieldsAt(s, m.idx);
    var split := DivisionSplit(mf.diameter, mf.volume, ratio);
    var axis := Scale(TotalDisplacement(mf.diameter), direction);
    var c1 := SetVolume(s, dd, split.daughterVolume, diameterOf);
    var c2 := SetPosition(c1, dd, Plus(mf.position, Scale(split.d2, axis)));
    var c3 := SetPosition(c2, m, Minus(mf.position, Scale(split.d1, axis)));
    var c4 := SetVolume(c3, m, split.motherVolume, diameterOf);
    var c5 := SetAdherence(c4, dd, mf.adherence);
    var c6 := SetDensity(c5, dd, mf.density);
    c6
  }
}
