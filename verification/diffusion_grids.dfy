/** The diffusion-grid registry of the resource manager: grids keyed by
    their substance id. The grid contents (the field solver) are not
    modelled; a grid is its substance id and name. */
module DiffusionGrids {
  import opened Wrappers
  import opened BoundedInts

  datatype DiffusionGrid = DiffusionGrid(substanceId: uint64, substanceName: string)

  type Registry = map<uint64, DiffusionGrid>

  /** `AddDiffusionGrid`: an already present substance id is fatal. */
  function AddDiffusionGrid(reg: Registry, grid: DiffusionGrid): (r: Result<Registry>)
    ensures r.Success? <==> grid.substanceId !in reg
    ensures r.Success? ==> r.value.Keys == reg.Keys + {grid.substanceId}
    ensures r.Success? ==> r.value[grid.substanceId] == grid
    ensures r.Success? ==> forall id :: id in reg ==> r.value[id] == reg[id]
  {
    if grid.substanceId in reg then
      Failure(Fatal("You tried to add a diffusion grid with an already existing substance id."))
    else
      Success(reg[grid.substanceId := grid])
  }

  /** `RemoveDiffusionGrid`: removing an absent substance id is fatal. */
  function RemoveDiffusionGrid(reg: Registry, substanceId: uint64): (r: Result<Registry>)
    ensures r.Success? <==> substanceId in reg
    ensures r.Success? ==> r.value.Keys == reg.Keys - {substanceId}
    ensures r.Success? ==> forall id :: id in r.value ==> r.value[id] == reg[id]
  {
    if substanceId in reg then
      Success(reg - {substanceId})
    else
      Failure(Fatal("You tried to remove a diffusion grid that does not exist."))
  }

  /** Adding a grid and removing it again restores the registry. */
  lemma AddThenRemoveRestores(reg: Registry, grid: DiffusionGrid)
    requires grid.substanceId !in reg
    ensures AddDiffusionGrid(reg, grid).Success?
    ensures RemoveDiffusionGrid(AddDiffusionGrid(reg, grid).value, grid.substanceId) == Success(reg)
  {
    var added := AddDiffusionGrid(reg, grid).value;
    assert RemoveDiffusionGrid(added, grid.substanceId).value == reg;
  }

  /** Removing a grid and adding it back restores the registry. */
  lemma RemoveThenAddRestores(reg: Registry, substanceId: uint64)
    requires substanceId in reg && reg[substanceId].substanceId == substanceId
    ensures RemoveDiffusionGrid(reg, substanceId).Success?
    ensures AddDiffusionGrid(RemoveDiffusionGrid(reg, substanceId).value, reg[substanceId]) == Success(reg)
  {
    var removed := RemoveDiffusionGrid(reg, substanceId).value;
    assert AddDiffusionGrid(removed, reg[substanceId]).value == reg;
  }

  /** `GetDiffusionGrid(substance_id)` as written: a debug assertion that
      the id is smaller than the number of grids, then a checked lookup. */
  function GetDiffusionGridAsWritten(reg: Registry, substanceId: uint64): (r: Result<DiffusionGrid>)
    ensures r.Success? <==> substanceId < |reg| && substanceId in reg
    ensures r.Success? ==> r.value == reg[substanceId]
  {
    if !(substanceId < |reg|) then
      Failure(AssertionFailed("You tried to access a diffusion grid that does not exist!"))
    else if substanceId in reg then
      Success(reg[substanceId])
    else
      Failure(OutOfRange("unordered_map::at"))
  }

  /** The assertion rejects a grid that is registered: substance ids are
      chosen by the user and need not be dense. */
  lemma AsWrittenRejectsRegisteredGrid()
    ensures var reg: Registry := map[7 := DiffusionGrid(7, "substance")];
      7 in reg && GetDiffusionGridAsWritten(reg, 7).Failure?
  {
    var reg: Registry := map[7 := DiffusionGrid(7, "substance")];
    assert |reg| == 1;
  }

  /** `GetDiffusionGrid(substance_id)` as intended: the lookup alone, which
      fails exactly when the id is absent. */
  function GetDiffusionGrid(reg: Registry, substanceId: uint64): (r: Result<DiffusionGrid>)
    ensures r.Success? <==> substanceId in reg
    ensures r.Success? ==> r.value == reg[substanceId]
  {
    if substanceId in reg then Success(reg[substanceId])
    else Failure(OutOfRange("unordered_map::at"))
  }

  /** A grid that was added is found again by its substance id, whatever
      its value. */
  lemma AddedGridIsFound(reg: Registry, grid: DiffusionGrid)
    requires grid.substanceId !in reg
    ensures GetDiffusionGrid(AddDiffusionGrid(reg, grid).value, grid.substanceId) == Success(grid)
  {
  }

  /** The keys of the registry listed once each, in the (unspecified)
      iteration order of the hash map. */
  predicate IsIterationOrder(reg: Registry, order: seq<uint64>)
  {
    && (forall k :: 0 <= k < |order| ==> order[k] in reg)
    && (forall id :: id in reg ==> id in order)
    && (forall k, l :: 0 <= k < l < |order| ==> order[k] != order[l])
  }

  /** Position `k` holds the first grid of that name in the order. */
  predicate FirstMatch(reg: Registry, order: seq<uint64>, name: string, k: int)
    requires forall k :: 0 <= k < |order| ==> order[k] in reg
  {
    && 0 <= k < |order|
    && reg[order[k]].substanceName == name
    && forall j :: 0 <= j < k ==> reg[order[j]].substanceName != name
  }

  /** `GetDiffusionGrid(substance_name)`: the first grid in iteration order
      whose name matches; the C++ function asserts when there is none. */
  function GetDiffusionGridByName(reg: Registry, order: seq<uint64>, name: string): (r: Result<DiffusionGrid>)
    requires forall k :: 0 <= k < |order| ==> order[k] in reg
    ensures r.Success? <==> exists k :: 0 <= k < |order| && reg[order[k]].substanceName == name
    ensures r.Success? ==> r.value.substanceName == name
    ensures r.Success? ==>
      exists k :: FirstMatch(reg, order, name, k) && reg[order[k]] == r.value
  {
    if |order| == 0 then
      Failure(AssertionFailed("You tried to access a diffusion grid that does not exist!"))
    else if reg[order[0]].substanceName == name then
      Success(reg[order[0]])
    else
      var rest := GetDiffusionGridByName(reg, order[1..], name);
      if rest.Success? then
        var k :| FirstMatch(reg, order[1..], name, k) && reg[order[1..][k]] == rest.value;
        assert FirstMatch(reg, order, name, k + 1);
        rest
      else
        rest
  }

  /** Over a full iteration order, the name lookup fails exactly when no
      registered grid carries the name. */
  lemma ByNameFailsIffNameAbsent(reg: Registry, order: seq<uint64>, name: string)
    requires IsIterationOrder(reg, order)
    ensures GetDiffusionGridByName(reg, order, name).Failure? <==>
      forall id :: id in reg ==> reg[id].substanceName != name
  {
    if GetDiffusionGridByName(reg, order, name).Failure? {
      forall id | id in reg
        ensures reg[id].substanceName != name
      {
        var k :| 0 <= k < |order| && order[k] == id;
      }
    }
  }
}
