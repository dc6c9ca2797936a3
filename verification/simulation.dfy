/** The simulation object: its identity, its name and output directory,
    the per-thread random number generators it restores from a backup,
    and the process-wide "active simulation" it sets and clears.

    Pointers to simulations are modelled by their ids, which are unique
    because every simulation takes its id from one shared counter. */
module Simulation {
  import opened Wrappers
  import opened Decimal
  import ResourceManager

  type SimId = nat

  /** The state of one per-thread random number generator. */
  datatype Random = Random(state: nat)

  /** The parameters the simulation itself reads. */
  datatype Param = Param(outputDir: string, restoreFile: string)

  datatype Sim<T> = Sim(
    id: SimId,
    name: string,
    uniqueName: string,
    outputDir: string,
    param: Param,
    random: seq<Random>,
    rm: ResourceManager.Store<T>)

  /** The process-wide state shared by all simulations: the id counter and
      the active simulation (`None` for a null pointer). */
  datatype Globals = Globals(counter: nat, active: Option<SimId>)

  // ----- Names ------------------------------------------------------------

  /** `std::string::find_last_of(c)`: the last position holding `c`, or
      `None` for `npos`. */
  function FindLastOf(s: string, c: char): (pos: Option<nat>)
    ensures pos.None? <==> c !in s
    ensures pos.Some? ==> pos.value < |s| && s[pos.value] == c
    ensures pos.Some? ==> forall k :: pos.value < k < |s| ==> s[k] != c
  {
    if |s| == 0 then None
    else if s[|s| - 1] == c then Some(|s| - 1)
    else
      var pos := FindLastOf(s[..|s| - 1], c);
      assert s == s[..|s| - 1] + [s[|s| - 1]];
      pos
  }

  /** `ExtractSimulationName(path)`: the part of the path after its last
      `/`, or the whole path when it has none. */
  function ExtractSimulationName(path: string): (name: string)
    ensures '/' !in name
    ensures |name| <= |path| && path[|path| - |name|..] == name
    ensures '/' !in path ==> name == path
    ensures '/' in path ==> |name| < |path| && path[|path| - |name| - 1] == '/'
  {
    match FindLastOf(path, '/')
    case None => path
    case Some(pos) => path[pos + 1..]
  }

  /** `InitializeUniqueName`: the name, followed by the decimal id unless
      the id is 0. */
  function UniqueName(name: string, id: SimId): (unique: string)
    ensures id == 0 ==> unique == name
    ensures id > 0 ==>
      (|unique| > |name| && unique[..|name|] == name &&
       AllDigits(unique[|name|..]) && ParseDecimal(unique[|name|..]) == id)
    ensures id > 0 ==> |unique| > |name| && unique[|name|] != '0'
  {
    if id > 0 then
      var unique := name + NatToString(id);
      assert unique[|name|..] == NatToString(id);
      assert unique[|name|] == NatToString(id)[0];
      ParsePrinted(id);
      unique
    else
      name
  }

  /** Two simulations with the same name get different unique names when
      their ids differ. */
  lemma UniqueNameDistinguishesIds(name: string, i: SimId, j: SimId)
    requires UniqueName(name, i) == UniqueName(name, j)
    ensures i == j
  {
  }

  lemma DigitsHaveNoSlash(s: string)
    requires AllDigits(s)
    ensures '/' !in s
  {
    forall k | 0 <= k < |s|
      ensures s[k] != '/'
    {
      assert IsDigit(s[k]);
    }
  }

  /** A unique name built from an extracted simulation name has no `/`. */
  lemma UniqueNameHasNoSlash(path: string, id: SimId)
    ensures '/' !in UniqueName(ExtractSimulationName(path), id)
  {
    var name := ExtractSimulationName(path);
    if id > 0 {
      DigitsHaveNoSlash(NatToString(id));
      assert UniqueName(name, id) == name + NatToString(id);
    }
  }

  /** `InitializeOutputDir` without the `mkdir`: the configured directory
      when the unique name is empty, otherwise a sub-directory named after
      the simulation. */
  function OutputDir(outputDirParam: string, uniqueName: string): (dir: string)
    ensures |dir| >= |outputDirParam| && dir[..|outputDirParam|] == outputDirParam
    ensures uniqueName == "" <==> dir == outputDirParam
    ensures uniqueName != "" ==>
      (|dir| == |outputDirParam| + 1 + |uniqueName| &&
       dir[|outputDirParam|] == '/' && dir[|outputDirParam| + 1..] == uniqueName)
  {
    if uniqueName == "" then outputDirParam else outputDirParam + "/" + uniqueName
  }

  /** The last path component of the output directory is the unique name,
      so each simulation writes into its own directory. */
  lemma OutputDirNamesSimulation(outputDirParam: string, uniqueName: string)
    requires uniqueName != "" && '/' !in uniqueName
    ensures ExtractSimulationName(OutputDir(outputDirParam, uniqueName)) == uniqueName
  {
    var dir := OutputDir(outputDirParam, uniqueName);
    var name := ExtractSimulationName(dir);
    assert dir[|outputDirParam|] == '/';
    var pos := FindLastOf(dir, '/').value;
    assert dir[|outputDirParam| + 1..] == uniqueName;
    forall k | |outputDirParam| < k < |dir|
      ensures dir[k] != '/'
    {
      assert dir[k] == uniqueName[k - |outputDirParam| - 1];
    }
    assert pos == |outputDirParam|;
  }

  // ----- Random number generators ------------------------------------------------

  /** The random-number part of `Restore`: generators `0 .. min - 1` take
      the restored state, where `min` is the smaller of the two counts; a
      warning is logged when the counts differ. */
  method RestoreRandom(mine: seq<Random>, restored: seq<Random>) returns (result: seq<Random>, warned: bool)
    ensures warned <==> |mine| != |restored|
    ensures |result| == |mine|
    ensures forall i :: 0 <= i < |mine| && i < |restored| ==> result[i] == restored[i]
    ensures forall i :: |restored| <= i < |mine| ==> result[i] == mine[i]
    ensures |mine| == |restored| ==> result == restored
  {
    result := mine;
    var count: nat;
    if |mine| != |restored| {
      warned := true;
      count := if |mine| < |restored| then |mine| else |restored|;
    } else {
      warned := false;
      count := |mine|;
    }
    var i := 0;
    while i < count
      invariant 0 <= i <= count
      invariant |result| == |mine|
      invariant forall j :: 0 <= j < i ==> result[j] == restored[j]
      invariant forall j :: i <= j < |mine| ==> result[j] == mine[j]
    {
      result := result[i := restored[i]];
      i := i + 1;
    }
  }

  // ----- Life cycle --------------------------------------------------------

  /** The first part of `Initialize`: the id is taken from the shared
      counter, which is incremented, and the new simulation becomes the
      active one. */
  function AssignId(g: Globals): (r: (SimId, Globals))
    ensures r.0 == g.counter && r.1.counter == g.counter + 1
    ensures r.1.active == Some(r.0)
  {
    (g.counter, Globals(g.counter + 1, Some(g.counter)))
  }

  /** The ids of `count` simulations created one after another. */
  function CreateMany(g: Globals, count: nat): (r: (seq<SimId>, Globals))
    ensures |r.0| == count
    ensures r.1.counter == g.counter + count
    ensures forall k :: 0 <= k < count ==> r.0[k] >= g.counter
    decreases count
  {
    if count == 0 then ([], g)
    else
      var (id, g1) := AssignId(g);
      var (ids, g2) := CreateMany(g1, count - 1);
      ([id] + ids, g2)
  }

  /** Successive simulations get strictly increasing, hence distinct, ids. */
  lemma {:induction false} SuccessiveIdsIncrease(g: Globals, count: nat)
    ensures forall k, l :: 0 <= k < l < count ==> CreateMany(g, count).0[k] < CreateMany(g, count).0[l]
    decreases count
  {
    if count > 0 {
      var (id, g1) := AssignId(g);
      SuccessiveIdsIncrease(g1, count - 1);
      var ids := CreateMany(g, count).0;
      assert ids == [id] + CreateMany(g1, count - 1).0;
      forall k, l | 0 <= k < l < count
        ensures ids[k] < ids[l]
      {
        if k > 0 {
          assert ids[k] == CreateMany(g1, count - 1).0[k - 1];
          assert ids[l] == CreateMany(g1, count - 1).0[l - 1];
        }
      }
    }
  }

  /** `Simulation(argc, argv)`: assign the id, activate, derive the names
      from `argv[0]`, and set up the members. `param` stands for the
      runtime parameters read from the configuration, `random` for the
      freshly seeded per-thread generators and `numaNodes` for the
      configured NUMA node count. */
  function Create<T>(g: Globals, argv0: string, param: Param, random: seq<Random>, numaNodes: nat)
    : (r: (Sim<T>, Globals))
    requires numaNodes <= 0x1_0000
    ensures r.0.id == g.counter && r.1 == Globals(g.counter + 1, Some(r.0.id))
    ensures r.0.name == ExtractSimulationName(argv0)
    ensures r.0.uniqueName == UniqueName(r.0.name, r.0.id)
    ensures r.0.outputDir == OutputDir(param.outputDir, r.0.uniqueName)
    ensures ResourceManager.Valid(r.0.rm) && r.0.rm.uidSohMap == map[]
  {
    var (id, g1) := AssignId(g);
    var name := ExtractSimulationName(argv0);
    var unique := UniqueName(name, id);
    (Sim(id, name, unique, OutputDir(param.outputDir, unique), param, random,
         ResourceManager.Empty(numaNodes)), g1)
  }

  /** `Activate`. */
  function Activate(g: Globals, sim: SimId): (r: Globals)
    ensures r.active == Some(sim) && r.counter == g.counter
  {
    g.(active := Some(sim))
  }

  /** `~Simulation`: while its members are destroyed the dying simulation is
      active; afterwards the previously active simulation is restored if it
      was a different one, and the active pointer is null otherwise. The
      result is the active simulation during teardown and the globals
      afterwards. */
  function Destroy(g: Globals, sim: SimId): (r: (Option<SimId>, Globals))
    ensures r.0 == Some(sim)
    ensures r.1.counter == g.counter
    ensures r.1.active != Some(sim)
    ensures g.active != Some(sim) ==> r.1.active == g.active
    ensures g.active == Some(sim) ==> r.1.active == None
  {
    var tmp := if g.active != Some(sim) then g.active else None;
    var during := Some(sim);
    (during, g.(active := tmp))
  }

  /** `Restore(restored)`: random generators as far as both have them, then
      the parameters and the resource manager (fatal when the NUMA node
      counts differ), then the names: the restored name with this
      simulation's own id. */
  method Restore<T>(sim: Sim<T>, restored: Sim<T>) returns (r: Result<Sim<T>>)
    ensures r.Success? <==> |sim.rm.simObjects| == |restored.rm.simObjects|
    ensures r.Success? ==> r.value.id == sim.id && r.value.param == restored.param
    ensures r.Success? ==> r.value.rm == restored.rm
    ensures r.Success? ==> r.value.name == restored.name
    ensures r.Success? ==> r.value.uniqueName == UniqueName(restored.name, sim.id)
    ensures r.Success? ==> r.value.outputDir == OutputDir(restored.param.outputDir, r.value.uniqueName)
    ensures r.Success? ==> |r.value.random| == |sim.random|
    ensures r.Success? ==>
      forall i :: 0 <= i < |sim.random| && i < |restored.random| ==> r.value.random[i] == restored.random[i]
    ensures r.Success? ==>
      forall i :: |restored.random| <= i < |sim.random| ==> r.value.random[i] == sim.random[i]
  {
    var random, _ := RestoreRandom(sim.random, restored.random);
    var rm := ResourceManager.MoveAssign(sim.rm, restored.rm);
    if rm.Failure? {
      return Failure(rm.error);
    }
    var unique := UniqueName(restored.name, sim.id);
    r := Success(sim.(random := random, param := restored.param, rm := rm.value,
                      name := restored.name, uniqueName := unique,
                      outputDir := OutputDir(restored.param.outputDir, unique)));
  }
}
