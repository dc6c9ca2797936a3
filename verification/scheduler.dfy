/** The scheduler: the step loop and the fixed order of the operations each
    step runs. The operations themselves (grid, diffusion, biology modules,
    physics) are not part of this model; each is an uninterpreted event in
    the record of what a call did. */
module Scheduler {
  import opened BoundedInts
  import opened Wrappers
  import opened ResourceManager
  import DiffusionGrids

  /** Operations that act on the whole simulation. */
  datatype Stage =
    | CommitChanges
    | GridInitialize
    | UpdateGrid
    | Diffusion
    | PhysicsInit
    | DiffusionGridInitialize(substanceId: uint64)
    | DiffusionGridRunInitializers(substanceId: uint64)

  /** Operations run on one simulation object. */
  datatype ObjectOp = BoundSpace | Biology | Physics

  /** One entry of what a call did: a whole-simulation stage, or a parallel
      pass over all objects (no order between objects, an order within
      each object). */
  datatype StepEvent =
    | Global(stage: Stage)
    | RunAll(perObject: map<Uid, seq<ObjectOp>>)

  /** The runtime parameters the scheduler reads. */
  datatype Param = Param(boundSpace: bool, runMechanicalInteractions: bool)

  datatype StepRecord = StepRecord(lastIteration: bool, events: seq<StepEvent>)

  datatype SimulateRecord = SimulateRecord(init: seq<StepEvent>, steps: seq<StepRecord>)

  datatype SchedulerState = SchedulerState(totalSteps: nat)

  /** The position of an object operation in the per-object pipeline. */
  function Rank(op: ObjectOp): nat
  {
    match op
    case BoundSpace => 0
    case Biology => 1
    case Physics => 2
  }

  /** The per-object run of `Execute`: bound space when enabled, then the
      biology modules, then physics when mechanical interactions run. */
  function RunOnObject(param: Param): (ops: seq<ObjectOp>)
    ensures Biology in ops
    ensures BoundSpace in ops <==> param.boundSpace
    ensures Physics in ops <==> param.runMechanicalInteractions
    ensures forall i, j :: 0 <= i < j < |ops| ==> Rank(ops[i]) < Rank(ops[j])
  {
    (if param.boundSpace then [BoundSpace] else [])
    + [Biology]
    + (if param.runMechanicalInteractions then [Physics] else [])
  }

  /** The ranks strictly increase, so each operation runs at most once. */
  lemma RunOnObjectRunsEachOpOnce(param: Param, i: nat, j: nat)
    requires i < j < |RunOnObject(param)|
    ensures RunOnObject(param)[i] != RunOnObject(param)[j]
  {
  }

  /** `Execute(last_iteration)`: BioDynaMo's code asserts that the simulation
      holds at least one object. */
  function Execute(param: Param, objects: set<Uid>, lastIteration: bool): (rec: StepRecord)
    requires objects != {}
    ensures rec.lastIteration == lastIteration
    ensures |rec.events| == 5
    ensures rec.events[0] == Global(UpdateGrid)
    ensures rec.events[1] == Global(Diffusion)
    ensures rec.events[2] == Global(PhysicsInit)
    ensures rec.events[3].RunAll? && rec.events[3].perObject.Keys == objects
    ensures forall u :: u in objects ==> rec.events[3].perObject[u] == RunOnObject(param)
    ensures rec.events[4] == Global(CommitChanges)
  {
    StepRecord(lastIteration, [
      Global(UpdateGrid),
      Global(Diffusion),
      Global(PhysicsInit),
      RunAll(map u | u in objects :: RunOnObject(param)),
      Global(CommitChanges)])
  }

  /** The diffusion-grid part of `Initialize`: each grid is sized, then its
      initializers run, grid after grid. */
  function InitializeDiffusionGrids(substanceIds: seq<uint64>): (events: seq<StepEvent>)
    ensures |events| == 2 * |substanceIds|
    ensures forall k :: 0 <= k < |substanceIds| ==>
      && events[2 * k] == Global(DiffusionGridInitialize(substanceIds[k]))
      && events[2 * k + 1] == Global(DiffusionGridRunInitializers(substanceIds[k]))
  {
    if |substanceIds| == 0 then []
    else
      [Global(DiffusionGridInitialize(substanceIds[0])), Global(DiffusionGridRunInitializers(substanceIds[0]))]
      + InitializeDiffusionGrids(substanceIds[1..])
  }

  /** Event `j` of the grid part belongs to grid `j / 2`: its
      initialisation at even `j`, its initializers at odd `j`. */
  lemma GridEventAt(order: seq<uint64>, j: nat)
    requires j < |InitializeDiffusionGrids(order)|
    ensures j / 2 < |order| && j == 2 * (j / 2) + j % 2
    ensures j % 2 == 0 ==> InitializeDiffusionGrids(order)[j] == Global(DiffusionGridInitialize(order[j / 2]))
    ensures j % 2 == 1 ==> InitializeDiffusionGrids(order)[j] == Global(DiffusionGridRunInitializers(order[j / 2]))
  {
    var k := j / 2;
    assert j == 2 * k || j == 2 * k + 1;
  }

  /** When the ids are the registry's iteration order, the grid part of
      `Initialize` initialises exactly the registered grids, each once. */
  lemma InitializeCoversRegistry(reg: DiffusionGrids.Registry, order: seq<uint64>, id: uint64)
    requires DiffusionGrids.IsIterationOrder(reg, order)
    ensures id in reg <==> Global(DiffusionGridInitialize(id)) in InitializeDiffusionGrids(order)
    ensures forall j, l ::
      (0 <= j < l < |InitializeDiffusionGrids(order)| &&
       InitializeDiffusionGrids(order)[j] == Global(DiffusionGridInitialize(id))) ==>
      InitializeDiffusionGrids(order)[l] != Global(DiffusionGridInitialize(id))
  {
    var events := InitializeDiffusionGrids(order);
    if id in reg {
      var k :| 0 <= k < |order| && order[k] == id;
      assert events[2 * k] == Global(DiffusionGridInitialize(id));
    }
    if Global(DiffusionGridInitialize(id)) in events {
      var j :| 0 <= j < |events| && events[j] == Global(DiffusionGridInitialize(id));
      GridEventAt(order, j);
      assert order[j / 2] in reg;
    }
    forall j, l | 0 <= j < l < |events| && events[j] == Global(DiffusionGridInitialize(id))
      ensures events[l] != Global(DiffusionGridInitialize(id))
    {
      GridEventAt(order, j);
      GridEventAt(order, l);
    }
  }

  /** `Initialize`: commit, grid initialisation, bound space on every object
      when enabled, then the diffusion grids in the registry's order. */
  function Initialize(param: Param, objects: set<Uid>, substanceIds: seq<uint64>): (events: seq<StepEvent>)
    ensures var k := if param.boundSpace then 3 else 2;
      |events| == k + 2 * |substanceIds| && events[k..] == InitializeDiffusionGrids(substanceIds)
    ensures events[0] == Global(CommitChanges) && events[1] == Global(GridInitialize)
    ensures param.boundSpace ==> events[2] == RunAll(map u | u in objects :: [BoundSpace])
  {
    [Global(CommitChanges), Global(GridInitialize)]
    + (if param.boundSpace then [RunAll(map u | u in objects :: [BoundSpace])] else [])
    + InitializeDiffusionGrids(substanceIds)
  }

  /** `Simulate(steps)`: `Initialize` once, then `steps` calls of `Execute`,
      only the last one flagged as the last iteration, each followed by one
      increment of the step counter. `population(k)` is the set of objects
      present during step `k`; how the biology changes it is not modelled.
      The loop counter is as wide as `steps` (see `AsWrittenExecuteCalls`
      for the 32-bit `unsigned` counter of `Scheduler::Simulate`). */
  method Simulate(sched: SchedulerState, steps: uint64, param: Param,
                  population: nat -> set<Uid>, substanceIds: seq<uint64>)
    returns (next: SchedulerState, record: SimulateRecord)
    requires forall k :: 0 <= k < steps ==> population(k) != {}
    ensures GetSimulatedSteps(next) == GetSimulatedSteps(sched) + steps
    ensures record.init == Initialize(param, population(0), substanceIds)
    ensures |record.steps| == steps
    ensures forall k :: 0 <= k < steps ==> (record.steps[k].lastIteration <==> k == steps - 1)
    ensures forall k :: 0 <= k < steps ==>
      (|record.steps[k].events| == 5 &&
       record.steps[k].events[3] == RunAll(map u | u in population(k) :: RunOnObject(param)))
    ensures forall k :: 0 <= k < steps ==> record.steps[k] == Execute(param, population(k), k == steps - 1)
  {
    var init := Initialize(param, population(0), substanceIds);
    var records: seq<StepRecord> := [];
    var total := sched.totalSteps;
    var step: nat := 0;
    while step < steps
      invariant step <= steps
      invariant |records| == step
      invariant total == sched.totalSteps + step
      invariant forall k :: 0 <= k < step ==> records[k] == Execute(param, population(k), k == steps - 1)
    {
      records := records + [Execute(param, population(step), step == steps - 1)];
      total := total + 1;
      step := step + 1;
    }
    next := SchedulerState(total);
    record := SimulateRecord(init, records);
  }

  /** `GetSimulatedSteps`. */
  function GetSimulatedSteps(sched: SchedulerState): nat
  {
    sched.totalSteps
  }

  /** `Restore`: the restore logic is commented out; the stub never asks
      `Simulate` to return early. */
  function Restore(sched: SchedulerState, steps: uint64): (returnEarly: bool)
    ensures !returnEarly
  {
    false
  }

  // ----- The loop counter as written -----------------------------------------

  /** The loop of `Simulate` as written: the counter is a 32-bit `unsigned`
      that wraps around, compared against the 64-bit step count. The result
      is the number of `Execute` calls before the loop exits, or `None`
      when `fuel` iterations did not reach the exit. */
  function AsWrittenExecuteCalls(step: uint32, steps: uint64, fuel: nat): (r: Option<nat>)
    ensures !(step < steps) <==> r == Some(0)
    ensures r.Some? ==> r.value <= fuel
    decreases fuel
  {
    if !(step < steps) then Some(0)
    else if fuel == 0 then None
    else
      match AsWrittenExecuteCalls((step + 1) % UINT32_LIMIT, steps, fuel - 1)
      case None => None
      case Some(calls) => Some(calls + 1)
  }

  /** For step counts below 2^32 the loop as written makes exactly `steps`
      calls. */
  lemma {:induction false} AsWrittenExitsBelowTwoToThe32(step: uint32, steps: uint64, fuel: nat)
    requires steps < UINT32_LIMIT && step <= steps && fuel >= steps - step
    ensures AsWrittenExecuteCalls(step, steps, fuel) == Some(steps - step)
    decreases fuel
  {
    if step < steps {
      AsWrittenExitsBelowTwoToThe32(step + 1, steps, fuel - 1);
    }
  }

  /** From 2^32 steps on, the 32-bit counter is always below the step count
      and wraps to 0 instead of reaching it: however many iterations are
      allowed, the loop does not exit. */
  lemma {:induction false} AsWrittenNeverExitsFromTwoToThe32(step: uint32, steps: uint64, fuel: nat)
    requires steps >= UINT32_LIMIT
    ensures AsWrittenExecuteCalls(step, steps, fuel) == None
    decreases fuel
  {
    if fuel > 0 {
      AsWrittenNeverExitsFromTwoToThe32((step + 1) % UINT32_LIMIT, steps, fuel - 1);
    }
  }
}
