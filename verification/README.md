# BioDynaMo core: a Dafny model

This project models the core of BioDynaMo, an agent-based simulation engine for biological tissue, at the revision where simulation objects keep their data in shared, process-wide storage vectors.

The model covers the following parts.

- **Resource manager** (`resource_manager.dfy`, `so_handle.dfy`, `diffusion_grids.dfy`):
  - the `SoHandle` address of an object, a NUMA node and an element index;
  - one vector of simulation objects per NUMA node, plus a map from each object's uid to its handle;
  - `push_back`, `Remove` (swap with the last slot, then pop), `Contains`, `GetSimObject`, `GetSoHandle`, `GetNumSimObjects`, `Clear` and `ApplyOnAllElements`;
  - the move assignment used when restoring;
  - the diffusion-grid registry keyed by substance id.
- **Scheduler** (`scheduler.dfy`):
  - the order of the stages in `Initialize` and `Execute`;
  - the step loop of `Simulate` and the step counter;
  - the stub `Restore`.
  - The stages themselves are uninterpreted events: grid, diffusion, physics, biology, commit.
- **Simulation** (`simulation.dfy`, `decimal.dfy`):
  - id assignment from the shared counter;
  - the simulation name taken from the program path;
  - the unique name (the name followed by the decimal id) and the output directory;
  - the random-number part of `Restore`;
  - the handling of the active-simulation pointer in the destructor.
- **Containers** (`fixed_size_vector.dfy`, `backend.dfy`): `FixedSizeVector<T, N>`, `VectorPlaceholder` and `OneElementArray`.
- **Simulation objects and cells** (`simulation_object.dfy`, `cell.dfy`):
  - the shared storage vectors and the per-object index into them;
  - the element-index and box-index setters;
  - biology modules in insertion order;
  - `UpdateReference`;
  - the `Cell` constructors, accessors and `UpdatePosition`;
  - the volume and displacement split of cell division, in exact real arithmetic.

State that the original keeps in static or global variables is passed in and returned explicitly. This covers the storage vectors, the simulation counter and the active pointer. Log::Fatal, thrown `std::logic_error` and `unordered_map::at` failures become the `Failure` case of `Wrappers.Result`. Debug assertions are modelled in one of two ways. Two assertions become a `Failure`. The first is the assertion of `GetDiffusionGrid(id)`, in `DiffusionGrids.GetDiffusionGridAsWritten`, because it is itself a Finding. The second is the `assert(false)` of `GetDiffusionGrid(name)` when no grid has the name, in `DiffusionGrids.GetDiffusionGridByName`; release builds return `nullptr` there instead. The assertions of `GetSimObject`, `Execute` and `FixedSizeVector::push_back` become preconditions, listed under Left out.

The central invariant is `ResourceManager.Valid`: the uid map and the storage agree exactly. Every mapped uid names a slot that holds an object with that uid, and every stored object is mapped to its own slot. `push_back` and `Remove` preserve it. Under it, the number of objects equals the size of the map. `Remove` keeps every other object reachable under its uid, even the one it moves.

In cell division the axis of division is already scaled by `total_length_of_displacement`. The displacements `d_1` and `d_2`, which add up to that length, scale it a second time. So the two centres move apart by the square of that length along the division direction, and `Cells.DivisionFields` states exactly that.

## Model

| member | source | states |
|---|---|---|
| SoHandles.Default | src/core/resource_manager.h:64-66 | The default handle holds the maximum of both parts; every handle is component-wise at most it. |
| SoHandles.OnNodeZero | src/core/resource_manager.h:68-69 | The one-argument handle lies on NUMA node 0 with the given index. |
| SoHandles.Equal | src/core/resource_manager.h:78-83 | Handle equality holds exactly when both parts agree. |
| SoHandles.LessIsKeyOrder | src/core/resource_manager.h:85-91 | `operator<` (node first, then index) is the order of the linear layout `node * 2^32 + index`. |
| SoHandles.LessIsStrictTotalOrder | src/core/resource_manager.h:85-91 | `operator<` is irreflexive, transitive, asymmetric and connected. |
| SoHandles.KeyInjective | src/core/resource_manager.h:85-91 | Distinct handles have distinct layout positions, so the order is connected. |
| DiffusionGrids.AddDiffusionGrid | src/core/resource_manager.h:172-182 | Fatal exactly when the substance id is present; otherwise the id maps to the grid and every other entry is kept. |
| DiffusionGrids.RemoveDiffusionGrid | src/core/resource_manager.h:184-193 | Fatal exactly when the id is absent; otherwise only that id is erased. |
| DiffusionGrids.AddThenRemoveRestores | src/core/resource_manager.h:172-193 | Adding a new grid and removing it again gives back the registry. |
| DiffusionGrids.RemoveThenAddRestores | src/core/resource_manager.h:172-193 | Removing a grid and adding it back gives back the registry. |
| DiffusionGrids.GetDiffusionGridAsWritten | src/core/resource_manager.h:196-200 | Lookup by id as written: succeeds only when the id is below the number of grids and registered. |
| DiffusionGrids.AsWrittenRejectsRegisteredGrid | src/core/resource_manager.h:196-200 | A registry holding only substance id 7 makes the lookup of 7 fail. |
| DiffusionGrids.GetDiffusionGrid | src/core/resource_manager.h:196-200 | Lookup by id succeeds exactly when the id is registered, and returns its grid. |
| DiffusionGrids.AddedGridIsFound | src/core/resource_manager.h:172-200 | A grid that was added is found again under its substance id. |
| DiffusionGrids.GetDiffusionGridByName | src/core/resource_manager.h:205-216 | Lookup by name succeeds exactly when some grid in iteration order has the name; the result is the first such grid. |
| DiffusionGrids.ByNameFailsIffNameAbsent | src/core/resource_manager.h:205-216 | Over a full iteration order, lookup by name fails exactly when no registered grid has the name. |
| ResourceManager.At | src/core/resource_manager.h:166-168 | `GetSimObjectWithSoHandle` returns an object of the handle's node. |
| ResourceManager.ValidUidsUnique | src/core/resource_manager.h:371-373 | Under the store invariant no uid occupies two slots. |
| ResourceManager.Empty | src/core/resource_manager.h:128-135 | A new store has one empty vector per NUMA node and an empty map, and satisfies the invariant. |
| ResourceManager.ContainsIffStored | src/core/resource_manager.h:307-311 | Under the invariant, `Contains(uid)` holds exactly when some slot of some node holds an object with that uid. |
| ResourceManager.GetSimObject | src/core/resource_manager.h:160-164 | For a contained uid, the object returned carries that uid when the invariant holds. |
| ResourceManager.GetSoHandle | src/core/resource_manager.h:170 | A contained uid yields its handle with nothing changed; an absent uid yields the default handle and inserts it into the map. |
| ResourceManager.GetSoHandleOfAbsentUidBreaksInvariant | src/core/resource_manager.h:170 | Asking for the handle of an absent uid breaks the store invariant. |
| ResourceManager.GetNumSimObjects | src/core/resource_manager.h:231-241 | With -1 it counts every node's objects, which under the invariant is the size of the uid map; otherwise it gives the size of one node. |
| ResourceManager.CountMatchesIdentityMap | src/core/resource_manager.h:231-241 | Under the invariant the total number of stored objects equals the number of mapped uids. |
| ResourceManager.PushBack | src/core/resource_manager.h:332-335 | The object is appended to its node, other nodes are kept, and its uid maps to the new last slot. |
| ResourceManager.PushBackPreservesValid | src/core/resource_manager.h:332-335 | Pushing an object with a new uid preserves the invariant, and the object is then found by its uid. |
| ResourceManager.PushBackKeepsOtherObjects | src/core/resource_manager.h:332-335 | Every object contained before a push is still found, unchanged, under its uid. |
| ResourceManager.Remove | src/core/resource_manager.h:341-361 | An absent uid changes nothing. Otherwise the node shrinks by one: the last slot is popped, or it moves into the freed slot and its uid is re-pointed there. |
| ResourceManager.RemovePreservesValid | src/core/resource_manager.h:341-361 | Removal preserves the invariant and the removed uid is no longer contained. |
| ResourceManager.RemoveKeepsOtherObjects | src/core/resource_manager.h:341-361 | Every other contained uid still finds the same object after a removal, including the moved one. |
| ResourceManager.RemoveShrinksBothByOne | src/core/resource_manager.h:341-361 | Removing a contained uid lowers both the object count and the map size by one. |
| ResourceManager.Clear | src/core/resource_manager.h:317-323 | The map and every node become empty; the node count and the diffusion grids are kept. |
| ResourceManager.VisitNode | src/core/resource_manager.h:258-263 | The inner loop visits the node's objects in index order, each with its own handle. |
| ResourceManager.ApplyOnAllElements | src/core/resource_manager.h:249-264 | Every stored object is visited exactly once, node by node and in index order. Each visit carries the object's own handle, and the handles strictly increase. |
| ResourceManager.MoveAssign | src/core/resource_manager.h:149-158 | Fatal exactly when the NUMA node counts differ; otherwise the restored store is taken over, invariant included. |
| Scheduler.RunOnObject | src/scheduler.cc:77-88 | Per object: bound space exactly when enabled, always biology, physics exactly when mechanical interactions run, in that order. |
| Scheduler.RunOnObjectRunsEachOpOnce | src/scheduler.cc:77-88 | No per-object operation runs twice. |
| Scheduler.Execute | src/scheduler.cc:58-110 | A step requires objects. It runs grid update, diffusion, physics init, then the per-object run on every object, then the commit, in that order. |
| Scheduler.InitializeDiffusionGrids | src/scheduler.cc:182-187 | Each diffusion grid is initialised and then has its initializers run, grid after grid. |
| Scheduler.GridEventAt | src/scheduler.cc:182-187 | Event `j` of the grid initialisation belongs to grid `j / 2`: its initialisation at even `j`, its initializers at odd `j`. |
| Scheduler.InitializeCoversRegistry | src/scheduler.cc:182-187 | Given the registry's iteration order, a grid is initialised exactly when it is registered, and never twice. |
| Scheduler.Initialize | src/scheduler.cc:163-188 | Initialisation is commit, grid initialisation, bound space on every object when enabled, then the diffusion grids. |
| Scheduler.Simulate | src/scheduler.cc:40-56 | `Simulate(steps)` initialises once, then runs `steps` steps. Each step's record is exactly the `Execute` call for that step's population: UpdateGrid, Diffusion, PhysicsInit, the per-object pass, CommitChanges. Only the last step is flagged as the last iteration. The simulated-step count grows by `steps`. |
| Scheduler.GetSimulatedSteps | src/scheduler.cc:56 | Returns the step counter. Its partner is `Scheduler.Simulate`, whose contract states that each call adds exactly `steps`. |
| Scheduler.Restore | src/scheduler.cc:127-141 | The stub never asks `Simulate` to return early. |
| Scheduler.AsWrittenExecuteCalls | src/scheduler.cc:47-52 | The loop as written, with its 32-bit wrapping counter: it makes no call exactly when the counter already reaches the step count, and it never reports more calls than the iterations it was given. Both halves of the Finding on this loop are stated about it. |
| Scheduler.AsWrittenExitsBelowTwoToThe32 | src/scheduler.cc:47-52 | With the 32-bit loop counter, fewer than 2^32 steps give exactly `steps` calls of `Execute`. |
| Scheduler.AsWrittenNeverExitsFromTwoToThe32 | src/scheduler.cc:47-52 | With the 32-bit loop counter, 2^32 steps or more never leave the loop. |
| Decimal.NatToString | src/core/simulation_implementation.h:252-257 | The id is written as a non-empty string of digits. The first digit is '0' exactly when the id is 0. |
| Decimal.ParsePrinted | src/core/simulation_implementation.h:252-257 | Reading the written id back gives the id. |
| Decimal.NatToStringInjective | src/core/simulation_implementation.h:252-257 | Distinct ids are written differently. |
| Simulation.FindLastOf | src/core/simulation_implementation.h:263 | `find_last_of` finds the last occurrence of the character, or reports that there is none. |
| Simulation.ExtractSimulationName | src/core/simulation_implementation.h:260-269 | The name is the suffix of the path after its last `/`, or the whole path without one; it contains no `/`. |
| Simulation.UniqueName | src/core/simulation_implementation.h:249-258 | The unique name is the name for id 0; otherwise it is the name followed by digits that read back as the id, with no leading zero. |
| Simulation.UniqueNameDistinguishesIds | src/core/simulation_implementation.h:249-258 | Two simulations with the same name and different ids get different unique names. |
| Simulation.UniqueNameHasNoSlash | src/core/simulation_implementation.h:249-269 | A unique name built from an extracted name contains no `/`. |
| Simulation.OutputDir | src/core/simulation_implementation.h:271-277 | The output directory is the configured one when the unique name is empty. Otherwise it is the configured one, a `/`, then the unique name. |
| Simulation.OutputDirNamesSimulation | src/core/simulation_implementation.h:271-277 | The last path component of the output directory is the unique name. |
| Simulation.RestoreRandom | src/core/simulation_implementation.h:78-92 | Generators up to the smaller count take the restored state and the rest keep theirs. A warning is logged exactly when the counts differ. |
| Simulation.AssignId | src/core/simulation_implementation.h:184-185 | The id is the counter's value, the counter is incremented, and the simulation becomes active. |
| Simulation.CreateMany | src/core/simulation_implementation.h:184 | Creating `count` simulations advances the counter by `count`; no id is below the starting counter. |
| Simulation.SuccessiveIdsIncrease | src/core/simulation_implementation.h:184 | Simulations created one after another get strictly increasing, hence distinct, ids. |
| Simulation.Create | src/core/simulation_implementation.h:180-190 | A new simulation gets the next id and becomes active. Its name comes from the program path, its unique name and output directory from those, and its store starts empty and valid. |
| Simulation.Activate | src/core/simulation_implementation.h:124-127 | The given simulation becomes the active one. |
| Simulation.Destroy | src/core/simulation_implementation.h:103-122 | The dying simulation is active while its members are destroyed. Afterwards the active pointer never names it. A different simulation that was active before is active again; if the dying one was active, the pointer is null. |
| Simulation.Restore | src/core/simulation_implementation.h:77-101 | Restore is fatal exactly when the NUMA node counts differ. Otherwise it takes the parameters, store and name from the backup, and keeps its own id in the unique name and output directory. Generators up to the smaller count take the backup's state, and the rest keep this simulation's own. |
| FixedSizeVectors.New | src/biodynamo/core/container/fixed_size_vector.h:56-58 | A fresh vector has size 0 and no elements. |
| FixedSizeVectors.Elements | src/biodynamo/core/container/fixed_size_vector.h:51-54 | `begin()` to `end()` spans exactly `size()` elements, the first slots. |
| FixedSizeVectors.Size | src/biodynamo/core/container/fixed_size_vector.h:30 | Returns the number of slots in use; the contracts of `PushBack`, `Clear` and `Elements` state how it moves and what it spans. |
| FixedSizeVectors.Get | src/biodynamo/core/container/fixed_size_vector.h:32 | Reads any of the `N` slots, checked only against `N` and not against the size; `Set` and `PushBack` state what it reads after a write. |
| FixedSizeVectors.Set | src/biodynamo/core/container/fixed_size_vector.h:32-34 | Writing slot `idx` changes that slot only and keeps the size. |
| FixedSizeVectors.Clear | src/biodynamo/core/container/fixed_size_vector.h:44 | `clear()` sets the size to 0 and keeps every slot's contents. |
| FixedSizeVectors.PushBack | src/biodynamo/core/container/fixed_size_vector.h:46-49 | Below capacity, the value is appended after the elements, the size grows by one, and every other slot is kept. |
| FixedSizeVectors.Increment | src/biodynamo/core/container/fixed_size_vector.h:36-42 | `operator++` increments all N slots, also those beyond the size, and keeps the size. |
| FixedSizeVectors.PushAll | src/biodynamo/core/container/fixed_size_vector.h:46-49 | Pushing a sequence grows the size by its length. |
| FixedSizeVectors.PushAllAppends | src/biodynamo/core/container/fixed_size_vector.h:46-49 | Pushed values follow the old elements in push order. |
| FixedSizeVectors.ClearThenPushAll | src/biodynamo/core/container/fixed_size_vector.h:44-49 | After `clear()`, the elements are exactly the values pushed since. |
| Backend.PlaceholderSize | src/biodynamo/core/backend.h:38-41 | A placeholder, from either constructor, always has size 0. |
| Backend.PlaceholderApply | src/biodynamo/core/backend.h:43-70 | Every access and mutation of a placeholder throws `logic_error("Unsupported operation!")`. |
| Backend.NewDefault | src/biodynamo/core/backend.h:84 | The default constructor holds the value-initialised element at every index. |
| Backend.FromValue | src/biodynamo/core/backend.h:86-87 | The value constructors hold the value at every index. |
| Backend.FromList | src/biodynamo/core/backend.h:88 | The initializer-list constructor holds the list's first element at every index. |
| Backend.Size | src/biodynamo/core/backend.h:91 | A one-element array's size is always 1. |
| Backend.Get | src/biodynamo/core/backend.h:93-95 | Reads the single element whatever the index; `EveryIndexIsTheElement` states that all indices agree. |
| Backend.Set | src/biodynamo/core/backend.h:93-95 | A write through any index is seen through every index. |
| Backend.EveryIndexIsTheElement | src/biodynamo/core/backend.h:93-95 | All indices denote the same element. |
| Backend.Elements | src/biodynamo/core/backend.h:121-125 | `begin()` to `end()` spans exactly one element, the one every index denotes. |
| Backend.ArrayPushBack | src/biodynamo/core/backend.h:105-107 | `push_back` on a one-element array throws `logic_error`. |
| Backend.ArrayPopBack | src/biodynamo/core/backend.h:117-119 | `pop_back` on a one-element array throws `logic_error`. |
| SimulationObjects.NewSoData | src/simulation_object.h:42-47 | The new entry's index is the old storage length. All three vectors grow by one, the entry is box 0, element 0 and no modules, and existing entries are kept. |
| SimulationObjects.GetElementIdx | src/simulation_object.h:72-74 | Returns the object's element index from the shared storage; `GetSoHandle` returns the same number. `SetElementIdx` states what it reads after a write. |
| SimulationObjects.GetBoxIdx | src/simulation_object.h:110 | Returns the object's grid box index from the shared storage; `SetBoxIdx` states what it reads after a write. |
| SimulationObjects.BiologyModules | src/simulation_object.h:51-55 | Returns the object's module list from the shared storage; `AddBiologyModule` and `AddedModulesRunInOrder` state how it grows. |
| SimulationObjects.SetElementIdx | src/simulation_object.h:72-77 | The element index read back is the one set; only this object's entry changes. |
| SimulationObjects.SetBoxIdx | src/simulation_object.h:110-112 | The box index read back is the one set; only this object's entry changes. |
| SimulationObjects.AddBiologyModule | src/simulation_object.h:117-119 | The module is appended at the end of this object's list; nothing else changes. |
| SimulationObjects.RunBiologyModules | src/simulation_object.h:122-126 | The modules run are exactly this object's list, in list order. |
| SimulationObjects.AddAll | src/simulation_object.h:117-119 | Adding several modules changes no other object's entry and keeps this object's box and element indices. |
| SimulationObjects.AddedModulesRunInOrder | src/simulation_object.h:117-126 | Modules added one after another follow the existing ones, in the order added. |
| SimulationObjects.NewObjectRunsAddedModules | src/simulation_object.h:117-126 | A new object given modules `ms` runs exactly `ms`, in order. |
| SimulationObjects.UpdateReference | src/simulation_object.h:93-100 | A reference whose index is a key of the updates takes the mapped index; any other reference is left unchanged. |
| SimulationObjects.UpdateReferenceFollowsRemove | src/simulation_object.h:93-100 | After a removal from the resource manager, the update "last slot to freed slot" gives every other object on that node its new index. |
| Cells.NewCellData | src/cell.h:52-60 | The new entry's index is the old storage length. All six vectors grow by one, the entry is all zero, and existing entries are kept. |
| Cells.GetPosition | src/cell.h:270 | Reads the position of the cell's own entry, the same field the division's `FieldsAt` view and the setters' contracts speak of. |
| Cells.GetVolume | src/cell.h:276 | Reads the volume of the cell's own entry, the same field the division's `FieldsAt` view and the setters' contracts speak of. |
| Cells.ReadBackAfterSet | src/cell.h:270-296 | A position or volume set through the setter is read back by the getter, and every other cell reads as before. |
| Cells.GetMass | src/cell.h:266 | The mass is density times volume: with a non-zero volume, dividing the mass by the volume gives back the density. |
| Cells.SetPosition | src/cell.h:294-296 | The position read back is the one set; no other field or cell changes. |
| Cells.SetVolume | src/cell.h:285-288 | The volume is set and the diameter follows from it; no other field or cell changes. |
| Cells.GetDensity | src/cell.h:268 | Reads the density of the cell's own entry, the field the division's `FieldsAt` view and `SetDensity`'s contract speak of. |
| Cells.GetAdherence | src/cell.h:262 | Reads the adherence of the cell's own entry, the field the division's `FieldsAt` view and `SetAdherence`'s contract speak of. |
| Cells.SetDensity | src/cell.h:292 | The density read back is the one set; no other field or cell changes. |
| Cells.SetAdherence | src/cell.h:278 | The adherence read back is the one set; no other field or cell changes. |
| Cells.SetMass | src/cell.h:290 | With a non-zero volume, the mass read back is the mass set, and volume and position are kept. |
| Cells.SetMassOfOwnMassIsIdentity | src/cell.h:266-290 | Setting the mass a cell already has changes nothing. |
| Cells.UpdatePosition | src/cell.h:323-327 | The position moves by exactly the given delta; no other field or cell changes. |
| Cells.UpdatePositionComposes | src/cell.h:323-327 | Two moves equal one move by their sum, and moving back by the same delta restores the storage. |
| Cells.NewEntries | src/cell.h:347 | A new cell gets a fresh simulation-object entry and a fresh all-zero cell entry. |
| Cells.NewCell | src/cell.h:101-103 | `Cell()` has density 1 and every other field zero. |
| Cells.NewCellAt | src/cell.h:104-107 | `Cell(position)` has the given position, density 1 and every other field zero. |
| Cells.DivisionSplit | src/cell.h:137-146 | The two volumes add up to the mother's and stand in the volume ratio. The displacements add up to a quarter of the radius and stand in the same ratio, so each centre moves inversely to its volume. |
| Cells.SplitFacts | src/cell.h:137-146 | The algebra of the two quotients: the daughter's share and the mother's displacement are the ratio times their counterparts. |
| Cells.WeightedShift | src/cell.h:148-166 | Moving two volumes apart in inverse proportion keeps their volume-weighted sum, per coordinate. |
| Cells.MomentKept | src/cell.h:148-169 | Moving mother and daughter apart along the axis in inverse proportion to their volumes keeps the volume-weighted centre. |
| Cells.Separation | src/cell.h:124-166 | With the axis already scaled by the total length and `d_1 + d_2` equal to it, the centres end up the total length squared apart along the direction. |
| Cells.DivisionFields | src/cell.h:118-173 | After division the volumes add up to the mother's and the volume-weighted centre is unchanged. The centres lie `total * total` apart along the direction. The daughter inherits adherence and density. |
| Cells.DivideCells | src/cell.h:141-173 | The setter calls of the division write exactly the mother and daughter entries of `DivisionFields`, and no other cell. |
| Cells.Divide | src/cell.h:111-175 | Division creates a fresh daughter with the split entries, the copied modules and the mother's box index. The mother's other data is kept. The object storage grows by exactly one entry and every existing object's entry, the mother's included, is unchanged. |

## Left out

- Memory management is not modelled: `delete` of simulation objects, diffusion grids, random generators and execution contexts, and pointer identity beyond uids and storage indices.
- `libnuma` calls are not modelled. The NUMA node count is a parameter of `ResourceManager.Empty` and `Simulation.Create`.
- `SortAndBalanceNumaNodes`, `ApplyOnAllElementsParallel` and `ApplyOnAllElementsParallelDynamic` are declared in the resource manager's header but defined elsewhere. OpenMP scheduling and the OpenCL members are not modelled either.
- The per-object pass of `Scheduler.Execute` and `Scheduler.Initialize` runs in parallel. It is modelled as a map from uid to that object's operations, with no order between objects.
- `ResourceManager.ApplyOnAllElements` models the overload that passes handles. The overload without handles visits objects in the same order and receives the first components of the same calls.
- `ApplyOnAllDiffusionGrids` is not modelled: it visits the grids in the unspecified order of a hash map. `GetDiffusionGridByName` takes that order as a parameter.
- `Reserve` is not modelled: it only changes capacities and has no observable effect on contents.
- `CommitChangesAndUpdateReferences` has an empty body. It appears only as the `CommitChanges` stage.
- The grid, diffusion, physics, bound-space and biology operations are defined outside the modelled files. They are uninterpreted stages.
- `Scheduler.Backup`, the statistics timers, visualisation, the configuration file, environment checks and the `mkdir` of the output directory are I/O and are left out.
- `CopyBiologyModules`, `BiologyModuleEventHandler` and what a biology module does when it runs are defined outside the modelled files. The modules copied to a daughter are a parameter of `Cells.Divide`.
- The trigonometry of the division axis is not modelled: it enters `Cells.Divide` as a `direction` vector.
- `UpdateDiameter`'s cube root and π are not modelled: they enter as a `diameterOf` function.
- `UpdateVolume`, `ChangeVolume` and `TransformCoordinatesGlobalToPolar` are floating-point geometry and are left out.
- The random choice of the volume ratio and angles in the `Divide` overloads is left out.
- Doubles are exact reals: rounding and IEEE infinities and NaNs are not modelled.
- Uid generation is defined outside the modelled files; uids are given.
- Simulation's `GetRandom` and `GetExecutionContext` index by OpenMP thread number and are left out.
- ResourceManager.PushBack: requires the NUMA node to exist and the node to hold fewer than 2^32 objects. `ResourceManager::push_back` indexes without a check and would truncate the element index.
- ResourceManager.GetSimObject: requires the uid to be contained, as the debug assertion of `ResourceManager::GetSimObject` does; release builds would read through a default-inserted handle.
- Scheduler.Execute: requires at least one simulation object, as the debug assertion of `Scheduler::Execute` does.
- Scheduler.Simulate: uses a loop counter as wide as the step count. The 32-bit counter of `Scheduler::Simulate` is modelled separately; see Findings.
- Simulation.CreateMany: the shared 64-bit counter is unbounded here, so its wrap-around after 2^64 simulations is not modelled.
- Scheduler.Simulate: the 64-bit `total_steps_` is likewise unbounded.
- FixedSizeVectors.Increment: works on unbounded integers, so overflow of the element type is not modelled.
- FixedSizeVectors.PushBack: requires `size < N`, as the debug assertion of `FixedSizeVector::push_back` does; release builds would write out of bounds.
- Backend.FromList: requires a non-empty list, since the C++ constructor dereferences the list's first element.
- Cells.SetMass: requires a non-zero volume. `Cell::SetMass` would divide by zero and store an IEEE infinity or NaN.
- Cells.Divide: assumes that `CopyBiologyModules` leaves the mother's module list unchanged, so the contract states that the mother's storage entry is kept. `CopyBiologyModules` receives the mother's list through a non-const pointer and is defined outside the modelled files. A version that edits the mother's list is not covered.
- ResourceManager.GetNumSimObjects: requires the node to be -1 or an existing NUMA node. `ResourceManager::GetNumSimObjects` indexes `sim_objects_[numa_node]` without a check, so any other node is undefined behaviour.
- Cells.DivisionSplit: requires the volume ratio not to be -1, for the same reason. The same holds for Cells.DivisionFields, Cells.DivideCells and Cells.Divide.

## Findings

| source | as written | input that shows it | evidently intended | confidence | as-written member | corrected member |
|---|---|---|---|---|---|---|
| src/scheduler.cc:47 | The loop counter `step` is a 32-bit `unsigned` compared against the 64-bit `steps`; at 2^32 - 1 it wraps to 0. | `Simulate(4294967296)`: the loop never exits. | The loop runs exactly `steps` times for every 64-bit `steps`. | high (not executed) | Scheduler.AsWrittenNeverExitsFromTwoToThe32 | Scheduler.Simulate |
| src/core/resource_manager.h:197 | `GetDiffusionGrid(id)` asserts that the id is below the number of registered grids. | A registry holding only substance id 7: looking up 7 fails the assertion. | Lookup succeeds for every registered id; ids are chosen by the user and need not be dense. | medium (not executed) | DiffusionGrids.AsWrittenRejectsRegisteredGrid | DiffusionGrids.GetDiffusionGrid |
