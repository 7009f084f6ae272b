# Mark-and-sweep collector over an explicit object graph

This project models the `GarbageCollector` of `garbage_collector.cpp`, a small
mark-and-sweep collector, in Dafny. The collector keeps three things:

- a registry (`vecOfObj`): an ordered list of the objects it owns, which may repeat;
- a reference graph (`refrences`): for each object, the ordered list of objects it
  refers to, with duplicates and cycles allowed;
- one `marked` flag per collectable object.

It offers four operations:

- `addObj` registers an object;
- `addRefrences` adds an edge;
- `markObj` marks recursively, depth first, from a root;
- `sweep` walks the registry and deletes and erases entries in place.

Objects are addresses into an arena. `ObjectHeap` holds the flags as a `seq<bool>`
indexed by address. A pointer is `Null` or `Addr(n)`. The collector is a class
with these fields:

- `registry: seq<nat>`;
- `references: map<nat, seq<nat>>`, where a missing key means no references;
- a ghost `destroyed` log, which records the objects whose destructors ran, in order.

Files:

- `reachability.dfy` (module `Reachability`): graphs, paths, and `MarkedAfter`.
  `MarkedAfter` says what one marking call leaves behind: every object that the
  root reaches through objects still unmarked gets set. The module also holds the
  lemmas about marking.
- `registry_filter.dfy` (module `RegistryFilter`): `WithFlag`, the order-keeping
  filter of the registry by flag, and the state of a sweep that is part way
  through the registry.
- `collector.dfy` (module `GarbageCollection`): the `ObjectHeap` and
  `GarbageCollector` classes and their methods.
- `scenarios.dfy` (module `Scenarios`): the program's `main`, replayed in two
  forms. The first uses the sweep as written. The second uses the sweep that
  mark-and-sweep intends. It also holds a graph with a rooted cycle, an unrooted
  cycle and a self-reference.

## Model

| member | source | states |
|---|---|---|
| GarbageCollection.ObjectHeap.New | garbage_collector.cpp:12 | a new object gets the next address and starts unmarked; no other flag changes |
| GarbageCollection.ObjectHeap.Mark | garbage_collector.cpp:16 | sets exactly the flag of `obj` |
| GarbageCollection.ObjectHeap.Unmark | garbage_collector.cpp:18 | clears exactly the flag of `obj` |
| GarbageCollection.ObjectHeap.GetMarked | garbage_collector.cpp:20 | returns the flag of `obj` and changes nothing |
| GarbageCollection.GarbageCollector.constructor | garbage_collector.cpp:94-96 | a new collector has an empty registry, no references and has deleted nothing |
| GarbageCollection.GarbageCollector.MarkObj | garbage_collector.cpp:55-63 | A null root gives Failure and leaves the flags unchanged. A marked root gives AlreadyMarked and leaves the flags unchanged. Otherwise the call gives Success. The flags become exactly `MarkedAfter`: the old flags plus every object the root reaches through unmarked objects. Every newly marked object has all its references marked. The method terminates because the set of unmarked objects shrinks. Only the heap is modified. |
| GarbageCollection.GarbageCollector.AddObj | garbage_collector.cpp:65-71 | A null pointer gives Failure and leaves the registry unchanged. Otherwise the call gives Success and the object is appended to the registry, duplicates allowed. References are unchanged. |
| GarbageCollection.GarbageCollector.AddReference | garbage_collector.cpp:73-80 | A null end gives Failure and changes nothing. Otherwise the call gives Success and `to` is appended to `from`'s list, with no duplicate or cycle check. Every other object's list is unchanged. |
| GarbageCollection.GarbageCollector.EraseWhere | garbage_collector.cpp:83-90 | The in-place cursor walk leaves exactly the entries whose flag equals `keep`, in order. It deletes exactly the others, in order. |
| GarbageCollection.GarbageCollector.Sweep | garbage_collector.cpp:82-92 | Always gives Success. The registry becomes the old one filtered to entries whose flag is clear, in order. The entries whose flag is set are appended to `destroyed`. Flags and references are unchanged. |
| GarbageCollection.GarbageCollector.UnmarkRegistered | garbage_collector.cpp:18 | clears the flag of every registered object and of nothing else |
| GarbageCollection.GarbageCollector.SweepReclaimingUnmarked | garbage_collector.cpp:82-92 | The corrected sweep. The registry keeps exactly the marked entries, in order. The unmarked entries are destroyed. Afterwards a flag is set exactly when it was set and its object is unregistered. |
| Reachability.MarkedAfter | garbage_collector.cpp:55-63 | marking only sets flags, always sets the root, and sets nothing the root does not reach through unmarked objects |
| Reachability.VisitStart | garbage_collector.cpp:58 | once the unmarked root is marked, the depth-first visit of it is under way |
| Reachability.VisitChild | garbage_collector.cpp:59-61 | a visit stays consistent after marking one child, and that child becomes marked |
| Reachability.VisitEnd | garbage_collector.cpp:62 | after all children are visited, the flags equal `MarkedAfter` from the root and the marking is closed under references |
| Reachability.ClosedMarksReachable | garbage_collector.cpp:57-61 | a marking closed under references that sets the root sets everything the root reaches through unmarked objects |
| Reachability.MarkedRootMarksNothing | garbage_collector.cpp:57 | marking from an already marked root changes no flag |
| Reachability.MarkIdempotent | garbage_collector.cpp:57 | marking twice from the same root is the same as marking once |
| Reachability.MarkTwoRoots | garbage_collector.cpp:55-63 | Marking from `a` and then `b` sets exactly the old flags plus whatever either root reaches through objects unmarked at the start. |
| Reachability.MarkingCommutes | garbage_collector.cpp:55-63 | roots may be marked in any order with the same resulting flags |
| Reachability.MarkFromClearIsReachable | garbage_collector.cpp:55-63 | from a heap with no marks, marking from `r` sets exactly the objects reachable from `r`, `r` included |
| Reachability.ReachableStaysInClosedSet | garbage_collector.cpp:59 | nothing outside a set of objects closed under references is reachable from inside it |
| Reachability.Succ | garbage_collector.cpp:59 | the references of an object are its list in the reference map, and an object without an entry has none (the lookup `refrences[root]`, which also serves the append at :75) |
| RegistryFilter.Flag | garbage_collector.cpp:84 | the test `getMarked()` of a registry entry: true only for an object of the heap whose flag is set |
| RegistryFilter.WithFlag | garbage_collector.cpp:84-89 | the entries of the registry whose flag equals the given one, in their order; never longer than the registry |
| RegistryFilter.WithFlagMember | garbage_collector.cpp:84-89 | an object survives the filter exactly when it is in the registry and its flag matches |
| RegistryFilter.WithFlagEntries | garbage_collector.cpp:84-89 | every surviving entry has the flag asked for and lies in the heap when the registry does |
| RegistryFilter.WithFlagAll | garbage_collector.cpp:84-89 | when every entry has the flag, the filter keeps all of them and its complement keeps none |
| RegistryFilter.WithFlagAppend | garbage_collector.cpp:83-90 | filtering keeps relative order: it distributes over concatenation |
| RegistryFilter.WithFlagStep | garbage_collector.cpp:84-89 | one more processed entry extends the filtered prefix by that entry or by nothing |
| RegistryFilter.WithFlagPartition | garbage_collector.cpp:84-89 | every entry is either kept or deleted, never both, with multiplicities |
| RegistryFilter.WithFlagIdempotent | garbage_collector.cpp:123-126 | filtering again keeps everything and deletes nothing, so a second sweep is a no-op |
| RegistryFilter.SweepStart | garbage_collector.cpp:83 | before the walk, nothing is processed and the registry is untouched |
| RegistryFilter.SweepStep | garbage_collector.cpp:84-89 | At the cursor, an entry with the kept flag is stepped over. Any other entry is erased at the cursor, and the cursor stays. Either way the invariant holds for one more processed entry. |
| RegistryFilter.SweepEnd | garbage_collector.cpp:83 | when the cursor reaches the end, the registry is the filtered old registry and the deleted entries are its complement |
| Scenarios.MarkTwice | garbage_collector.cpp:55-58 | marking an unmarked object twice gives Success and then AlreadyMarked |
| Scenarios.SweepTwice | garbage_collector.cpp:123-126 | two sweeps with no mark between them have the effect of one |
| Scenarios.NewHeap | garbage_collector.cpp:102-106 | allocating `n` objects gives `n` unmarked objects |
| Scenarios.RegisterAll | garbage_collector.cpp:108-112 | registering the objects in allocation order gives the registry `0 .. n - 1` |
| Scenarios.AddMainReferences | garbage_collector.cpp:115-117 | the three `addRefrences` calls build map -> frame, frame -> keypoint1 and frame -> keypoint2 |
| Scenarios.BuildMain | garbage_collector.cpp:100-117 | the demonstration's set-up gives five unmarked registered objects and its three references |
| Scenarios.MainRootsMarkEverything | garbage_collector.cpp:119-120 | marking from map and then map2 sets all five flags |
| Scenarios.MapDoesNotReachMap2 | garbage_collector.cpp:119-120 | marking from map leaves map2 unmarked, so marking from map2 succeeds |
| Scenarios.MarkMainRoots | garbage_collector.cpp:119-120 | both marking calls of the demonstration return Success and all five objects end up marked |
| Scenarios.SweepAsWrittenDestroysRoots | garbage_collector.cpp:123 | after the demonstration's marking, the sweep as written keeps nothing and deletes all five objects, the roots included |
| Scenarios.MainScenario | garbage_collector.cpp:99-129 | the demonstration as written: the first sweep empties the registry and deletes objects 0..4 in order; the second sweep finds nothing |
| Scenarios.MainScenarioReclaiming | garbage_collector.cpp:99-129 | With the corrected sweep, the first sweep keeps all five objects. The second sweep, with no new marks, deletes them all. |
| Scenarios.OneCycleSplitsRegistry | garbage_collector.cpp:84-89 | After one mark from a clean heap, an entry's flag is set exactly when it is reachable from the root. So the corrected sweep keeps exactly the reachable entries, and the sweep as written keeps exactly the unreachable ones. |
| Scenarios.OnlyRootedCycleReachable | garbage_collector.cpp:59-60 | from `a` in the cyclic graph, no object outside the rooted cycle is reachable |
| Scenarios.MarkFromA | garbage_collector.cpp:55-63 | marking from `a` terminates on the cycles and marks exactly a, b and c |
| Scenarios.CycleSweepSplits | garbage_collector.cpp:84-89 | with the rooted cycle marked, the registry splits into the rooted cycle and the rest |
| Scenarios.AddRootedCycle | garbage_collector.cpp:73-80 | three `addRefrences` calls build the cycle a -> b -> c -> a |
| Scenarios.AddUnrootedCycles | garbage_collector.cpp:73-80 | three more calls add d <-> e and f -> f |
| Scenarios.BuildCycles | garbage_collector.cpp:73-80 | Builds the cyclic example. A reference from null returns Failure and leaves the graph unchanged. |
| Scenarios.CycleScenario | garbage_collector.cpp:55-63 | Marking from `a` succeeds, and a second mark is reported as AlreadyMarked. The corrected sweep keeps a, b and c and deletes d, e and f. |

## Left out

- Output: destructor output to standard output (garbage_collector.cpp:29, 38, 47) and the two progress messages in `main`. Deleting an object is recorded in the ghost `destroyed` log instead.
- Memory: memory freeing and virtual destructor dispatch. The memory of a deleted object is not modelled, so its flag stays readable. A use after free (marking or sweeping a deleted object) is not detected.
- Object kinds: the `Keypoint`, `Frame` and `Map` subclasses (garbage_collector.cpp:26-51) add only an `id` and a printing destructor. The model has one object kind, identified by address.
- Dangling references: references to deleted objects stay in the graph, as in the code. A textbook mark-and-sweep would also drop a reclaimed object's references, both its own list and the entries of other lists that point at it. The code never does this, and neither does either sweep in this model.
- Duplicate registration: `vecOfObj` may register the same object twice. The code would then delete it twice. The model logs two entries in `destroyed` and does not model the double `delete`.
- Key insertion at :59: `refrences[root]` inserts an empty list for a root that has none. This is observationally the same as a missing key, which `Succ` reads as no references.
- Other source files: custom_deleters.cpp, circular_references.cpp and std_to_boost.cpp are not part of this model. They demonstrate smart-pointer ownership idioms and have no collector state.
- Sweep: `Sweep` and `EraseWhere` run the cursor walk on a local copy of the registry and store the result at the end. The code erases from the vector in place. No object can observe the difference, because nothing else runs during the walk.
- Recursion depth: stack depth of the recursive `markObj` is not modelled.
- RegistryFilter.Flag: an address outside the heap reads as clear. This case cannot arise for a registry that lies in the heap, which every sweep requires.

## Findings

| source | as written | input that shows it | evidently intended | confidence | as-written member | corrected member |
|---|---|---|---|---|---|---|
| garbage_collector.cpp:84 | the sweep deletes the registered objects whose flag is set, keeps the unmarked ones, and never clears a survivor's flag | `main` (garbage_collector.cpp:99-129): after marking from map and map2, all five objects are marked, so the first sweep deletes all five, the roots included, and keeps nothing | reclaim the unmarked objects, keep the marked ones and clear their flags for the next cycle | not executed | GarbageCollection.GarbageCollector.Sweep, Scenarios.SweepAsWrittenDestroysRoots | GarbageCollection.GarbageCollector.SweepReclaimingUnmarked, Scenarios.OneCycleSplitsRegistry |
