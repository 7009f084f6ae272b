/**
 * Whole collection cycles: the program's own demonstration replayed on the
 * model, the same demonstration with the reclaiming sweep, a cyclic graph, and
 * what one mark phase from a clean heap followed by a sweep leaves behind.
 */
module Scenarios {
  import opened Reachability
  import opened RegistryFilter
  import opened GarbageCollection

  /**
   * The references the demonstration builds, with the objects numbered in
   * allocation order: map 0, map2 1, frame 2, keypoint1 3, keypoint2 4;
   * map refers to frame, frame to both keypoints.
   */
  function MainGraph(): Graph
  {
    map[0 := [2], 2 := [3, 4]]
  }

  /** Marking from map and then from map2 marks all five objects. */
  lemma MainRootsMarkEverything()
    ensures MarkedAfter(MarkedAfter(Clear(5), MainGraph(), 0), MainGraph(), 1) == [true, true, true, true, true]
  {
    var g, m0 := MainGraph(), Clear(5);
    assert Succ(g, 0) == [2] && Succ(g, 2) == [3, 4];
    Edge(g, m0, 0, 2);
    Edge(g, m0, 2, 3);
    Edge(g, m0, 2, 4);
    ReachTransitive(g, m0, 0, 2, 3);
    ReachTransitive(g, m0, 0, 2, 4);
  }

  /** Marking from map does not reach map2, so marking from map2 afterwards succeeds. */
  lemma MapDoesNotReachMap2()
    ensures !MarkedAfter(Clear(5), MainGraph(), 0)[1]
  {
    MarkFromClearIsReachable(MainGraph(), 5, 0, 1);
    if Reachable(MainGraph(), 0, 1) {
      ReachableStaysInClosedSet(MainGraph(), {0, 2, 3, 4}, 0, 1);
    }
  }

  /**
   * As written, the sweep after the demonstration's mark phase keeps none of
   * the five objects and destroys all of them, the two roots included.
   */
  lemma SweepAsWrittenDestroysRoots()
    ensures var m := MarkedAfter(MarkedAfter(Clear(5), MainGraph(), 0), MainGraph(), 1);
            WithFlag([0, 1, 2, 3, 4], m, false) == [] &&
            WithFlag([0, 1, 2, 3, 4], m, true) == [0, 1, 2, 3, 4]
  {
    MainRootsMarkEverything();
    WithFlagAll([0, 1, 2, 3, 4], [true, true, true, true, true], true);
  }

  /**
   * One collection cycle from a heap with no marks and one root `r`: the
   * entries whose flag ends up set are exactly the registered objects
   * reachable from `r`, and those whose flag stays clear exactly the others.
   * So the reclaiming sweep keeps precisely the reachable objects, and the
   * sweep as written keeps precisely the unreachable ones.
   */
  lemma OneCycleSplitsRegistry(objs: seq<nat>, g: Graph, n: nat, r: nat, o: nat)
    requires Within(g, n) && r < n && AllIn(objs, Clear(n))
    ensures var m := MarkedAfter(Clear(n), g, r);
            AllIn(objs, m) &&
            (o in WithFlag(objs, m, true) <==> o in objs && Reachable(g, r, o)) &&
            (o in WithFlag(objs, m, false) <==> o in objs && !Reachable(g, r, o))
  {
    var m := MarkedAfter(Clear(n), g, r);
    assert AllIn(objs, m);
    WithFlagMember(objs, m, true, o);
    WithFlagMember(objs, m, false, o);
    if o < n {
      MarkFromClearIsReachable(g, n, r, o);
    }
  }

  /** Marking the same unmarked object twice in a row: the first call succeeds, the second is reported. */
  method MarkTwice(gc: GarbageCollector, x: nat) returns (first: ObjStatus, second: ObjStatus)
    requires gc.Valid() && x < |gc.heap.marked| && !gc.heap.marked[x]
    modifies gc.heap
    ensures first == Success && second == AlreadyMarked
    ensures gc.heap.marked == MarkedAfter(old(gc.heap.marked), gc.references, x)
  {
    first := gc.MarkObj(Addr(x));
    second := gc.MarkObj(Addr(x));
  }

  /** Two sweeps with no mark between them: the second changes nothing. */
  method SweepTwice(gc: GarbageCollector) returns (first: ObjStatus, second: ObjStatus)
    requires gc.Valid()
    modifies gc, gc.heap
    ensures first == Success && second == Success
    ensures gc.registry == WithFlag(old(gc.registry), old(gc.heap.marked), false)
    ensures gc.destroyed == old(gc.destroyed) + WithFlag(old(gc.registry), old(gc.heap.marked), true)
    ensures gc.heap.marked == old(gc.heap.marked) && gc.references == old(gc.references)
  {
    first := gc.Sweep();
    second := gc.Sweep();
    WithFlagIdempotent(old(gc.registry), old(gc.heap.marked), false);
  }

  /** Allocates `n` objects in a new heap; all start unmarked. */
  method NewHeap(n: nat) returns (heap: ObjectHeap)
    ensures fresh(heap) && heap.marked == Clear(n)
  {
    heap := new ObjectHeap();
    for i := 0 to n
      invariant heap.marked == Clear(i)
    {
      var _ := heap.New();
    }
  }

  /** Registers the objects `0 .. n - 1` in order. */
  method RegisterAll(gc: GarbageCollector, n: nat)
    requires gc.Valid() && gc.registry == [] && |gc.heap.marked| == n
    modifies gc
    ensures gc.Valid() && gc.registry == seq(n, i => i)
    ensures gc.references == old(gc.references) && gc.destroyed == old(gc.destroyed)
  {
    for i := 0 to n
      invariant gc.Valid() && gc.registry == seq(i, j => j)
      invariant gc.references == old(gc.references) && gc.destroyed == old(gc.destroyed)
    {
      var _ := gc.AddObj(Addr(i));
    }
  }

  /** Adds the reference `from -> to` to an object that has none yet. */
  method AddFirstReference(gc: GarbageCollector, from: nat, to: nat)
    requires gc.Valid() && from < |gc.heap.marked| && to < |gc.heap.marked| && from !in gc.references
    modifies gc
    ensures gc.Valid() && gc.registry == old(gc.registry) && gc.destroyed == old(gc.destroyed)
    ensures gc.references == old(gc.references)[from := [to]]
  {
    assert Succ(gc.references, from) + [to] == [to];
    var s := gc.AddReference(Addr(from), Addr(to));
  }

  /** Adds the demonstration's three references to a collector with none yet. */
  method AddMainReferences(gc: GarbageCollector)
    requires gc.Valid() && |gc.heap.marked| == 5 && gc.references == map[]
    modifies gc
    ensures gc.Valid() && gc.registry == old(gc.registry) && gc.destroyed == old(gc.destroyed)
    ensures gc.references == MainGraph()
  {
    AddFirstReference(gc, 0, 2);
    AddFirstReference(gc, 2, 3);
    assert Succ(gc.references, 2) == [3];
    var s := gc.AddReference(Addr(2), Addr(4));
    assert [3] + [4] == [3, 4];
  }

  /** Allocates and registers the demonstration's five objects and its three references. */
  method BuildMain() returns (gc: GarbageCollector)
    ensures fresh(gc) && fresh(gc.heap) && gc.Valid()
    ensures gc.heap.marked == Clear(5) && gc.destroyed == []
    ensures gc.registry == [0, 1, 2, 3, 4] && gc.references == MainGraph()
  {
    var heap := NewHeap(5);
    gc := new GarbageCollector(heap);
    RegisterAll(gc, 5);
    assert seq(5, i => i) == [0, 1, 2, 3, 4];
    AddMainReferences(gc);
  }

  /** Marks from map and then from map2, as the demonstration does; both calls succeed. */
  method MarkMainRoots(gc: GarbageCollector) returns (fromMap: ObjStatus, fromMap2: ObjStatus)
    requires gc.Valid() && gc.heap.marked == Clear(5) && gc.references == MainGraph()
    modifies gc.heap
    ensures fromMap == Success && fromMap2 == Success
    ensures gc.Valid() && gc.heap.marked == [true, true, true, true, true]
    ensures gc.destroyed == old(gc.destroyed)
  {
    fromMap := gc.MarkObj(Addr(0));
    MapDoesNotReachMap2();
    fromMap2 := gc.MarkObj(Addr(1));
    MainRootsMarkEverything();
  }

  /**
   * The demonstration as written: after marking from map and map2, the first
   * sweep destroys all five objects, the roots among them, and the second
   * finds nothing left.
   */
  method MainScenario() returns (gc: GarbageCollector, afterFirst: seq<nat>, afterSecond: seq<nat>)
    ensures afterFirst == [] && afterSecond == []
    ensures gc.destroyed == [0, 1, 2, 3, 4]
  {
    gc := BuildMain();
    var _, _ := MarkMainRoots(gc);
    WithFlagAll([0, 1, 2, 3, 4], [true, true, true, true, true], true);
    var s := gc.Sweep();
    afterFirst := gc.registry;
    s := gc.Sweep();
    afterSecond := gc.registry;
  }

  /**
   * The demonstration with the reclaiming sweep: the first sweep keeps all
   * five objects and clears their flags; with no root marked again, the
   * second sweep destroys them all.
   */
  method MainScenarioReclaiming() returns (gc: GarbageCollector, afterFirst: seq<nat>, afterSecond: seq<nat>)
    ensures afterFirst == [0, 1, 2, 3, 4] && afterSecond == []
    ensures gc.destroyed == [0, 1, 2, 3, 4]
  {
    gc := BuildMain();
    var _, _ := MarkMainRoots(gc);
    WithFlagAll([0, 1, 2, 3, 4], [true, true, true, true, true], true);
    var s := gc.SweepReclaimingUnmarked();
    afterFirst := gc.registry;
    assert gc.destroyed == [];
    forall x | 0 <= x < 5 ensures !gc.heap.marked[x] {
      assert x in [0, 1, 2, 3, 4];
    }
    assert gc.heap.marked == Clear(5);
    WithFlagAll([0, 1, 2, 3, 4], Clear(5), false);
    s := gc.SweepReclaimingUnmarked();
    afterSecond := gc.registry;
  }

  /**
   * A rooted cycle a -> b -> c -> a, an unrooted cycle d <-> e and an object f
   * that refers to itself: a = 0, b = 1, c = 2, d = 3, e = 4, f = 5.
   */
  function CycleGraph(): Graph
  {
    map[0 := [1], 1 := [2], 2 := [0], 3 := [4], 4 := [3], 5 := [5]]
  }

  /** From a, nothing outside the rooted cycle is reachable. */
  lemma OnlyRootedCycleReachable(x: nat)
    requires 3 <= x
    ensures !Reachable(CycleGraph(), 0, x)
  {
    var g := CycleGraph();
    assert Succ(g, 0) == [1] && Succ(g, 1) == [2] && Succ(g, 2) == [0];
    if Reachable(g, 0, x) {
      ReachableStaysInClosedSet(g, {0, 1, 2}, 0, x);
    }
  }

  /** Marking from a marks b and c. */
  lemma MarkFromAReachesCycle()
    ensures MarkedAfter(Clear(6), CycleGraph(), 0)[1] && MarkedAfter(Clear(6), CycleGraph(), 0)[2]
  {
    var g, m0 := CycleGraph(), Clear(6);
    assert Succ(g, 0) == [1] && Succ(g, 1) == [2];
    Edge(g, m0, 0, 1);
    Edge(g, m0, 1, 2);
    ReachTransitive(g, m0, 0, 1, 2);
  }

  /** Marking from a leaves d, e and f unmarked. */
  lemma MarkFromASparesRest(x: nat)
    requires 3 <= x < 6
    ensures !MarkedAfter(Clear(6), CycleGraph(), 0)[x]
  {
    OnlyRootedCycleReachable(x);
    MarkFromClearIsReachable(CycleGraph(), 6, 0, x);
  }

  /** Marking from a reaches the rooted cycle and nothing else. */
  lemma MarkFromA()
    ensures MarkedAfter(Clear(6), CycleGraph(), 0) == [true, true, true, false, false, false]
  {
    MarkFromAReachesCycle();
    MarkFromASparesRest(3);
    MarkFromASparesRest(4);
    MarkFromASparesRest(5);
  }

  /** With the rooted cycle marked, the registry splits into it and the rest. */
  lemma CycleSweepSplits()
    ensures var m := [true, true, true, false, false, false];
            WithFlag([0, 1, 2, 3, 4, 5], m, true) == [0, 1, 2] &&
            WithFlag([0, 1, 2, 3, 4, 5], m, false) == [3, 4, 5]
  {
    var m := [true, true, true, false, false, false];
    assert [0, 1, 2, 3, 4, 5] == [0, 1, 2] + [3, 4, 5];
    WithFlagAppend([0, 1, 2], [3, 4, 5], m, true);
    WithFlagAppend([0, 1, 2], [3, 4, 5], m, false);
    WithFlagAll([0, 1, 2], m, true);
    WithFlagAll([3, 4, 5], m, false);
  }

  /** Adds the rooted cycle a -> b -> c -> a to a collector with no references yet. */
  method AddRootedCycle(gc: GarbageCollector)
    requires gc.Valid() && |gc.heap.marked| == 6 && gc.references == map[]
    modifies gc
    ensures gc.Valid() && gc.registry == old(gc.registry) && gc.destroyed == old(gc.destroyed)
    ensures gc.references == map[0 := [1], 1 := [2], 2 := [0]]
  {
    AddFirstReference(gc, 0, 1);
    AddFirstReference(gc, 1, 2);
    AddFirstReference(gc, 2, 0);
  }

  /** Adds the unrooted cycle d <-> e and the self-reference of f to the rooted cycle. */
  method AddUnrootedCycles(gc: GarbageCollector)
    requires gc.Valid() && |gc.heap.marked| == 6 && gc.references == map[0 := [1], 1 := [2], 2 := [0]]
    modifies gc
    ensures gc.Valid() && gc.registry == old(gc.registry) && gc.destroyed == old(gc.destroyed)
    ensures gc.references == CycleGraph()
  {
    AddFirstReference(gc, 3, 4);
    AddFirstReference(gc, 4, 3);
    AddFirstReference(gc, 5, 5);
  }

  /**
   * Allocates and registers the six objects of the cyclic example and its
   * references; a reference from null is refused and changes nothing.
   */
  method BuildCycles() returns (gc: GarbageCollector, fromNull: ObjStatus)
    ensures fromNull == Failure
    ensures fresh(gc) && fresh(gc.heap) && gc.Valid()
    ensures gc.heap.marked == Clear(6) && gc.destroyed == []
    ensures gc.registry == [0, 1, 2, 3, 4, 5] && gc.references == CycleGraph()
  {
    var heap := NewHeap(6);
    gc := new GarbageCollector(heap);
    RegisterAll(gc, 6);
    assert seq(6, i => i) == [0, 1, 2, 3, 4, 5];
    AddRootedCycle(gc);
    AddUnrootedCycles(gc);
    fromNull := gc.AddReference(Null, Addr(0));
  }

  /**
   * Marking from a terminates on the cycles, marks a, b and c, and a second
   * mark from a is reported; the reclaiming sweep destroys d, e and f.
   */
  method CycleScenario() returns (gc: GarbageCollector, first: ObjStatus, second: ObjStatus)
    ensures first == Success && second == AlreadyMarked
    ensures gc.registry == [0, 1, 2] && gc.destroyed == [3, 4, 5]
  {
    var refused;
    gc, refused := BuildCycles();
    first := gc.MarkObj(Addr(0));
    second := gc.MarkObj(Addr(0));
    MarkFromA();
    assert gc.heap.marked == [true, true, true, false, false, false];
    CycleSweepSplits();
    var s := gc.SweepReclaimingUnmarked();
  }
}
