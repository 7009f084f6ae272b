/**
 * A mark-and-sweep collector over an explicit object graph.
 *
 * Objects live in an `ObjectHeap`: an arena in which an object is its address
 * and carries one `marked` flag. A `GarbageCollector` keeps a registry of the
 * objects it is responsible for (an ordered list that may repeat) and the
 * references between objects (for each object, the ordered list of objects it
 * refers to). Marking sets the flags of everything reachable from a root;
 * sweeping deletes registry entries by their flag.
 */
module GarbageCollection {
  import opened Reachability
  import opened RegistryFilter

  /** What every collector operation reports. */
  datatype ObjStatus = Failure | Success | AlreadyMarked

  /** A pointer to a collectable object: null, or an address in the heap. */
  datatype Ptr = Null | Addr(addr: nat)

  /**
   * The collectable objects, by address, with their `marked` flags. The
   * memory of a deleted object is not modelled, so its flag stays readable.
   */
  class ObjectHeap {
    var marked: seq<bool>

    constructor ()
      ensures marked == []
    {
      marked := [];
    }

    /** Allocates an object; a new object starts unmarked. */
    method New() returns (p: Ptr)
      modifies this
      ensures p == Addr(|old(marked)|)
      ensures marked == old(marked) + [false]
    {
      p := Addr(|marked|);
      marked := marked + [false];
    }

    /** Sets the flag of `obj`. */
    method Mark(obj: nat)
      requires obj < |marked|
      modifies this
      ensures marked == old(marked)[obj := true]
    {
      marked := marked[obj := true];
    }

    /** Clears the flag of `obj`. */
    method Unmark(obj: nat)
      requires obj < |marked|
      modifies this
      ensures marked == old(marked)[obj := false]
    {
      marked := marked[obj := false];
    }

    /** Reads the flag of `obj`. */
    method GetMarked(obj: nat) returns (b: bool)
      requires obj < |marked|
      ensures b <==> marked[obj]
    {
      b := marked[obj];
    }
  }

  class GarbageCollector {
    const heap: ObjectHeap
    /** The objects the collector owns, in registration order; duplicates allowed. */
    var registry: seq<nat>
    /** For each object, the objects it refers to, in the order they were added. */
    var references: Graph
    /** The objects the collector has deleted, in the order their destructors ran. */
    ghost var destroyed: seq<nat>

    /** Every registered or referenced object is an object of the heap. */
    ghost predicate Valid()
      reads this, heap
    {
      AllIn(registry, heap.marked) && Within(references, |heap.marked|)
    }

    /** `p` is null or points into the heap. */
    ghost predicate Points(p: Ptr)
      reads heap
    {
      p.Null? || p.addr < |heap.marked|
    }

    /** The objects of the heap whose flag is clear. */
    ghost function UnmarkedObjects(): set<nat>
      reads heap
    {
      set x | 0 <= x < |heap.marked| && !heap.marked[x]
    }

    constructor (heap: ObjectHeap)
      ensures this.heap == heap && registry == [] && references == map[] && destroyed == []
      ensures Valid()
    {
      this.heap := heap;
      registry := [];
      references := map[];
      destroyed := [];
    }

    /**
     * Depth-first marking from `root`. A null root fails, a marked root is
     * reported and left alone; otherwise the root is marked before its
     * references are visited (which is what stops the recursion on cycles),
     * and the children's statuses are ignored. Each recursive call is made
     * with one more object marked, so the set of unmarked objects shrinks.
     */
    method MarkObj(root: Ptr) returns (status: ObjStatus)
      requires Valid() && Points(root)
      modifies heap
      decreases UnmarkedObjects()
      ensures Valid()
      ensures root.Null? ==> status == Failure && heap.marked == old(heap.marked)
      ensures root.Addr? && old(heap.marked)[root.addr] ==>
                status == AlreadyMarked && heap.marked == old(heap.marked)
      ensures root.Addr? && !old(heap.marked)[root.addr] ==> status == Success
      ensures root.Addr? ==> heap.marked == MarkedAfter(old(heap.marked), references, root.addr)
      ensures NewlyMarkedClosed(references, old(heap.marked), heap.marked)
    {
      if root.Null? {
        return Failure;
      }
      var r := root.addr;
      var isMarked := heap.GetMarked(r);
      if isMarked {
        MarkedRootMarksNothing(references, heap.marked, r);
        return AlreadyMarked;
      }
      ghost var m0 := heap.marked;
      VisitStart(references, m0, r);
      heap.Mark(r);
      var refs := Succ(references, r);
      for i := 0 to |refs|
        invariant Valid()
        invariant Visiting(references, m0, heap.marked, r)
        invariant forall j :: 0 <= j < i ==> heap.marked[refs[j]]
      {
        ghost var mi := heap.marked;
        assert refs[i] in Succ(references, r);
        assert UnmarkedObjects() < old(UnmarkedObjects()) by {
          assert Grows(m0, mi) && mi[r] && !m0[r] && m0 == old(heap.marked);
          assert r in old(UnmarkedObjects()) && r !in UnmarkedObjects();
          forall x | x in UnmarkedObjects() ensures x in old(UnmarkedObjects()) {
            assert !mi[x];
          }
        }
        var _ := MarkObj(Addr(refs[i]));
        VisitChild(references, m0, mi, heap.marked, r, refs[i]);
        forall j | 0 <= j <= i ensures heap.marked[refs[j]] {
          if j < i {
            assert mi[refs[j]];
          }
        }
      }
      VisitEnd(references, m0, heap.marked, r);
      return Success;
    }

    /** Registers `obj` at the end of the registry; null is refused. */
    method AddObj(obj: Ptr) returns (status: ObjStatus)
      requires Valid() && Points(obj)
      modifies this
      ensures Valid() && references == old(references) && destroyed == old(destroyed)
      ensures obj.Null? ==> status == Failure && registry == old(registry)
      ensures obj.Addr? ==> status == Success && registry == old(registry) + [obj.addr]
    {
      if obj.Null? {
        return Failure;
      }
      registry := registry + [obj.addr];
      return Success;
    }

    /**
     * Appends `to` to the references of `from`, without checking for
     * duplicates or cycles; a null end is refused.
     */
    method AddReference(from: Ptr, to: Ptr) returns (status: ObjStatus)
      requires Valid() && Points(from) && Points(to)
      modifies this
      ensures Valid() && registry == old(registry) && destroyed == old(destroyed)
      ensures (from.Null? || to.Null?) ==> status == Failure && references == old(references)
      ensures from.Addr? && to.Addr? ==>
                status == Success &&
                references == old(references)[from.addr := Succ(old(references), from.addr) + [to.addr]] &&
                Succ(references, from.addr) == Succ(old(references), from.addr) + [to.addr] &&
                forall k :: k != from.addr ==> Succ(references, k) == Succ(old(references), k)
    {
      if from.Addr? && to.Addr? {
        references := references[from.addr := Succ(references, from.addr) + [to.addr]];
        return Success;
      } else {
        return Failure;
      }
    }

    /**
     * The walk of a sweep over the registry: a cursor steps over every entry
     * whose flag equals `keep` and deletes and erases at the cursor every
     * other entry. Returns the registry as the walk leaves it and the deleted
     * objects in the order their destructors ran; the walk itself works on a
     * copy and changes nothing.
     */
    method EraseWhere(keep: bool) returns (reg: seq<nat>, ghost deleted: seq<nat>)
      requires AllIn(registry, heap.marked)
      ensures reg == WithFlag(registry, heap.marked, keep)
      ensures deleted == WithFlag(registry, heap.marked, !keep)
      ensures AllIn(reg, heap.marked)
    {
      ghost var objs, m := registry, heap.marked;
      ghost var k, kept := 0, [];
      var i := 0;
      reg, deleted := registry, [];
      SweepStart(objs, m, keep);
      while i < |reg|
        invariant SweptUpTo(objs, m, keep, k, kept, deleted, reg, i)
        decreases |objs| - k
      {
        SweepStep(objs, m, keep, k, kept, deleted, reg, i);
        var o := reg[i];
        var isMarked := heap.GetMarked(o);
        if isMarked == keep {
          i := i + 1;
          kept := kept + [o];
        } else {
          reg := reg[..i] + reg[i + 1..];
          deleted := deleted + [o];
        }
        k := k + 1;
      }
      SweepEnd(objs, m, keep, k, kept, deleted, reg, i);
    }

    /**
     * The sweep as the collector performs it: every registered object whose
     * flag is SET is deleted and erased, every one whose flag is clear stays.
     * Flags and references are left as they are.
     */
    method Sweep() returns (status: ObjStatus)
      requires Valid()
      modifies this
      ensures Valid() && status == Success
      ensures registry == WithFlag(old(registry), heap.marked, false)
      ensures destroyed == old(destroyed) + WithFlag(old(registry), heap.marked, true)
      ensures heap.marked == old(heap.marked) && references == old(references)
    {
      var reg;
      ghost var deleted;
      reg, deleted := EraseWhere(false);
      registry, destroyed := reg, destroyed + deleted;
      return Success;
    }

    /** Clears the flag of every registered object, leaving the other flags alone. */
    method UnmarkRegistered()
      requires AllIn(registry, heap.marked)
      modifies heap
      ensures AllIn(registry, heap.marked) && |heap.marked| == |old(heap.marked)|
      ensures forall x :: 0 <= x < |heap.marked| ==>
                (heap.marked[x] <==> old(heap.marked)[x] && x !in registry)
    {
      for j := 0 to |registry|
        invariant AllIn(registry, heap.marked) && |heap.marked| == |old(heap.marked)|
        invariant forall x :: 0 <= x < |heap.marked| ==>
                    (heap.marked[x] <==> old(heap.marked)[x] && x !in registry[..j])
      {
        heap.Unmark(registry[j]);
        assert registry[..j + 1] == registry[..j] + [registry[j]];
      }
      assert registry[..|registry|] == registry;
    }

    /**
     * The sweep that mark-and-sweep intends: every registered object whose
     * flag is CLEAR is deleted and erased, and then the survivors' flags are
     * reset so that the next cycle starts unmarked. The survivors are chosen
     * on the flags as they were before any reset, so an object registered
     * twice is kept or deleted as a whole.
     */
    method SweepReclaimingUnmarked() returns (status: ObjStatus)
      requires Valid()
      modifies this, heap
      ensures Valid() && status == Success && references == old(references)
      ensures registry == WithFlag(old(registry), old(heap.marked), true)
      ensures destroyed == old(destroyed) + WithFlag(old(registry), old(heap.marked), false)
      ensures |heap.marked| == |old(heap.marked)|
      ensures forall x :: 0 <= x < |heap.marked| ==>
                (heap.marked[x] <==> old(heap.marked)[x] && x !in old(registry))
    {
      ghost var objs, m := registry, heap.marked;
      var reg;
      ghost var deleted;
      reg, deleted := EraseWhere(true);
      registry, destroyed := reg, destroyed + deleted;
      UnmarkRegistered();
      forall x | 0 <= x < |heap.marked|
        ensures heap.marked[x] <==> m[x] && x !in objs
      {
        WithFlagMember(objs, m, true, x);
        assert Flag(m, x) == m[x];
      }
      return Success;
    }
  }
}
