/**
 * The reference graph of the collector and what marking does to it, as pure
 * definitions. Objects are addresses (`nat`); the flags of all objects are a
 * `seq<bool>` indexed by address; the graph maps an object to its ordered list
 * of outgoing references, an object without an entry having none.
 */
module Reachability {

  type Graph = map<nat, seq<nat>>

  /** The outgoing references of `x`: its list if it has one, otherwise none. */
  function Succ(g: Graph, x: nat): (s: seq<nat>)
    ensures x in g ==> s == g[x]
    ensures x !in g ==> s == []
  {
    if x in g then g[x] else []
  }

  /** Every object mentioned by `g`, as a source or as a target, is below `n`. */
  ghost predicate Within(g: Graph, n: nat)
  {
    forall k :: k in g ==> k < n && forall j :: 0 <= j < |g[k]| ==> g[k][j] < n
  }

  /** `p` is a non-empty walk along references. */
  ghost predicate IsPath(g: Graph, p: seq<nat>)
  {
    |p| > 0 && forall i :: 0 < i < |p| ==> p[i] in Succ(g, p[i - 1])
  }

  /** Every object of `p` exists under `m` and is unmarked there. */
  ghost predicate Unmarked(m: seq<bool>, p: seq<nat>)
  {
    forall i :: 0 <= i < |p| ==> p[i] < |m| && !m[p[i]]
  }

  /** `x` is reachable from `r` (with `r` itself included). */
  ghost predicate Reachable(g: Graph, r: nat, x: nat)
  {
    exists p :: IsPath(g, p) && p[0] == r && p[|p| - 1] == x
  }

  /** `x` is reachable from `r` along a path whose objects are all unmarked in `m`. */
  ghost predicate ReachableUnmarked(g: Graph, m: seq<bool>, r: nat, x: nat)
  {
    exists p :: IsPath(g, p) && Unmarked(m, p) && p[0] == r && p[|p| - 1] == x
  }

  /** `m'` keeps every flag that `m` sets: flags only go from false to true. */
  ghost predicate Grows(m: seq<bool>, m': seq<bool>)
  {
    |m'| == |m| && forall i :: 0 <= i < |m| && m[i] ==> m'[i]
  }

  /** Every object marked in `m'` but not in `m` has all its references marked in `m'`. */
  ghost predicate NewlyMarkedClosed(g: Graph, m: seq<bool>, m': seq<bool>)
  {
    forall x :: 0 <= x < |m'| && m'[x] && !(x < |m| && m[x]) ==>
      forall j :: 0 <= j < |Succ(g, x)| ==> Succ(g, x)[j] < |m'| && m'[Succ(g, x)[j]]
  }

  /** The flags of a heap of `n` objects none of which is marked. */
  function Clear(n: nat): (m: seq<bool>)
    ensures |m| == n && forall i :: 0 <= i < n ==> !m[i]
  {
    seq(n, i => false)
  }

  /**
   * The flags after marking from root `r` starting from flags `m`: depth-first
   * marking stops at marked objects, so it sets exactly the objects reachable
   * from `r` through objects still unmarked in `m`.
   */
  ghost function MarkedAfter(m: seq<bool>, g: Graph, r: nat): (m': seq<bool>)
    ensures Grows(m, m')
    ensures r < |m| ==> m'[r]
    ensures forall x :: 0 <= x < |m| && !m[x] && m'[x] ==> ReachableUnmarked(g, m, r, x)
  {
    assert r < |m| && !m[r] ==> IsPath(g, [r]) && Unmarked(m, [r]);
    seq(|m|, x requires 0 <= x < |m| => m[x] || ReachableUnmarked(g, m, r, x))
  }

  /** An unmarked path extends at its front by an unmarked object that refers to its first object. */
  lemma {:induction false} Prepend(g: Graph, m: seq<bool>, r: nat, p: seq<nat>)
    requires IsPath(g, p) && Unmarked(m, p)
    requires r < |m| && !m[r] && p[0] in Succ(g, r)
    ensures IsPath(g, [r] + p) && Unmarked(m, [r] + p)
  {
    var q := [r] + p;
    forall i | 0 < i < |q| ensures q[i] in Succ(g, q[i - 1]) {
      if i > 1 {
        assert q[i] == p[i - 1] && q[i - 1] == p[i - 2];
      }
    }
    forall i | 0 <= i < |q| ensures q[i] < |m| && !m[q[i]] {
      if i > 0 {
        assert q[i] == p[i - 1];
      }
    }
  }

  /**
   * One step of depth-first marking: whatever a child `c` of the unmarked `r`
   * reaches through unmarked objects (under the later flags `m'`) is reached
   * from `r` through objects unmarked under the earlier flags `m`.
   */
  lemma ReachThroughChild(g: Graph, m: seq<bool>, m': seq<bool>, r: nat, c: nat, x: nat)
    requires Grows(m, m') && r < |m| && !m[r] && c in Succ(g, r)
    requires ReachableUnmarked(g, m', c, x)
    ensures ReachableUnmarked(g, m, r, x)
  {
    var p :| IsPath(g, p) && Unmarked(m', p) && p[0] == c && p[|p| - 1] == x;
    assert Unmarked(m, p);
    Prepend(g, m, r, p);
    var q := [r] + p;
    assert q[0] == r && q[|q| - 1] == x;
  }

  /** Every object of an unmarked path from a marked start is marked by a closed marking. */
  lemma {:induction false} ClosedMarksPath(g: Graph, m: seq<bool>, m': seq<bool>, p: seq<nat>)
    requires Grows(m, m') && NewlyMarkedClosed(g, m, m')
    requires IsPath(g, p) && Unmarked(m, p) && m'[p[0]]
    ensures forall k :: 0 <= k < |p| ==> m'[p[k]]
  {
    if |p| > 1 {
      var init := p[..|p| - 1];
      assert IsPath(g, init) by {
        forall i | 0 < i < |init| ensures init[i] in Succ(g, init[i - 1]) {
          assert init[i] == p[i] && init[i - 1] == p[i - 1];
        }
      }
      assert Unmarked(m, init) by {
        forall i | 0 <= i < |init| ensures init[i] < |m| && !m[init[i]] {
          assert init[i] == p[i];
        }
      }
      ClosedMarksPath(g, m, m', init);
      var y := p[|p| - 2];
      assert m'[y] && !m[y] by {
        assert y == init[|init| - 1];
      }
      assert p[|p| - 1] in Succ(g, y);
      var j :| 0 <= j < |Succ(g, y)| && Succ(g, y)[j] == p[|p| - 1];
      forall k | 0 <= k < |p| ensures m'[p[k]] {
        if k < |p| - 1 {
          assert p[k] == init[k];
        }
      }
    }
  }

  /**
   * Completeness of depth-first marking: a marking that sets the root and is
   * closed on the objects it newly marks has set everything the root reaches
   * through unmarked objects.
   */
  lemma ClosedMarksReachable(g: Graph, m: seq<bool>, m': seq<bool>, r: nat)
    requires Grows(m, m') && NewlyMarkedClosed(g, m, m')
    requires r < |m'| && m'[r]
    ensures forall x: nat :: ReachableUnmarked(g, m, r, x) ==> x < |m'| && m'[x]
  {
    forall x: nat | ReachableUnmarked(g, m, r, x) ensures x < |m'| && m'[x] {
      var p :| IsPath(g, p) && Unmarked(m, p) && p[0] == r && p[|p| - 1] == x;
      ClosedMarksPath(g, m, m', p);
    }
  }

  /**
   * What holds while the references of `r` are being visited, with `m0` the
   * flags before `r` was marked and `m` the current ones: `r` is marked, every
   * object marked since is reached from `r` through objects unmarked in `m0`,
   * and every one of them other than `r` has all its references marked.
   */
  ghost predicate Visiting(g: Graph, m0: seq<bool>, m: seq<bool>, r: nat)
  {
    Grows(m0, m) && r < |m0| && !m0[r] && m[r] &&
    (forall x :: 0 <= x < |m0| && m[x] && !m0[x] ==> ReachableUnmarked(g, m0, r, x)) &&
    (forall x :: 0 <= x < |m0| && m[x] && !m0[x] && x != r ==>
       forall j :: 0 <= j < |Succ(g, x)| ==> Succ(g, x)[j] < |m| && m[Succ(g, x)[j]])
  }

  /** Marking an unmarked root starts the visit of its references. */
  lemma VisitStart(g: Graph, m0: seq<bool>, r: nat)
    requires r < |m0| && !m0[r]
    ensures Visiting(g, m0, m0[r := true], r)
  {
    assert IsPath(g, [r]) && Unmarked(m0, [r]);
  }

  /** Marking from a reference `c` of `r` (a recursive call) keeps the visit going. */
  lemma VisitChild(g: Graph, m0: seq<bool>, m: seq<bool>, m': seq<bool>, r: nat, c: nat)
    requires Visiting(g, m0, m, r) && c in Succ(g, r) && c < |m|
    requires m' == MarkedAfter(m, g, c) && NewlyMarkedClosed(g, m, m')
    ensures Visiting(g, m0, m', r) && Grows(m, m') && m'[c]
  {
    forall x | 0 <= x < |m0| && m'[x] && !m0[x] ensures ReachableUnmarked(g, m0, r, x) {
      if !m[x] {
        ReachThroughChild(g, m0, m, r, c, x);
      }
    }
  }

  /**
   * Once every reference of `r` is marked, the visit has marked exactly what
   * `MarkedAfter` says, and what it marked is closed under references.
   */
  lemma VisitEnd(g: Graph, m0: seq<bool>, m: seq<bool>, r: nat)
    requires Visiting(g, m0, m, r)
    requires forall j :: 0 <= j < |Succ(g, r)| ==> Succ(g, r)[j] < |m| && m[Succ(g, r)[j]]
    ensures NewlyMarkedClosed(g, m0, m) && m == MarkedAfter(m0, g, r)
  {
    ClosedMarksReachable(g, m0, m, r);
  }

  /** Marking from a root that is already marked changes no flag. */
  lemma MarkedRootMarksNothing(g: Graph, m: seq<bool>, r: nat)
    requires r < |m| && m[r]
    ensures MarkedAfter(m, g, r) == m
  {
    // every unmarked path starts at an unmarked object, so none starts at `r`
    assert forall p :: IsPath(g, p) && Unmarked(m, p) ==> !m[p[0]];
  }

  /** Marking twice from the same root is marking once. */
  lemma MarkIdempotent(g: Graph, m: seq<bool>, r: nat)
    requires r < |m|
    ensures MarkedAfter(MarkedAfter(m, g, r), g, r) == MarkedAfter(m, g, r)
  {
    MarkedRootMarksNothing(g, MarkedAfter(m, g, r), r);
  }

  /** A walk with all objects unmarked under `m'` is unmarked under any `m` that `m'` grows. */
  lemma ReachUnderFewerMarks(g: Graph, m: seq<bool>, m': seq<bool>, r: nat, x: nat)
    requires Grows(m, m') && ReachableUnmarked(g, m', r, x)
    ensures ReachableUnmarked(g, m, r, x)
  {
    var p :| IsPath(g, p) && Unmarked(m', p) && p[0] == r && p[|p| - 1] == x;
    assert Unmarked(m, p);
  }

  /** Two unmarked paths that meet form one. */
  lemma Join(g: Graph, m: seq<bool>, p: seq<nat>, q: seq<nat>)
    requires IsPath(g, p) && Unmarked(m, p) && IsPath(g, q) && Unmarked(m, q)
    requires p[|p| - 1] == q[0]
    ensures IsPath(g, p + q[1..]) && Unmarked(m, p + q[1..])
    ensures (p + q[1..])[0] == p[0] && (p + q[1..])[|p + q[1..]| - 1] == q[|q| - 1]
  {
    var s := p + q[1..];
    forall i | 0 < i < |s| ensures s[i] in Succ(g, s[i - 1]) {
      if i >= |p| {
        assert s[i] == q[i - |p| + 1] && s[i - 1] == q[i - |p|];
      }
    }
    forall i | 0 <= i < |s| ensures s[i] < |m| && !m[s[i]] {
      if i >= |p| {
        assert s[i] == q[i - |p| + 1];
      }
    }
  }

  /** From any object on an unmarked path, the rest of the path reaches its end. */
  lemma Suffix(g: Graph, m: seq<bool>, p: seq<nat>, j: nat)
    requires IsPath(g, p) && Unmarked(m, p) && j < |p|
    ensures ReachableUnmarked(g, m, p[j], p[|p| - 1])
  {
    var rest := p[j..];
    forall i | 0 < i < |rest| ensures rest[i] in Succ(g, rest[i - 1]) {
      assert rest[i] == p[j + i] && rest[i - 1] == p[j + i - 1];
    }
    forall i | 0 <= i < |rest| ensures rest[i] < |m| && !m[rest[i]] {
      assert rest[i] == p[j + i];
    }
    assert rest[0] == p[j] && rest[|rest| - 1] == p[|p| - 1];
  }

  /** An unmarked object reaches each of its unmarked references. */
  lemma Edge(g: Graph, m: seq<bool>, r: nat, c: nat)
    requires r < |m| && !m[r] && c < |m| && !m[c] && c in Succ(g, r)
    ensures ReachableUnmarked(g, m, r, c)
  {
    assert IsPath(g, [r, c]) && Unmarked(m, [r, c]);
  }

  /** `a` reaches `x` when it reaches some object `y` that reaches `x`, all through unmarked objects. */
  lemma ReachTransitive(g: Graph, m: seq<bool>, a: nat, y: nat, x: nat)
    requires ReachableUnmarked(g, m, a, y) && ReachableUnmarked(g, m, y, x)
    ensures ReachableUnmarked(g, m, a, x)
  {
    var q :| IsPath(g, q) && Unmarked(m, q) && q[0] == a && q[|q| - 1] == y;
    var p :| IsPath(g, p) && Unmarked(m, p) && p[0] == y && p[|p| - 1] == x;
    Join(g, m, q, p);
  }

  /**
   * An object that `b` reaches through objects unmarked before marking from
   * `a` is either marked by that call or still reached from `b` afterwards.
   */
  lemma ReachAfterOtherRoot(g: Graph, m: seq<bool>, a: nat, b: nat, x: nat)
    requires a < |m| && ReachableUnmarked(g, m, b, x)
    ensures x < |m|
    ensures MarkedAfter(m, g, a)[x] || ReachableUnmarked(g, MarkedAfter(m, g, a), b, x)
  {
    var m1 := MarkedAfter(m, g, a);
    var p :| IsPath(g, p) && Unmarked(m, p) && p[0] == b && p[|p| - 1] == x;
    if !Unmarked(m1, p) {
      // the path crosses an object that marking from `a` reached: so it reached `x` too
      var j :| 0 <= j < |p| && m1[p[j]];
      assert !m[p[j]];
      Suffix(g, m, p, j);
      ReachTransitive(g, m, a, p[j], x);
    }
  }

  /**
   * Marking from `a` and then from `b` sets exactly what either root reaches
   * through objects unmarked before both calls.
   */
  lemma MarkTwoRoots(g: Graph, m: seq<bool>, a: nat, b: nat)
    requires a < |m| && b < |m|
    ensures forall x :: 0 <= x < |m| ==>
      (MarkedAfter(MarkedAfter(m, g, a), g, b)[x] <==>
         m[x] || ReachableUnmarked(g, m, a, x) || ReachableUnmarked(g, m, b, x))
  {
    var m1 := MarkedAfter(m, g, a);
    var m2 := MarkedAfter(m1, g, b);
    forall x | 0 <= x < |m|
      ensures m2[x] <==> m[x] || ReachableUnmarked(g, m, a, x) || ReachableUnmarked(g, m, b, x)
    {
      if m2[x] && !m1[x] {
        ReachUnderFewerMarks(g, m, m1, b, x);
      }
      if ReachableUnmarked(g, m, b, x) {
        ReachAfterOtherRoot(g, m, a, b, x);
      }
    }
  }

  /** Roots may be marked in any order: the resulting flags are the same. */
  lemma MarkingCommutes(g: Graph, m: seq<bool>, a: nat, b: nat)
    requires a < |m| && b < |m|
    ensures MarkedAfter(MarkedAfter(m, g, a), g, b) == MarkedAfter(MarkedAfter(m, g, b), g, a)
  {
    MarkTwoRoots(g, m, a, b);
    MarkTwoRoots(g, m, b, a);
  }

  /** A walk that starts inside a set of objects closed under references stays inside it. */
  lemma {:induction false} PathStaysInClosedSet(g: Graph, s: set<nat>, p: seq<nat>)
    requires IsPath(g, p) && p[0] in s
    requires forall y :: y in s ==> forall j :: 0 <= j < |Succ(g, y)| ==> Succ(g, y)[j] in s
    ensures forall k :: 0 <= k < |p| ==> p[k] in s
  {
    if |p| > 1 {
      var init := p[..|p| - 1];
      assert IsPath(g, init) by {
        forall i | 0 < i < |init| ensures init[i] in Succ(g, init[i - 1]) {
          assert init[i] == p[i] && init[i - 1] == p[i - 1];
        }
      }
      PathStaysInClosedSet(g, s, init);
      var y := p[|p| - 2];
      assert y == init[|init| - 1];
      assert p[|p| - 1] in Succ(g, y);
      forall k | 0 <= k < |p| ensures p[k] in s {
        if k < |p| - 1 {
          assert p[k] == init[k];
        }
      }
    }
  }

  /** Only objects of a closed set are reachable from a root inside it. */
  lemma ReachableStaysInClosedSet(g: Graph, s: set<nat>, r: nat, x: nat)
    requires r in s && Reachable(g, r, x)
    requires forall y :: y in s ==> forall j :: 0 <= j < |Succ(g, y)| ==> Succ(g, y)[j] in s
    ensures x in s
  {
    var p :| IsPath(g, p) && p[0] == r && p[|p| - 1] == x;
    PathStaysInClosedSet(g, s, p);
  }

  /**
   * From a heap with no marks, marking from `r` marks exactly the objects
   * reachable from `r`.
   */
  lemma MarkFromClearIsReachable(g: Graph, n: nat, r: nat, x: nat)
    requires Within(g, n) && r < n && x < n
    ensures MarkedAfter(Clear(n), g, r)[x] <==> Reachable(g, r, x)
  {
    var m := Clear(n);
    if MarkedAfter(m, g, r)[x] {
      var p :| IsPath(g, p) && Unmarked(m, p) && p[0] == r && p[|p| - 1] == x;
    }
    if Reachable(g, r, x) {
      var p :| IsPath(g, p) && p[0] == r && p[|p| - 1] == x;
      forall i | 0 <= i < |p| ensures p[i] < n && !m[p[i]] {
        if i > 0 {
          var j :| 0 <= j < |Succ(g, p[i - 1])| && Succ(g, p[i - 1])[j] == p[i];
        }
      }
      assert Unmarked(m, p);
    }
  }
}
