/**
 * The registry of the collector is an ordered list of object addresses that
 * may repeat. A sweep splits it by the objects' flags: `WithFlag(objs, m, f)`
 * is the sub-list of the entries whose flag in `m` is `f`, in their order.
 */
module RegistryFilter {

  /** Every entry of `objs` is an object of a heap with flags `m`. */
  ghost predicate AllIn(objs: seq<nat>, m: seq<bool>)
  {
    forall i :: 0 <= i < |objs| ==> objs[i] < |m|
  }

  /**
   * The flag of object `o` in `m`. Registered objects always lie in the heap;
   * an address outside it reads as clear.
   */
  function Flag(m: seq<bool>, o: nat): (b: bool)
    ensures b ==> o < |m|
    ensures o < |m| ==> (b <==> m[o])
  {
    o < |m| && m[o]
  }

  /** The entries of `objs` whose flag in `m` equals `flag`, in their order. */
  function WithFlag(objs: seq<nat>, m: seq<bool>, flag: bool): (r: seq<nat>)
    ensures |r| <= |objs|
    decreases |objs|
  {
    if objs == [] then []
    else
      var o := objs[|objs| - 1];
      var rest := WithFlag(objs[..|objs| - 1], m, flag);
      if Flag(m, o) == flag then rest + [o] else rest
  }

  /** An object is kept exactly when it is registered and its flag matches. */
  lemma {:induction false} WithFlagMember(objs: seq<nat>, m: seq<bool>, flag: bool, o: nat)
    ensures o in WithFlag(objs, m, flag) <==> o in objs && Flag(m, o) == flag
    decreases |objs|
  {
    if objs != [] {
      var init := objs[..|objs| - 1];
      assert objs == init + [objs[|objs| - 1]];
      WithFlagMember(init, m, flag, o);
    }
  }

  /** Every kept entry has the flag asked for, and lies in the heap when the registry does. */
  lemma {:induction false} WithFlagEntries(objs: seq<nat>, m: seq<bool>, flag: bool)
    ensures forall i :: 0 <= i < |WithFlag(objs, m, flag)| ==> Flag(m, WithFlag(objs, m, flag)[i]) == flag
    ensures AllIn(objs, m) ==> AllIn(WithFlag(objs, m, flag), m)
    decreases |objs|
  {
    if objs != [] {
      var init := objs[..|objs| - 1];
      assert objs == init + [objs[|objs| - 1]];
      WithFlagEntries(init, m, flag);
    }
  }

  /** When every entry has flag `flag`, the filter keeps all of them and its complement none. */
  lemma {:induction false} WithFlagAll(objs: seq<nat>, m: seq<bool>, flag: bool)
    requires forall i :: 0 <= i < |objs| ==> Flag(m, objs[i]) == flag
    ensures WithFlag(objs, m, flag) == objs && WithFlag(objs, m, !flag) == []
    decreases |objs|
  {
    if objs != [] {
      var init := objs[..|objs| - 1];
      assert objs == init + [objs[|objs| - 1]];
      WithFlagAll(init, m, flag);
    }
  }

  /** Filtering distributes over concatenation: it keeps the relative order of entries. */
  lemma {:induction false} WithFlagAppend(s: seq<nat>, t: seq<nat>, m: seq<bool>, flag: bool)
    ensures WithFlag(s + t, m, flag) == WithFlag(s, m, flag) + WithFlag(t, m, flag)
    decreases |t|
  {
    if t != [] {
      var t' := t[..|t| - 1];
      assert t == t' + [t[|t| - 1]];
      assert (s + t)[..|s + t| - 1] == s + t';
      WithFlagAppend(s, t', m, flag);
    } else {
      assert s + t == s;
    }
  }

  /** A single entry survives the filter exactly when its flag matches. */
  lemma WithFlagSingle(o: nat, m: seq<bool>, flag: bool)
    ensures WithFlag([o], m, flag) == if Flag(m, o) == flag then [o] else []
  {
    assert [o][..0] == [];
  }

  /** Extending the filtered prefix by one entry extends the result by that entry or by nothing. */
  lemma WithFlagStep(objs: seq<nat>, k: nat, m: seq<bool>, flag: bool)
    requires k < |objs|
    ensures WithFlag(objs[..k + 1], m, flag) ==
              WithFlag(objs[..k], m, flag) + if Flag(m, objs[k]) == flag then [objs[k]] else []
  {
    assert objs[..k + 1][..k] == objs[..k];
  }

  /**
   * The state of a sweep that walks the registry `objs` in place, keeping the
   * entries whose flag is `keep`, once its first `k` entries are processed:
   * `kept` and `gone` are the entries kept and deleted so far, the registry
   * `reg` is the kept ones followed by the unprocessed rest, and the cursor
   * `i` points just past the kept ones.
   */
  ghost predicate SweptUpTo(objs: seq<nat>, m: seq<bool>, keep: bool, k: nat,
                            kept: seq<nat>, gone: seq<nat>, reg: seq<nat>, i: nat)
  {
    k <= |objs| &&
    kept == WithFlag(objs[..k], m, keep) && gone == WithFlag(objs[..k], m, !keep) &&
    reg == kept + objs[k..] && i == |kept|
  }

  /** Before the first step nothing is processed, and the registry is untouched. */
  lemma SweepStart(objs: seq<nat>, m: seq<bool>, keep: bool)
    ensures SweptUpTo(objs, m, keep, 0, [], [], objs, 0)
  {
    assert objs[..0] == [] && objs[0..] == objs;
  }

  /** The registry of a sweep in progress, seen around the cursor. */
  lemma CursorAt(objs: seq<nat>, k: nat, kept: seq<nat>, reg: seq<nat>, i: nat)
    requires k < |objs| && reg == kept + objs[k..] && i == |kept|
    ensures i < |reg| && reg[i] == objs[k] && reg[..i] == kept && reg[i + 1..] == objs[k + 1..]
    ensures reg[..i] + reg[i + 1..] == kept + objs[k + 1..]
  {
    assert objs[k..] == [objs[k]] + objs[k + 1..];
  }

  /**
   * One step at the cursor: an entry whose flag is `keep` is stepped over, any
   * other one is erased at the cursor; either way one more entry is processed.
   */
  lemma SweepStep(objs: seq<nat>, m: seq<bool>, keep: bool, k: nat,
                  kept: seq<nat>, gone: seq<nat>, reg: seq<nat>, i: nat)
    requires SweptUpTo(objs, m, keep, k, kept, gone, reg, i) && i < |reg|
    ensures k < |objs| && reg[i] == objs[k]
    ensures Flag(m, reg[i]) == keep ==>
              SweptUpTo(objs, m, keep, k + 1, kept + [reg[i]], gone, reg, i + 1)
    ensures Flag(m, reg[i]) != keep ==>
              SweptUpTo(objs, m, keep, k + 1, kept, gone + [reg[i]], reg[..i] + reg[i + 1..], i)
  {
    CursorAt(objs, k, kept, reg, i);
    var o := objs[k];
    WithFlagStep(objs, k, m, keep);
    WithFlagStep(objs, k, m, !keep);
    if Flag(m, o) == keep {
      assert WithFlag(objs[..k + 1], m, keep) == kept + [o];
      assert WithFlag(objs[..k + 1], m, !keep) == gone;
      assert reg == kept + [o] + objs[k + 1..];
    } else {
      assert WithFlag(objs[..k + 1], m, keep) == kept;
      assert WithFlag(objs[..k + 1], m, !keep) == gone + [o];
    }
  }

  /** Once the cursor has passed the end, the registry holds exactly the kept entries. */
  lemma SweepEnd(objs: seq<nat>, m: seq<bool>, keep: bool, k: nat,
                 kept: seq<nat>, gone: seq<nat>, reg: seq<nat>, i: nat)
    requires SweptUpTo(objs, m, keep, k, kept, gone, reg, i) && i >= |reg|
    ensures reg == WithFlag(objs, m, keep) && gone == WithFlag(objs, m, !keep)
    ensures AllIn(objs, m) ==> AllIn(reg, m)
  {
    assert objs[..k] == objs;
    WithFlagEntries(objs, m, keep);
  }

  /** The two filters partition the registry: every entry goes to exactly one side. */
  lemma {:induction false} WithFlagPartition(objs: seq<nat>, m: seq<bool>)
    ensures |WithFlag(objs, m, true)| + |WithFlag(objs, m, false)| == |objs|
    ensures multiset(WithFlag(objs, m, true)) + multiset(WithFlag(objs, m, false)) == multiset(objs)
    decreases |objs|
  {
    if objs != [] {
      var init := objs[..|objs| - 1];
      assert objs == init + [objs[|objs| - 1]];
      WithFlagPartition(init, m);
    }
  }

  /** Filtering an already filtered registry again keeps all of it and drops nothing more. */
  lemma {:induction false} WithFlagIdempotent(objs: seq<nat>, m: seq<bool>, flag: bool)
    ensures WithFlag(WithFlag(objs, m, flag), m, flag) == WithFlag(objs, m, flag)
    ensures WithFlag(WithFlag(objs, m, flag), m, !flag) == []
    decreases |objs|
  {
    if objs != [] {
      var init := objs[..|objs| - 1];
      var o := objs[|objs| - 1];
      assert objs == init + [o];
      WithFlagIdempotent(init, m, flag);
      if Flag(m, o) == flag {
        WithFlagAppend(WithFlag(init, m, flag), [o], m, flag);
        WithFlagAppend(WithFlag(init, m, flag), [o], m, !flag);
        WithFlagSingle(o, m, flag);
        WithFlagSingle(o, m, !flag);
      }
    }
  }
}
