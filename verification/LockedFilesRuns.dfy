/** Whole runs of LockFiles and UnlockFiles on one registry key, against a plain set of case-folded paths. */
module LockedFilesRuns {
  import opened Units
  import opened Decimal
  import opened LockedFiles

  datatype Call =
    | LockCall(files: seq<string>)
    | UnlockCall(files: seq<string>)

  /** One call, with the names enumerated in some order; a call that throws changes nothing. */
  ghost predicate Next(fold: Fold, m: Values, call: Call, m': Values) {
    exists order :: Enumerates(order, m) && NextIn(fold, m, order, call, m')
  }

  ghost predicate NextIn(fold: Fold, m: Values, order: seq<string>, call: Call, m': Values)
    requires Enumerates(order, m)
  {
    if !AllParse(order) then m' == m
    else
      match call
      case LockCall(files) => m' == Lock(fold, m, order, files)
      case UnlockCall(files) => m' == Unlock(fold, m, order, files)
  }

  /** trace[k] is the key after k calls, starting from an empty key. */
  ghost predicate IsRun(fold: Fold, trace: seq<Values>, calls: seq<Call>) {
    && |trace| == |calls| + 1 && trace[0] == map[]
    && forall k :: 0 <= k < |calls| ==> Next(fold, trace[k], calls[k], trace[k + 1])
  }

  ghost function Folds(fold: Fold, files: seq<string>): set<string> {
    set f | f in files :: fold(f)
  }

  /** The paths in the key, up to case. */
  ghost function Paths(fold: Fold, m: Values): set<string> {
    set name | name in m && m[name].Some? :: fold(m[name].value)
  }

  ghost function StepSet(fold: Fold, s: set<string>, call: Call): set<string> {
    match call
    case LockCall(files) => s + Folds(fold, files)
    case UnlockCall(files) => s - Folds(fold, files)
  }

  ghost function RunSet(fold: Fold, calls: seq<Call>): set<string> {
    if calls == [] then {} else StepSet(fold, RunSet(fold, calls[..|calls| - 1]), calls[|calls| - 1])
  }

  /** How many files the run asks to lock. */
  function Requested(calls: seq<Call>): nat {
    if calls == [] then 0
    else
      var last := calls[|calls| - 1];
      Requested(calls[..|calls| - 1]) + (if last.LockCall? then |last.files| else 0)
  }

  /** No call asks for one file twice. */
  predicate NoRepetition(fold: Fold, call: Call) {
    call.LockCall? ==> PairwiseDistinct(fold, call.files)
  }

  /** Every name is a numeral, and none is larger than the number of files asked for. */
  ghost predicate Bounded(m: Values, b: int) {
    forall name :: name in m ==> ParseInt(name).Some? && ParseInt(name).value <= b
  }

  lemma BoundedRoom(m: Values, order: seq<string>, b: nat, count: nat)
    requires Enumerates(order, m) && Bounded(m, b) && b + count <= INT32_MAX
    ensures AllParse(order) && Room(order, count)
    ensures count > 0 ==> FirstIndex(order) <= b + 1
  {
  }

  lemma {:induction false} AddedStaysDistinct(fold: Fold, m: Values, files: seq<string>)
    requires PairwiseDistinct(fold, files)
    ensures PairwiseDistinct(fold, Added(fold, m, files))
  {
    if files == [] {
    } else {
      assert PairwiseDistinct(fold, files[1..]);
      AddedStaysDistinct(fold, m, files[1..]);
      var rest := Added(fold, m, files[1..]);
      forall i | 0 <= i < |rest|
        ensures fold(files[0]) != fold(rest[i])
      {
        assert rest[i] in files[1..];
        var j :| 0 <= j < |files| - 1 && files[1..][j] == rest[i];
        assert files[j + 1] == rest[i];
      }
    }
  }

  lemma InPaths(fold: Fold, m: Values, name: string)
    requires name in m && m[name].Some?
    ensures fold(m[name].value) in Paths(fold, m)
  {
  }

  lemma StoredIffInPaths(fold: Fold, m: Values, file: string)
    ensures Stored(fold, m, file) <==> fold(file) in Paths(fold, m)
  {
    if Stored(fold, m, file) {
      var name :| name in m && Matches(fold, m[name], file);
      InPaths(fold, m, name);
    }
    if fold(file) in Paths(fold, m) {
      var name :| name in m && m[name].Some? && fold(m[name].value) == fold(file);
      assert Matches(fold, m[name], file);
    }
  }

  lemma LockStep(fold: Fold, m: Values, order: seq<string>, files: seq<string>, b: nat)
    requires Enumerates(order, m) && Bounded(m, b) && b + |files| <= INT32_MAX
    requires Distinct(fold, m) && PairwiseDistinct(fold, files)
    ensures AllParse(order)
    ensures var r := Lock(fold, m, order, files);
            && Bounded(r, b + |files|) && Distinct(fold, r)
            && Paths(fold, r) == Paths(fold, m) + Folds(fold, files)
  {
    var paths := Added(fold, m, files);
    BoundedRoom(m, order, b, |paths|);
    AddedStaysDistinct(fold, m, files);
    LockOnlyAdds(fold, m, order, files);
    LockKeepsDistinctIff(fold, m, order, files);
    AppendedPaths(fold, m, order, files);
    var r := Lock(fold, m, order, files);
    forall name | name in r
      ensures ParseInt(name).Some? && ParseInt(name).value <= b + |files|
    {
      if name !in m {
        assert IsNew(FirstIndex(order), paths, name);
      }
    }
  }

  lemma AppendedPaths(fold: Fold, m: Values, order: seq<string>, files: seq<string>)
    requires Enumerates(order, m) && AllParse(order) && Room(order, |Added(fold, m, files)|)
    requires Appended(m, FirstIndex(order), Added(fold, m, files), Lock(fold, m, order, files))
    ensures Paths(fold, Lock(fold, m, order, files)) == Paths(fold, m) + Folds(fold, files)
  {
    var r := Lock(fold, m, order, files);
    forall name | name in r && r[name].Some?
      ensures fold(r[name].value) in Paths(fold, m) + Folds(fold, files)
    {
      NewOrOld(fold, m, FirstIndex(order), Added(fold, m, files), r, name);
      if name in m {
        InPaths(fold, m, name);
      } else {
        assert r[name].value in files;
      }
    }
    forall name | name in m && m[name].Some?
      ensures fold(m[name].value) in Paths(fold, r)
    {
      InPaths(fold, r, name);
    }
    forall f | f in files
      ensures fold(f) in Paths(fold, r)
    {
      LockStoresAll(fold, m, order, files, f);
      StoredIffInPaths(fold, r, f);
    }
  }

  lemma UnlockStep(fold: Fold, m: Values, order: seq<string>, files: seq<string>, b: nat)
    requires Enumerates(order, m) && Bounded(m, b) && Distinct(fold, m)
    ensures var r := Unlock(fold, m, order, files);
            && Bounded(r, b) && Distinct(fold, r)
            && Paths(fold, r) == Paths(fold, m) - Folds(fold, files)
  {
    var r := Unlock(fold, m, order, files);
    UnlockOnlyDeletes(fold, m, order, files);
    assert StoredOnce(fold, m, files);
    UnlockRemovesAllIff(fold, m, order, files);
    forall name | name in m && m[name].Some?
      ensures Named(fold, m[name], files) <==> fold(m[name].value) in Folds(fold, files)
    {
      if fold(m[name].value) in Folds(fold, files) {
        var f :| f in files && fold(f) == fold(m[name].value);
        var i :| 0 <= i < |files| && files[i] == f;
        assert Matches(fold, m[name], files[i]);
      }
    }
    forall name | name in r && r[name].Some?
      ensures fold(r[name].value) in Paths(fold, m) - Folds(fold, files)
    {
      InPaths(fold, m, name);
    }
    forall p | p in Paths(fold, m) - Folds(fold, files)
      ensures p in Paths(fold, r)
    {
      var name :| name in m && m[name].Some? && fold(m[name].value) == p;
      InPaths(fold, r, name);
    }
  }

  /**
   * After any run that never asks for one file twice in one call, in whatever order the system enumerates names:
   * no call throws or overwrites, no path is stored twice, and the stored paths are, up to case, exactly those of
   * a set to which LockFiles adds and from which UnlockFiles removes.
   */
  lemma {:induction false} RunKeepsSet(fold: Fold, trace: seq<Values>, calls: seq<Call>)
    requires IsRun(fold, trace, calls)
    requires forall k :: 0 <= k < |calls| ==> NoRepetition(fold, calls[k])
    requires Requested(calls) <= INT32_MAX
    ensures Paths(fold, trace[|calls|]) == RunSet(fold, calls)
    ensures Distinct(fold, trace[|calls|]) && Bounded(trace[|calls|], Requested(calls))
  {
    if calls == [] {
    } else {
      var k := |calls| - 1;
      var m, m', call, b := trace[k], trace[k + 1], calls[k], Requested(calls[..k]);
      assert trace[..k + 1][k] == m;
      RunKeepsSet(fold, trace[..k + 1], calls[..k]);
      assert Next(fold, m, call, m');
      var order :| Enumerates(order, m) && NextIn(fold, m, order, call, m');
      BoundedRoom(m, order, b, 0);
      match call
      case LockCall(files) => LockStep(fold, m, order, files, b);
      case UnlockCall(files) => UnlockStep(fold, m, order, files, b);
    }
  }
}
