/**
 * The registry list of locked files: LockFiles and UnlockFiles keep paths, compared without regard to case,
 * under value names that are zero-padded numerals.
 */
module LockedFiles {
  import opened Units
  import opened Decimal

  /** What StringComparison.InvariantCultureIgnoreCase compares: two strings are equal when their folds are. */
  type Fold = string -> string

  /** A registry key. A value that is not a string reads as None. */
  type Values = map<string, Option<string>>

  predicate Matches(fold: Fold, value: Option<string>, file: string) {
    value.Some? && fold(value.value) == fold(file)
  }

  /** Some value of the key is this path. */
  ghost predicate Stored(fold: Fold, m: Values, file: string) {
    exists name :: name in m && Matches(fold, m[name], file)
  }

  /** The names of the key, each once, in the order the system returns them. */
  ghost predicate Enumerates(order: seq<string>, m: Values) {
    && (forall i :: 0 <= i < |order| ==> order[i] in m)
    && (forall i, j :: 0 <= i < j < |order| ==> order[i] != order[j])
    && (forall name :: name in m ==> name in order)
  }

  predicate AllParse(order: seq<string>) {
    forall i :: 0 <= i < |order| ==> ParseInt(order[i]).Some?
  }

  /** The largest number among the names. */
  function MaxOf(order: seq<string>): (max: int)
    requires order != [] && AllParse(order)
    ensures forall i :: 0 <= i < |order| ==> ParseInt(order[i]).value <= max
    ensures exists i :: 0 <= i < |order| && ParseInt(order[i]).value == max
  {
    var last := ParseInt(order[|order| - 1]).value;
    if |order| == 1 then last
    else
      var rest := MaxOf(order[..|order| - 1]);
      if rest < last then last else rest
  }

  /** The number the next new value gets. */
  function FirstIndex(order: seq<string>): int
    requires AllParse(order)
  {
    if order == [] then 1 else Wrap32(MaxOf(order) + 1)
  }

  // ---------- locking ----------

  /** LockFiles: presence is decided on the snapshot m0, new values go into m. */
  ghost function LockAll(fold: Fold, m0: Values, m: Values, next: int, files: seq<string>): Values
    decreases files
  {
    if files == [] then m
    else if Stored(fold, m0, files[0]) then LockAll(fold, m0, m, next, files[1..])
    else LockAll(fold, m0, m[PrintD5(next) := Some(files[0])], Wrap32(next + 1), files[1..])
  }

  /** The files a call adds: those the snapshot does not have, repetitions included. */
  ghost function Added(fold: Fold, m0: Values, files: seq<string>): (r: seq<string>)
    ensures |r| <= |files|
    ensures forall i :: 0 <= i < |r| ==> !Stored(fold, m0, r[i]) && r[i] in files
    ensures forall f :: f in files && !Stored(fold, m0, f) ==> f in r
  {
    if files == [] then []
    else (if Stored(fold, m0, files[0]) then [] else [files[0]]) + Added(fold, m0, files[1..])
  }

  /** The name of the i-th value added from a number on, in unchecked 32-bit arithmetic. */
  function NthName(next: int, i: int): string {
    PrintD5(Wrap32(next + i))
  }

  lemma NthShift(next: int, i: int)
    ensures NthName(Wrap32(next + 1), i) == NthName(next, i + 1)
  {
    WrapTwice(next + 1, i);
  }

  /** The paths under consecutive numerals. */
  function Extend(m: Values, next: int, paths: seq<string>): Values {
    if paths == [] then m
    else
      var k := |paths| - 1;
      Extend(m, next, paths[..k])[NthName(next, k) := Some(paths[k])]
  }

  lemma {:induction false} ExtendCons(m: Values, next: int, path: string, rest: seq<string>)
    ensures Extend(m, next, [path] + rest) == Extend(m[NthName(next, 0) := Some(path)], Wrap32(next + 1), rest)
  {
    var paths := [path] + rest;
    if rest == [] {
      assert paths[..0] == [];
    } else {
      var k := |rest| - 1;
      assert paths[..k + 1] == [path] + rest[..k] && paths[k + 1] == rest[k];
      ExtendCons(m, next, path, rest[..k]);
      NthShift(next, k);
    }
  }

  lemma {:induction false} LockAllExtends(fold: Fold, m0: Values, m: Values, next: int, files: seq<string>)
    requires INT32_MIN <= next <= INT32_MAX
    ensures LockAll(fold, m0, m, next, files) == Extend(m, next, Added(fold, m0, files))
    decreases files
  {
    if files == [] {
    } else {
      var rest := Added(fold, m0, files[1..]);
      if Stored(fold, m0, files[0]) {
        assert Added(fold, m0, files) == rest;
        LockAllExtends(fold, m0, m, next, files[1..]);
      } else {
        ExtendCons(m, next, files[0], rest);
        LockAllExtends(fold, m0, m[PrintD5(next) := Some(files[0])], Wrap32(next + 1), files[1..]);
      }
    }
  }

  /** The numerals next, next + 1, ... are within Int32. */
  predicate InRange(next: int, count: nat) {
    INT32_MIN <= next && next + count <= INT32_MAX + 1
  }

  /** Every name of the key is a numeral below next. */
  ghost predicate Below(m: Values, next: int) {
    forall name :: name in m ==> ParseInt(name).Some? && ParseInt(name).value < next
  }

  /** r is m together with the paths, each under a numeral that m did not have. */
  ghost predicate Appended(m: Values, next: int, paths: seq<string>, r: Values) {
    && (forall name :: name in m ==> name in r && r[name] == m[name])
    && (forall i :: 0 <= i < |paths| ==> NewAt(m, next, paths, r, i))
    && (forall name :: name in r && name !in m ==> IsNew(next, paths, name))
  }

  ghost predicate NewAt(m: Values, next: int, paths: seq<string>, r: Values, i: nat)
    requires i < |paths|
  {
    var name := PrintD5(next + i);
    name !in m && name in r && r[name] == Some(paths[i]) && ParseInt(name) == Some(next + i)
  }

  predicate IsNew(next: int, paths: seq<string>, name: string) {
    && ParseInt(name).Some?
    && 0 <= ParseInt(name).value - next < |paths|
    && name == PrintD5(ParseInt(name).value)
  }

  lemma NthInRange(next: int, k: nat)
    requires InRange(next, k + 1)
    ensures NthName(next, k) == PrintD5(next + k) && ParseInt(PrintD5(next + k)) == Some(next + k)
  {
    ParsePrintD5(next + k);
  }

  lemma {:induction false} ExtendAppends(m: Values, next: int, paths: seq<string>)
    requires Below(m, next) && InRange(next, |paths|)
    ensures Appended(m, next, paths, Extend(m, next, paths))
  {
    if paths == [] {
    } else {
      var k := |paths| - 1;
      ExtendAppends(m, next, paths[..k]);
      NthInRange(next, k);
      AppendOne(m, next, paths, k, Extend(m, next, paths[..k]));
    }
  }

  lemma AppendOne(m: Values, next: int, paths: seq<string>, k: nat, before: Values)
    requires k + 1 == |paths| && Below(m, next) && Appended(m, next, paths[..k], before)
    requires ParseInt(PrintD5(next + k)) == Some(next + k)
    ensures Appended(m, next, paths, before[PrintD5(next + k) := Some(paths[k])])
  {
    var name := PrintD5(next + k);
    var r := before[name := Some(paths[k])];
    assert name !in m;
    assert !IsNew(next, paths[..k], name);
    forall i | 0 <= i <= k
      ensures NewAt(m, next, paths, r, i)
    {
      assert i < k ==> NewAt(m, next, paths[..k], before, i);
    }
    forall other | other in r && other !in m
      ensures IsNew(next, paths, other)
    {
      assert other != name ==> IsNew(next, paths[..k], other);
    }
  }

  /** Room for k more numerals above the largest one. */
  predicate Room(order: seq<string>, k: nat)
    requires AllParse(order)
  {
    k == 0 || (if order == [] then k <= INT32_MAX else MaxOf(order) + k <= INT32_MAX)
  }

  /** The outcome of a LockFiles that does not throw. */
  ghost function Lock(fold: Fold, m: Values, order: seq<string>, files: seq<string>): Values
    requires AllParse(order)
  {
    LockAll(fold, m, m, FirstIndex(order), files)
  }

  /**
   * LockFiles never overwrites a value: while the numbers stay within Int32, the key afterwards is the old one
   * together with each file it did not have, in order, under names it did not have.
   */
  lemma LockOnlyAdds(fold: Fold, m: Values, order: seq<string>, files: seq<string>)
    requires Enumerates(order, m) && AllParse(order) && Room(order, |Added(fold, m, files)|)
    ensures Appended(m, FirstIndex(order), Added(fold, m, files), Lock(fold, m, order, files))
  {
    var paths := Added(fold, m, files);
    var next := FirstIndex(order);
    LockAllExtends(fold, m, m, next, files);
    if paths != [] {
      forall name | name in m
        ensures ParseInt(name).Some? && ParseInt(name).value < next
      {
        var i :| 0 <= i < |order| && order[i] == name;
      }
      ExtendAppends(m, next, paths);
    }
  }

  /** The numbers are those from 1 on for an empty key, else those that follow the largest one. */
  lemma LockNumbers(fold: Fold, m: Values, order: seq<string>, files: seq<string>)
    requires Enumerates(order, m) && AllParse(order) && Room(order, |Added(fold, m, files)|)
    ensures Appended(m, if order == [] then 1 else MaxOf(order) + 1, Added(fold, m, files),
                     Lock(fold, m, order, files))
  {
    var paths, next, r := Added(fold, m, files), FirstIndex(order), Lock(fold, m, order, files);
    LockOnlyAdds(fold, m, order, files);
    if paths == [] {
      NothingAppended(m, next, if order == [] then 1 else MaxOf(order) + 1, r);
    } else if order != [] {
      BehindTheLargest(order);
    }
  }

  lemma NothingAppended(m: Values, a: int, b: int, r: Values)
    requires Appended(m, a, [], r)
    ensures Appended(m, b, [], r)
  {
  }

  lemma BehindTheLargest(order: seq<string>)
    requires order != [] && AllParse(order) && MaxOf(order) < INT32_MAX
    ensures FirstIndex(order) == MaxOf(order) + 1
  {
    var k :| 0 <= k < |order| && ParseInt(order[k]).value == MaxOf(order);
    ParsedInRange(order[k]);
  }

  /** Files locked into an empty key are numbered from 1, repetitions included. */
  lemma EmptyKeyLocked(fold: Fold, files: seq<string>)
    requires |files| <= INT32_MAX
    ensures var r := Lock(fold, map[], [], files);
            && (forall i, name :: 1 <= i <= |files| && IsD5(name, i) ==> name in r && r[name] == Some(files[i - 1]))
            && (forall name :: name in r ==> exists i :: 1 <= i <= |files| && IsD5(name, i))
  {
    var m: Values, r := map[], Lock(fold, map[], [], files);
    EverythingAdded(fold, files);
    LockNumbers(fold, m, [], files);
    forall i, name | 1 <= i <= |files| && IsD5(name, i)
      ensures name in r && r[name] == Some(files[i - 1])
    {
      PrintD5Iff(i, name);
      assert NewAt(m, 1, files, r, i - 1);
    }
    forall name | name in r
      ensures exists i :: 1 <= i <= |files| && IsD5(name, i)
    {
      assert IsNew(1, files, name);
      PrintD5Iff(ParseInt(name).value, name);
    }
  }

  lemma {:induction false} EverythingAdded(fold: Fold, files: seq<string>)
    ensures Added(fold, map[], files) == files
  {
    if files == [] {
    } else {
      EverythingAdded(fold, files[1..]);
    }
  }

  /** The first file of an empty key gets the name 00001. */
  lemma FirstFileLocked(fold: Fold, file: string)
    ensures Lock(fold, map[], [], [file]) == map["00001" := Some(file)]
  {
    OneIsOne();
    PrintD5Iff(1, "00001");
    LockOne(fold, map[], 1, file);
  }

  lemma OneIsOne()
    ensures IsD5("00001", 1)
  {
    var one := "1";
    assert one[..0] == "" && AllDigits(one) && Value(one) == 1;
    var two, three := "0" + one, "0" + ("0" + one);
    LeadingZero(one);
    LeadingZero(two);
    LeadingZero(three);
    LeadingZero("0" + three);
    assert "0" + ("0" + three) == "00001";
  }

  // ---------- when the numbers run out of Int32 ----------

  /** One of the next count names is this one. */
  ghost predicate Used(next: int, count: nat, name: string) {
    exists i :: 0 <= i < count && NthName(next, i) == name
  }

  lemma UsedNow(next: int, count: nat, name: string)
    requires Used(next, count, name) && INT32_MIN <= next <= INT32_MAX
    ensures PrintD5(next) == name || Used(Wrap32(next + 1), count - 1, name)
  {
    var i :| 0 <= i < count && NthName(next, i) == name;
    if i > 0 {
      NthShift(next, i - 1);
    }
  }

  lemma UsedLater(next: int, count: nat, name: string)
    requires count > 0 && INT32_MIN <= next <= INT32_MAX
    requires PrintD5(next) == name || Used(Wrap32(next + 1), count - 1, name)
    ensures Used(next, count, name)
  {
    if PrintD5(next) == name {
      assert NthName(next, 0) == name;
    } else {
      var i :| 0 <= i < count - 1 && NthName(Wrap32(next + 1), i) == name;
      NthShift(next, i);
    }
  }

  /** Of the old values, locking replaces exactly those whose names it uses. */
  lemma {:induction false} LockReplacesUsed(
      fold: Fold, m0: Values, m: Values, next: int, files: seq<string>, name: string)
    requires INT32_MIN <= next <= INT32_MAX && name in m
    ensures var r := LockAll(fold, m0, m, next, files);
            && name in r
            && (if Used(next, |Added(fold, m0, files)|, name)
                then r[name].Some? && r[name].value in Added(fold, m0, files)
                else r[name] == m[name])
    decreases files
  {
    if files == [] {
    } else {
      if Stored(fold, m0, files[0]) {
        LockReplacesUsed(fold, m0, m, next, files[1..], name);
      } else {
        var count := |Added(fold, m0, files)|;
        if Used(next, count, name) {
          UsedNow(next, count, name);
        } else if PrintD5(next) == name || Used(Wrap32(next + 1), count - 1, name) {
          UsedLater(next, count, name);
        }
        LockReplacesUsed(fold, m0, m[PrintD5(next) := Some(files[0])], Wrap32(next + 1), files[1..], name);
      }
    }
  }

  /** The old values survive. */
  ghost predicate Preserves(m: Values, r: Values) {
    forall name :: name in m ==> name in r && r[name] == m[name]
  }

  /** The name of the i-th value added above the largest number. */
  function NameAbove(order: seq<string>, i: int): string
    requires order != [] && AllParse(order)
  {
    NthName(MaxOf(order) + 1, i)
  }

  /** An old value survives exactly when its name is not used again. */
  lemma SurvivesIff(fold: Fold, m: Values, order: seq<string>, files: seq<string>, name: string)
    requires AllParse(order) && name in m
    ensures var r := Lock(fold, m, order, files);
            name in r && (r[name] == m[name] <==> !Used(FirstIndex(order), |Added(fold, m, files)|, name))
  {
    var paths, next, r := Added(fold, m, files), FirstIndex(order), Lock(fold, m, order, files);
    LockReplacesUsed(fold, m, m, next, files, name);
    if Used(next, |paths|, name) {
      var j :| 0 <= j < |paths| && paths[j] == r[name].value;
      assert !Matches(fold, m[name], paths[j]);
    }
  }

  lemma NamesFromFirst(m: Values, order: seq<string>, i: nat)
    requires Enumerates(order, m) && AllParse(order) && order != []
    ensures NthName(FirstIndex(order), i) == NameAbove(order, i)
    ensures MaxOf(order) + 1 + i <= INT32_MAX ==> NameAbove(order, i) !in m
  {
    WrapTwice(MaxOf(order) + 1, i);
    if MaxOf(order) + 1 + i <= INT32_MAX {
      FreshAbove(m, order, MaxOf(order) + 1 + i);
    }
  }

  /**
   * LockFiles overwrites nothing if and only if no number that has wrapped around, counting on from the largest
   * one, is the name of an old value.
   */
  lemma LockPreservesIff(fold: Fold, m: Values, order: seq<string>, files: seq<string>)
    requires Enumerates(order, m) && AllParse(order) && order != []
    ensures Preserves(m, Lock(fold, m, order, files)) <==>
            forall i :: 0 <= i < |Added(fold, m, files)| && MaxOf(order) + 1 + i > INT32_MAX ==>
              NameAbove(order, i) !in m
  {
    var count, next := |Added(fold, m, files)|, FirstIndex(order);
    forall name | name in m
      ensures var r := Lock(fold, m, order, files);
              name in r && (r[name] == m[name] <==> !Used(next, count, name))
    {
      SurvivesIff(fold, m, order, files, name);
    }
    forall i | 0 <= i < count
      ensures NthName(next, i) == NameAbove(order, i)
      ensures MaxOf(order) + 1 + i <= INT32_MAX ==> NameAbove(order, i) !in m
    {
      NamesFromFirst(m, order, i);
    }
    if i :| 0 <= i < count && NameAbove(order, i) in m {
      assert Used(next, count, NthName(next, i));
    }
  }

  /** The number behind the largest Int32 is the smallest one, and LockFiles replaces the value under its name. */
  lemma OldValueOverwritten(fold: Fold, a: string, b: string, c: string)
    requires fold(c) != fold(a) && fold(c) != fold(b)
    ensures var largest, smallest := PrintD5(INT32_MAX), PrintD5(INT32_MIN);
            var m: Values := map[largest := Some(a), smallest := Some(b)];
            && Enumerates([largest, smallest], m) && AllParse([largest, smallest])
            && Lock(fold, m, [largest, smallest], [c]) == m[smallest := Some(c)]
  {
    var largest, smallest := PrintD5(INT32_MAX), PrintD5(INT32_MIN);
    ParsePrintD5(INT32_MAX);
    ParsePrintD5(INT32_MIN);
    LockBehindLargest(fold, map[largest := Some(a), smallest := Some(b)], [largest, smallest], c);
  }

  lemma LockBehindLargest(fold: Fold, m: Values, order: seq<string>, c: string)
    requires |order| == 2 && !Stored(fold, m, c)
    requires ParseInt(order[0]) == Some(INT32_MAX) && ParseInt(order[1]) == Some(INT32_MIN)
    ensures AllParse(order) && Lock(fold, m, order, [c]) == m[PrintD5(INT32_MIN) := Some(c)]
  {
    BehindLargest(order);
    LockOne(fold, m, INT32_MIN, c);
  }

  lemma BehindLargest(order: seq<string>)
    requires |order| == 2 && ParseInt(order[0]) == Some(INT32_MAX) && ParseInt(order[1]) == Some(INT32_MIN)
    ensures AllParse(order) && FirstIndex(order) == INT32_MIN
  {
    var max := MaxOf(order);
    assert ParseInt(order[0]).value <= max;
    var k :| 0 <= k < 2 && ParseInt(order[k]).value == max;
  }

  lemma LockOne(fold: Fold, m: Values, next: int, c: string)
    requires !Stored(fold, m, c)
    ensures LockAll(fold, m, m, next, [c]) == m[PrintD5(next) := Some(c)]
  {
    assert [c][1..] == [];
  }

  /** A numeral above the largest one is no name of the key. */
  lemma FreshAbove(m: Values, order: seq<string>, number: int)
    requires Enumerates(order, m) && AllParse(order) && order != []
    requires MaxOf(order) < number <= INT32_MAX
    ensures number >= INT32_MIN && PrintD5(number) !in m
  {
    var k :| 0 <= k < |order| && ParseInt(order[k]).value == MaxOf(order);
    ParsePrintD5(number);
    forall name | name in m
      ensures name != PrintD5(number)
    {
      var i :| 0 <= i < |order| && order[i] == name;
      assert ParseInt(name).value <= MaxOf(order);
    }
  }

  // ---------- what is stored afterwards ----------

  /** How many numbers there are, and so how many names. */
  const NUMBERS := 0x1_0000_0000

  /** r is m, with each path under its name. */
  ghost predicate Renewed(m: Values, next: int, paths: seq<string>, r: Values) {
    && (forall i :: 0 <= i < |paths| ==> HeldAt(next, paths, r, i))
    && (forall name :: name in r && !Used(next, |paths|, name) ==> name in m && r[name] == m[name])
    && (forall name :: name in m ==> name in r)
  }

  ghost predicate HeldAt(next: int, paths: seq<string>, r: Values, i: nat)
    requires i < |paths|
  {
    NthName(next, i) in r && r[NthName(next, i)] == Some(paths[i])
  }

  /** Fewer numbers apart than there are, two names differ. */
  lemma NamesDiffer(next: int, i: int, j: int)
    requires i < j < i + NUMBERS
    ensures NthName(next, i) != NthName(next, j)
  {
    WrapsDiffer(next + i, j - i);
    ParsePrintD5(Wrap32(next + i));
    ParsePrintD5(Wrap32(next + j));
  }

  lemma WrapsDiffer(a: int, d: int)
    requires 0 < d < NUMBERS
    ensures Wrap32(a) != Wrap32(a + d)
  {
  }

  lemma {:induction false} ExtendRenews(m: Values, next: int, paths: seq<string>)
    requires |paths| <= NUMBERS
    ensures Renewed(m, next, paths, Extend(m, next, paths))
  {
    if paths == [] {
    } else {
      var k := |paths| - 1;
      ExtendRenews(m, next, paths[..k]);
      RenewOne(m, next, paths, Extend(m, next, paths[..k]));
    }
  }

  lemma RenewOne(m: Values, next: int, paths: seq<string>, before: Values)
    requires 0 < |paths| <= NUMBERS && Renewed(m, next, paths[..|paths| - 1], before)
    ensures Renewed(m, next, paths, before[NthName(next, |paths| - 1) := Some(paths[|paths| - 1])])
  {
    var k := |paths| - 1;
    var r := before[NthName(next, k) := Some(paths[k])];
    forall i | 0 <= i <= k
      ensures HeldAt(next, paths, r, i)
    {
      if i < k {
        NamesDiffer(next, i, k);
        assert HeldAt(next, paths[..k], before, i);
      }
    }
    forall name | name in r && !Used(next, k + 1, name)
      ensures name in m && r[name] == m[name]
    {
      assert NthName(next, k) != name && !Used(next, k, name);
    }
  }

  /** The outcome of LockFiles, for as many new files as there are numbers: a .NET array cannot hold more. */
  lemma LockRenews(fold: Fold, m: Values, order: seq<string>, files: seq<string>)
    requires AllParse(order) && |Added(fold, m, files)| <= NUMBERS
    ensures Renewed(m, FirstIndex(order), Added(fold, m, files), Lock(fold, m, order, files))
  {
    LockAllExtends(fold, m, m, FirstIndex(order), files);
    ExtendRenews(m, FirstIndex(order), Added(fold, m, files));
  }

  /** Some old value that is this path keeps its name to itself. */
  ghost predicate Outlasts(fold: Fold, m: Values, next: int, count: nat, file: string) {
    exists name :: name in m && Matches(fold, m[name], file) && !Used(next, count, name)
  }

  /**
   * A file asked for is stored afterwards if and only if the key did not have it, or has it under a name that is
   * not used again: a number that has wrapped can take the place of a file that was not locked because it already
   * was there.
   */
  lemma LockStoresIff(fold: Fold, m: Values, order: seq<string>, files: seq<string>, file: string)
    requires AllParse(order) && |Added(fold, m, files)| <= NUMBERS && file in files
    ensures Stored(fold, Lock(fold, m, order, files), file) <==>
            (Stored(fold, m, file) ==>
               Outlasts(fold, m, FirstIndex(order), |Added(fold, m, files)|, file))
  {
    var paths, next, r := Added(fold, m, files), FirstIndex(order), Lock(fold, m, order, files);
    LockRenews(fold, m, order, files);
    if Stored(fold, m, file) {
      RenewedStores(fold, m, next, paths, r, file);
    } else {
      var i :| 0 <= i < |paths| && paths[i] == file;
      assert HeldAt(next, paths, r, i);
      assert Matches(fold, r[NthName(next, i)], file);
    }
  }

  lemma UsedIsWritten(m: Values, next: int, paths: seq<string>, r: Values, name: string)
    requires Renewed(m, next, paths, r)
    ensures Used(next, |paths|, name) ==> name in r && r[name].Some? && r[name].value in paths
  {
    if Used(next, |paths|, name) {
      var i :| 0 <= i < |paths| && NthName(next, i) == name;
      assert HeldAt(next, paths, r, i);
    }
  }

  lemma RenewedStores(fold: Fold, m: Values, next: int, paths: seq<string>, r: Values, file: string)
    requires Renewed(m, next, paths, r) && Stored(fold, m, file)
    requires forall i :: 0 <= i < |paths| ==> !Stored(fold, m, paths[i])
    ensures Stored(fold, r, file) <==> Outlasts(fold, m, next, |paths|, file)
  {
    var before :| before in m && Matches(fold, m[before], file);
    assert forall i :: 0 <= i < |paths| ==> !Matches(fold, m[before], paths[i]);
    if Stored(fold, r, file) {
      var name :| name in r && Matches(fold, r[name], file);
      UsedIsWritten(m, next, paths, r, name);
    }
    if name :| name in m && Matches(fold, m[name], file) && !Used(next, |paths|, name) {
      assert name in r && Matches(fold, r[name], file);
    }
  }

  /** No two values of the key are the same path. */
  ghost predicate Distinct(fold: Fold, m: Values) {
    forall a, b :: a in m && b in m && a != b && m[a].Some? && m[b].Some? ==>
      fold(m[a].value) != fold(m[b].value)
  }

  predicate PairwiseDistinct(fold: Fold, paths: seq<string>) {
    forall i, j :: 0 <= i < j < |paths| ==> fold(paths[i]) != fold(paths[j])
  }

  /** Every file asked for is stored afterwards. */
  lemma LockStoresAll(fold: Fold, m: Values, order: seq<string>, files: seq<string>, file: string)
    requires Enumerates(order, m) && AllParse(order) && Room(order, |Added(fold, m, files)|)
    requires file in files
    ensures Stored(fold, Lock(fold, m, order, files), file)
  {
    LockOnlyAdds(fold, m, order, files);
    var paths, next, r := Added(fold, m, files), FirstIndex(order), Lock(fold, m, order, files);
    if Stored(fold, m, file) {
      var name :| name in m && Matches(fold, m[name], file);
      assert name in r && Matches(fold, r[name], file);
    } else {
      var i :| 0 <= i < |paths| && paths[i] == file;
      assert NewAt(m, next, paths, r, i);
      assert Matches(fold, r[PrintD5(next + i)], file);
    }
  }

  /**
   * Locking keeps the stored paths distinct if and only if the files it adds are: presence is checked against a
   * snapshot, so a file that is new and asked for twice is stored twice.
   */
  lemma LockKeepsDistinctIff(fold: Fold, m: Values, order: seq<string>, files: seq<string>)
    requires AllParse(order) && |Added(fold, m, files)| <= NUMBERS
    requires Distinct(fold, m)
    ensures Distinct(fold, Lock(fold, m, order, files)) <==> PairwiseDistinct(fold, Added(fold, m, files))
  {
    LockRenews(fold, m, order, files);
    RenewedDistinctIff(fold, m, FirstIndex(order), Added(fold, m, files), Lock(fold, m, order, files));
  }

  lemma RenewedDistinctIff(fold: Fold, m: Values, next: int, paths: seq<string>, r: Values)
    requires |paths| <= NUMBERS && Renewed(m, next, paths, r) && Distinct(fold, m)
    requires forall i :: 0 <= i < |paths| ==> !Stored(fold, m, paths[i])
    ensures Distinct(fold, r) <==> PairwiseDistinct(fold, paths)
  {
    if Distinct(fold, r) {
      forall i, j | 0 <= i < j < |paths|
        ensures fold(paths[i]) != fold(paths[j])
      {
        assert HeldAt(next, paths, r, i) && HeldAt(next, paths, r, j);
        NamesDiffer(next, i, j);
      }
    }
    if PairwiseDistinct(fold, paths) {
      forall a, b | a in r && b in r && a != b && r[a].Some? && r[b].Some?
        ensures fold(r[a].value) != fold(r[b].value)
      {
        var i := WrittenOrOld(fold, m, next, paths, r, a);
        var j := WrittenOrOld(fold, m, next, paths, r, b);
      }
    }
  }

  /** A value of r is either an old one, different from every path, or path number i. */
  lemma WrittenOrOld(fold: Fold, m: Values, next: int, paths: seq<string>, r: Values, name: string)
    returns (i: int)
    requires Renewed(m, next, paths, r) && name in r
    requires forall i :: 0 <= i < |paths| ==> !Stored(fold, m, paths[i])
    ensures if 0 <= i < |paths| then r[name] == Some(paths[i]) && name == NthName(next, i)
            else name in m && r[name] == m[name] &&
                 forall k :: 0 <= k < |paths| ==> !Matches(fold, r[name], paths[k])
  {
    if Used(next, |paths|, name) {
      i :| 0 <= i < |paths| && NthName(next, i) == name;
      assert HeldAt(next, paths, r, i);
    } else {
      i := -1;
    }
  }

  /** A value of r is either an old one, different from every new path, or one of the new paths. */
  lemma NewOrOld(fold: Fold, m: Values, next: int, paths: seq<string>, r: Values, name: string)
    requires Appended(m, next, paths, r) && name in r
    requires forall i :: 0 <= i < |paths| ==> !Stored(fold, m, paths[i])
    ensures if name in m then
              r[name] == m[name] && forall i :: 0 <= i < |paths| ==> !Matches(fold, r[name], paths[i])
            else
              && ParseInt(name).Some? && 0 <= ParseInt(name).value - next < |paths|
              && name == PrintD5(ParseInt(name).value)
              && r[name] == Some(paths[ParseInt(name).value - next])
  {
    if name !in m {
      assert IsNew(next, paths, name);
      assert NewAt(m, next, paths, r, ParseInt(name).value - next);
    }
  }

  // ---------- unlocking ----------

  /** FirstOrDefault over the snapshot. */
  function FirstMatch(fold: Fold, m0: Values, order: seq<string>, file: string): (r: Option<string>)
    requires forall i :: 0 <= i < |order| ==> order[i] in m0
    ensures r.Some? ==> r.value in order && Matches(fold, m0[r.value], file)
    ensures r.None? ==> forall i :: 0 <= i < |order| ==> !Matches(fold, m0[order[i]], file)
  {
    if order == [] then None
    else if Matches(fold, m0[order[0]], file) then Some(order[0])
    else FirstMatch(fold, m0, order[1..], file)
  }

  /** UnlockFiles: the match is sought in the snapshot m0; deleting a name that is gone is ignored. */
  function UnlockAll(fold: Fold, m0: Values, order: seq<string>, m: Values, files: seq<string>): Values
    requires forall i :: 0 <= i < |order| ==> order[i] in m0
    decreases files
  {
    if files == [] then m
    else
      match FirstMatch(fold, m0, order, files[0])
      case Some(name) => UnlockAll(fold, m0, order, m - {name}, files[1..])
      case None => UnlockAll(fold, m0, order, m, files[1..])
  }

  /** The name is the first match of some file. */
  ghost predicate Victim(fold: Fold, m0: Values, order: seq<string>, files: seq<string>, name: string)
    requires forall i :: 0 <= i < |order| ==> order[i] in m0
  {
    exists i :: 0 <= i < |files| && FirstMatch(fold, m0, order, files[i]) == Some(name)
  }

  lemma {:induction false} UnlockAllDeletesVictims(
      fold: Fold, m0: Values, order: seq<string>, m: Values, files: seq<string>)
    requires forall i :: 0 <= i < |order| ==> order[i] in m0
    ensures UnlockAll(fold, m0, order, m, files) ==
            map name | name in m && !Victim(fold, m0, order, files, name) :: m[name]
    decreases files
  {
    if files == [] {
    } else {
      var first := FirstMatch(fold, m0, order, files[0]);
      var m' := if first.Some? then m - {first.value} else m;
      UnlockAllDeletesVictims(fold, m0, order, m', files[1..]);
      forall name | name in m
        ensures Victim(fold, m0, order, files, name) <==>
                first == Some(name) || Victim(fold, m0, order, files[1..], name)
      {
        if Victim(fold, m0, order, files, name) {
          var i :| 0 <= i < |files| && FirstMatch(fold, m0, order, files[i]) == Some(name);
          assert i > 0 ==> FirstMatch(fold, m0, order, files[1..][i - 1]) == Some(name);
        }
        if Victim(fold, m0, order, files[1..], name) {
          var i :| 0 <= i < |files| - 1 && FirstMatch(fold, m0, order, files[1..][i]) == Some(name);
          assert files[i + 1] == files[1..][i];
        }
      }
    }
  }

  /** Of the values in enumeration order, this is the first that is the file. */
  ghost predicate IsFirst(fold: Fold, m: Values, order: seq<string>, file: string, k: nat)
    requires k < |order| && forall i :: 0 <= i < |order| ==> order[i] in m
  {
    Matches(fold, m[order[k]], file) && forall j :: 0 <= j < k ==> !Matches(fold, m[order[j]], file)
  }

  lemma {:induction false} FirstMatchIsFirst(fold: Fold, m: Values, order: seq<string>, file: string)
    returns (k: nat)
    requires forall i :: 0 <= i < |order| ==> order[i] in m
    requires FirstMatch(fold, m, order, file).Some?
    ensures k < |order| && FirstMatch(fold, m, order, file) == Some(order[k]) && IsFirst(fold, m, order, file, k)
  {
    if Matches(fold, m[order[0]], file) {
      k := 0;
    } else {
      k := FirstMatchIsFirst(fold, m, order[1..], file);
      k := k + 1;
      forall j | 0 <= j < k
        ensures !Matches(fold, m[order[j]], file)
      {
        assert j > 0 ==> order[j] == order[1..][j - 1];
      }
    }
  }

  /** The name is the first one, in enumeration order, whose value is one of the files. */
  ghost predicate FirstForSome(fold: Fold, m: Values, order: seq<string>, files: seq<string>, k: nat)
    requires k < |order| && forall i :: 0 <= i < |order| ==> order[i] in m
  {
    exists i :: 0 <= i < |files| && IsFirst(fold, m, order, files[i], k)
  }

  /** UnlockFiles deletes exactly the names that come first among those of one of the files. */
  lemma UnlockDeletesFirstIff(fold: Fold, m: Values, order: seq<string>, files: seq<string>, k: nat)
    requires Enumerates(order, m) && k < |order|
    ensures order[k] !in Unlock(fold, m, order, files) <==> FirstForSome(fold, m, order, files, k)
  {
    UnlockAllDeletesVictims(fold, m, order, m, files);
    if Victim(fold, m, order, files, order[k]) {
      var i :| 0 <= i < |files| && FirstMatch(fold, m, order, files[i]) == Some(order[k]);
      var j := FirstMatchIsFirst(fold, m, order, files[i]);
      assert IsFirst(fold, m, order, files[i], k);
    }
    if FirstForSome(fold, m, order, files, k) {
      var i :| 0 <= i < |files| && IsFirst(fold, m, order, files[i], k);
      var j := FirstMatchIsFirst(fold, m, order, files[i]);
      assert j == k;
    }
  }

  /** The outcome of an UnlockFiles that does not throw. */
  function Unlock(fold: Fold, m: Values, order: seq<string>, files: seq<string>): Values
    requires forall i :: 0 <= i < |order| ==> order[i] in m
  {
    UnlockAll(fold, m, order, m, files)
  }

  /** The value is one of the files. */
  ghost predicate Named(fold: Fold, value: Option<string>, files: seq<string>) {
    exists i :: 0 <= i < |files| && Matches(fold, value, files[i])
  }

  /** The key without every value that is one of the files. */
  ghost function Without(fold: Fold, m: Values, files: seq<string>): Values {
    map name | name in m && !Named(fold, m[name], files) :: m[name]
  }

  /** No file is stored under two names. */
  ghost predicate StoredOnce(fold: Fold, m: Values, files: seq<string>) {
    forall a, b :: a in m && b in m && a != b && Named(fold, m[a], files) && Named(fold, m[b], files) ==>
      fold(m[a].value) != fold(m[b].value)
  }

  lemma VictimIsNamed(fold: Fold, m: Values, order: seq<string>, files: seq<string>, name: string)
    requires Enumerates(order, m) && Victim(fold, m, order, files, name)
    ensures name in m && Named(fold, m[name], files)
  {
    var i :| 0 <= i < |files| && FirstMatch(fold, m, order, files[i]) == Some(name);
    assert Matches(fold, m[name], files[i]);
  }

  /** When each file is stored at most once, a stored file is the victim of its own name. */
  lemma NamedIsVictim(fold: Fold, m: Values, order: seq<string>, files: seq<string>, name: string)
    requires Enumerates(order, m) && StoredOnce(fold, m, files)
    requires name in m && Named(fold, m[name], files)
    ensures Victim(fold, m, order, files, name)
  {
    var i :| 0 <= i < |files| && Matches(fold, m[name], files[i]);
    var j :| 0 <= j < |order| && order[j] == name;
    var first := FirstMatch(fold, m, order, files[i]).value;
    assert Matches(fold, m[first], files[i]) && Named(fold, m[first], files);
    assert first == name;
  }

  /** Of two names with one file, the call deletes one at most. */
  lemma TwinSurvives(fold: Fold, m: Values, order: seq<string>, files: seq<string>, a: string, b: string)
    requires Enumerates(order, m) && a in m && b in m && a != b
    requires Named(fold, m[a], files) && Named(fold, m[b], files) && fold(m[a].value) == fold(m[b].value)
    ensures a in Unlock(fold, m, order, files) || b in Unlock(fold, m, order, files)
  {
    UnlockAllDeletesVictims(fold, m, order, m, files);
    if Victim(fold, m, order, files, a) && Victim(fold, m, order, files, b) {
      var i :| 0 <= i < |files| && FirstMatch(fold, m, order, files[i]) == Some(a);
      var j :| 0 <= j < |files| && FirstMatch(fold, m, order, files[j]) == Some(b);
      FirstMatchRespectsFold(fold, m, order, files[i], files[j]);
    }
  }

  lemma {:induction false} FirstMatchRespectsFold(
      fold: Fold, m: Values, order: seq<string>, f: string, g: string)
    requires (forall i :: 0 <= i < |order| ==> order[i] in m) && fold(f) == fold(g)
    ensures FirstMatch(fold, m, order, f) == FirstMatch(fold, m, order, g)
    decreases order
  {
    if order == [] {
    } else {
      FirstMatchRespectsFold(fold, m, order[1..], f, g);
    }
  }

  /**
   * Unlocking removes every value that is one of the files, and nothing else, if and only if none of the files
   * is stored twice: only the first match of a file is deleted.
   */
  lemma UnlockRemovesAllIff(fold: Fold, m: Values, order: seq<string>, files: seq<string>)
    requires Enumerates(order, m)
    ensures Unlock(fold, m, order, files) == Without(fold, m, files) <==> StoredOnce(fold, m, files)
  {
    UnlockAllDeletesVictims(fold, m, order, m, files);
    var r := Unlock(fold, m, order, files);
    if StoredOnce(fold, m, files) {
      forall name | name in m
        ensures Victim(fold, m, order, files, name) <==> Named(fold, m[name], files)
      {
        if Victim(fold, m, order, files, name) {
          VictimIsNamed(fold, m, order, files, name);
        }
        if Named(fold, m[name], files) {
          NamedIsVictim(fold, m, order, files, name);
        }
      }
    } else {
      var a, b :| a in m && b in m && a != b && Named(fold, m[a], files) && Named(fold, m[b], files) &&
        fold(m[a].value) == fold(m[b].value);
      TwinSurvives(fold, m, order, files, a, b);
      assert a !in Without(fold, m, files) && b !in Without(fold, m, files);
    }
  }

  /** Whatever happens, unlocking only deletes, and only values that are one of the files. */
  lemma UnlockOnlyDeletes(fold: Fold, m: Values, order: seq<string>, files: seq<string>)
    requires Enumerates(order, m)
    ensures var r := Unlock(fold, m, order, files);
            && (forall name :: name in r ==> name in m && r[name] == m[name])
            && (forall name :: name in m && name !in r ==> Named(fold, m[name], files))
            && (Distinct(fold, m) ==> Distinct(fold, r))
  {
    UnlockAllDeletesVictims(fold, m, order, m, files);
    forall name | name in m && Victim(fold, m, order, files, name)
      ensures Named(fold, m[name], files)
    {
      VictimIsNamed(fold, m, order, files, name);
    }
  }

  // ---------- locking, then unlocking ----------

  /** What locking adds is, all of it, among the files. */
  lemma AddedAreNamed(fold: Fold, m: Values, next: int, paths: seq<string>, r: Values, files: seq<string>)
    requires Appended(m, next, paths, r)
    requires forall i :: 0 <= i < |paths| ==> !Stored(fold, m, paths[i]) && paths[i] in files
    ensures Without(fold, r, files) == Without(fold, m, files)
  {
    forall name | name in r && name !in m
      ensures Named(fold, r[name], files)
    {
      NewOrOld(fold, m, next, paths, r, name);
      var i :| 0 <= i < |files| && files[i] == r[name].value;
      assert Matches(fold, r[name], files[i]);
    }
  }

  /** The files are stored once after locking exactly when they were before and the added ones are distinct. */
  lemma LockKeepsOnceIff(fold: Fold, m: Values, next: int, paths: seq<string>, r: Values, files: seq<string>)
    requires Appended(m, next, paths, r)
    requires forall i :: 0 <= i < |paths| ==> !Stored(fold, m, paths[i]) && paths[i] in files
    ensures StoredOnce(fold, r, files) <==> StoredOnce(fold, m, files) && PairwiseDistinct(fold, paths)
  {
    if StoredOnce(fold, r, files) {
      forall i, j | 0 <= i < j < |paths|
        ensures fold(paths[i]) != fold(paths[j])
      {
        NewIsNamed(fold, m, next, paths, r, files, i);
        NewIsNamed(fold, m, next, paths, r, files, j);
      }
    }
    if StoredOnce(fold, m, files) && PairwiseDistinct(fold, paths) {
      forall a, b | a in r && b in r && a != b && Named(fold, r[a], files) && Named(fold, r[b], files)
        ensures fold(r[a].value) != fold(r[b].value)
      {
        NewOrOld(fold, m, next, paths, r, a);
        NewOrOld(fold, m, next, paths, r, b);
      }
    }
  }

  /** The name under which path number i was added. */
  lemma NewIsNamed(fold: Fold, m: Values, next: int, paths: seq<string>, r: Values, files: seq<string>, i: nat)
    requires Appended(m, next, paths, r) && i < |paths| && paths[i] in files
    ensures var name := PrintD5(next + i);
            && ParseInt(name) == Some(next + i)
            && name in r && r[name] == Some(paths[i]) && Named(fold, r[name], files)
  {
    assert NewAt(m, next, paths, r, i);
    var j :| 0 <= j < |files| && files[j] == paths[i];
    assert Matches(fold, Some(paths[i]), files[j]);
  }

  /**
   * Unlocking files just locked leaves the old key without any of them if and only if none was stored twice and
   * the added ones are pairwise distinct, in whichever order the system enumerates the names.
   */
  lemma UnlockUndoesLockIff(fold: Fold, m: Values, order: seq<string>, files: seq<string>, order': seq<string>)
    requires Enumerates(order, m) && AllParse(order) && Room(order, |Added(fold, m, files)|)
    requires Enumerates(order', Lock(fold, m, order, files))
    ensures Unlock(fold, Lock(fold, m, order, files), order', files) == Without(fold, m, files) <==>
            StoredOnce(fold, m, files) && PairwiseDistinct(fold, Added(fold, m, files))
  {
    var paths, next, r := Added(fold, m, files), FirstIndex(order), Lock(fold, m, order, files);
    LockOnlyAdds(fold, m, order, files);
    UnlockRemovesAllIff(fold, r, order', files);
    AddedAreNamed(fold, m, next, paths, r, files);
    LockKeepsOnceIff(fold, m, next, paths, r, files);
  }

  ghost predicate NoneStored(fold: Fold, m: Values, files: seq<string>) {
    forall i :: 0 <= i < |files| ==> !Stored(fold, m, files[i])
  }

  lemma {:induction false} AllAdded(fold: Fold, m: Values, files: seq<string>)
    requires NoneStored(fold, m, files)
    ensures Added(fold, m, files) == files && Without(fold, m, files) == m
    ensures forall name :: name in m ==> !Named(fold, m[name], files)
  {
    if files == [] {
    } else {
      assert NoneStored(fold, m, files[1..]) by {
        assert forall i :: 0 <= i < |files| - 1 ==> files[1..][i] == files[i + 1];
      }
      AllAdded(fold, m, files[1..]);
    }
    forall name | name in m
      ensures !Named(fold, m[name], files)
    {
      assert forall i :: 0 <= i < |files| && Matches(fold, m[name], files[i]) ==> Stored(fold, m, files[i]);
    }
  }

  /**
   * For files the key does not have, locking and then unlocking them restores the key if and only if they are
   * pairwise distinct, in whichever order the system enumerates the names.
   */
  lemma LockUnlockRestoresIff(fold: Fold, m: Values, order: seq<string>, files: seq<string>, order': seq<string>)
    requires Enumerates(order, m) && AllParse(order) && Room(order, |files|)
    requires NoneStored(fold, m, files)
    requires Enumerates(order', Lock(fold, m, order, files))
    ensures Unlock(fold, Lock(fold, m, order, files), order', files) == m <==> PairwiseDistinct(fold, files)
  {
    AllAdded(fold, m, files);
    UnlockUndoesLockIff(fold, m, order, files, order');
  }

  // ---------- the registry key ----------

  class RegistryKey {
    var values: Values

    constructor (values: Values)
      ensures this.values == values
    {
      this.values := values;
    }

    /** GetValueNames, in some order. */
    method GetValueNames() returns (order: seq<string>)
      ensures Enumerates(order, values)
    {
      order := [];
      var left := values.Keys;
      while left != {}
        invariant left <= values.Keys
        invariant forall i :: 0 <= i < |order| ==> order[i] in values && order[i] !in left
        invariant forall i, j :: 0 <= i < j < |order| ==> order[i] != order[j]
        invariant forall name :: name in values ==> name in left || name in order
        decreases left
      {
        var name :| name in left;
        order, left := order + [name], left - {name};
      }
    }

    /** LockFiles. It throws, before anything is written, when some value name is not a number. */
    method LockFiles(fold: Fold, files: seq<string>) returns (thrown: bool, ghost order: seq<string>)
      modifies this
      ensures Enumerates(order, old(values)) && (thrown <==> !AllParse(order))
      ensures thrown <==> exists name :: name in old(values) && !IsInt32(name)
      ensures values == if thrown then old(values) else Lock(fold, old(values), order, files)
    {
      var valueNames := GetValueNames();
      order := valueNames;
      NamesParseIff(values, order);
      var existing := values;
      if !AllParse(valueNames) {
        return true, order;
      }
      var maxIndex := FirstIndex(valueNames);
      for i := 0 to |files|
        invariant existing == old(values)
        invariant LockAll(fold, existing, values, maxIndex, files[i..]) == Lock(fold, existing, order, files)
      {
        var newFile := files[i];
        SnapshotDecides(fold, existing, valueNames, newFile);
        assert files[i..][0] == newFile && files[i..][1..] == files[i + 1..];
        if !exists k :: 0 <= k < |valueNames| && Matches(fold, existing[valueNames[k]], newFile) {
          values := values[PrintD5(maxIndex) := Some(newFile)];
          maxIndex := Wrap32(maxIndex + 1);
        }
      }
      thrown := false;
    }

    /** UnlockFiles. It throws, before anything is deleted, when some value name is not a number. */
    method UnlockFiles(fold: Fold, files: seq<string>) returns (thrown: bool, ghost order: seq<string>)
      modifies this
      ensures Enumerates(order, old(values)) && (thrown <==> !AllParse(order))
      ensures thrown <==> exists name :: name in old(values) && !IsInt32(name)
      ensures values == if thrown then old(values) else Unlock(fold, old(values), order, files)
    {
      var valueNames := GetValueNames();
      order := valueNames;
      NamesParseIff(values, order);
      thrown := false;
      if valueNames != [] {
        var existing := values;
        if !AllParse(valueNames) {
          return true, order;
        }
        var maxIndex := FirstIndex(valueNames);
        for i := 0 to |files|
          invariant existing == old(values)
          invariant UnlockAll(fold, existing, order, values, files[i..]) == Unlock(fold, existing, order, files)
        {
          var unlockFile := files[i];
          assert files[i..][0] == unlockFile && files[i..][1..] == files[i + 1..];
          var unlockName := FirstMatch(fold, existing, valueNames, unlockFile);
          if unlockName.Some? {
            values := values - {unlockName.value};
          }
        }
      } else {
        NothingToUnlock(fold, values, files);
      }
    }
  }

  /** A name that does not parse is one that is no numeral of an Int32. */
  lemma NamesParseIff(m: Values, order: seq<string>)
    requires Enumerates(order, m)
    ensures AllParse(order) <==> forall name :: name in m ==> IsInt32(name)
  {
    forall name: string
      ensures ParseInt(name).Some? <==> IsInt32(name)
    {
      if ParseInt(name).Some? {
        ParseIntIff(name, ParseInt(name).value);
      }
      if IsInt32(name) {
        var v :| IsNumber(name, v);
        ParseIntIff(name, v);
      }
    }
    if AllParse(order) {
      forall name | name in m
        ensures ParseInt(name).Some?
      {
        var i :| 0 <= i < |order| && order[i] == name;
      }
    }
  }

  /** Any over the snapshot is Stored in the key. */
  lemma SnapshotDecides(fold: Fold, m: Values, order: seq<string>, file: string)
    requires Enumerates(order, m)
    ensures (exists k :: 0 <= k < |order| && Matches(fold, m[order[k]], file)) <==> Stored(fold, m, file)
  {
    if Stored(fold, m, file) {
      var name :| name in m && Matches(fold, m[name], file);
      var k :| 0 <= k < |order| && order[k] == name;
      assert Matches(fold, m[order[k]], file);
    }
  }

  lemma {:induction false} NothingToUnlock(fold: Fold, m: Values, files: seq<string>)
    ensures UnlockAll(fold, m, [], m, files) == m
  {
    if files == [] {
    } else {
      NothingToUnlock(fold, m, files[1..]);
    }
  }
}
