/** Whole runs of the hash table, with allocations failing arbitrarily, against a plain map. */
module TableRuns {
  import opened Units
  import opened Hashing
  import opened TableSpec

  /** One call; oom is the outcome of its allocations. Lookups change nothing and are quantified over instead. */
  datatype Op =
    | Set(key: Ustr, value: Option<Ustr>, oom: bool)
    | Remove(key: Ustr)

  /** What identifies an entry: its upcased key together with the bucket of its raw key. */
  datatype Slot = Slot(name: seq<unit>, bucket: nat)

  type Reference = map<Slot, Option<Ustr>>

  function SlotOf(up: CaseTable, size: ulong, key: Ustr): Slot
    requires size > 0
  {
    Slot(Upcase(up, key), Bucket(key, size))
  }

  function Get<K, V>(m: map<K, V>, k: K): Option<V> {
    if k in m then Some(m[k]) else None
  }

  // ---------- one call ----------

  function StepTable(up: CaseTable, t: Table, op: Op): (r: Option<Table>)
    requires 0 < |t| < ULONG_LIMIT
    ensures r.Some? ==> |r.value| == |t|
  {
    match op
    case Set(key, value, oom) => Some(Put(up, t, key, value, oom))
    case Remove(key) => Drop(up, t, key)
  }

  function StepMap<K>(m: map<K, Option<Ustr>>, k: K, op: Op): map<K, Option<Ustr>> {
    match op
    case Set(_, value, oom) =>
      if !oom then m[k := value] else if k in m then m[k := None] else m
    case Remove(_) => m - {k}
  }

  predicate Safe(up: CaseTable, t: Table, op: Op)
    requires 0 < |t| < ULONG_LIMIT
  {
    op.Remove? ==> MatchIsLastOrAbsent(up, t, op.key)
  }

  ghost predicate Agrees(up: CaseTable, t: Table, m: Reference)
    requires 0 < |t| < ULONG_LIMIT
  {
    forall key: Ustr :: Lookup(up, t, key) == Get(m, SlotOf(up, |t|, key))
  }

  lemma StepKeepsWellFormed(up: CaseTable, t: Table, op: Op)
    requires WellFormed(up, t)
    ensures StepTable(up, t, op).Some? ==> WellFormed(up, StepTable(up, t, op).value)
  {
    match op
    case Set(key, value, oom) => PutKeepsWellFormed(up, t, key, value, oom);
    case Remove(key) => DropKeepsWellFormed(up, t, key);
  }

  lemma SetRefines(up: CaseTable, t: Table, m: Reference, op: Op)
    requires WellFormed(up, t) && Agrees(up, t, m) && op.Set?
    ensures Agrees(up, StepTable(up, t, op).value, StepMap(m, SlotOf(up, |t|, op.key), op))
  {
    var m' := StepMap(m, SlotOf(up, |t|, op.key), op);
    forall other: Ustr
      ensures Lookup(up, StepTable(up, t, op).value, other) == Get(m', SlotOf(up, |t|, other))
    {
      LookupAfterPut(up, t, op.key, op.value, op.oom, other);
      SameIffUpcaseEqual(up, op.key, other);
      assert Lookup(up, t, op.key) == Get(m, SlotOf(up, |t|, op.key));
      assert Lookup(up, t, other) == Get(m, SlotOf(up, |t|, other));
    }
  }

  /** What the map without the slot answers. */
  lemma SlotDeleted(up: CaseTable, t: Table, m: Reference, key: Ustr, other: Ustr)
    requires 0 < |t| < ULONG_LIMIT && Agrees(up, t, m)
    ensures Get(m - {SlotOf(up, |t|, key)}, SlotOf(up, |t|, other)) ==
            if Same(up, key, other) && Bucket(key, |t|) == Bucket(other, |t|) then None else Lookup(up, t, other)
  {
    SameIffUpcaseEqual(up, key, other);
    assert Lookup(up, t, other) == Get(m, SlotOf(up, |t|, other));
  }

  lemma RemoveRefinesIff(up: CaseTable, t: Table, m: Reference, key: Ustr)
    requires 0 < |t| < ULONG_LIMIT && Agrees(up, t, m) && Drop(up, t, key).Some?
    ensures Agrees(up, Drop(up, t, key).value, m - {SlotOf(up, |t|, key)}) <==> DeletesExactly(up, t, key)
  {
    forall other: Ustr
      ensures Get(m - {SlotOf(up, |t|, key)}, SlotOf(up, |t|, other)) ==
              if Same(up, key, other) && Bucket(key, |t|) == Bucket(other, |t|) then None else Lookup(up, t, other)
    {
      SlotDeleted(up, t, m, key, other);
    }
  }

  /** From agreeing states, one call leads to agreeing states if and only if it is safe. */
  lemma StepRefinesIff(up: CaseTable, t: Table, m: Reference, op: Op)
    requires WellFormed(up, t) && Agrees(up, t, m)
    ensures (StepTable(up, t, op).Some? &&
             Agrees(up, StepTable(up, t, op).value, StepMap(m, SlotOf(up, |t|, op.key), op)))
            <==> Safe(up, t, op)
  {
    if op.Set? {
      SetRefines(up, t, m, op);
    } else {
      RemoveDeletesExactlyIff(up, t, op.key);
      if StepTable(up, t, op).Some? {
        RemoveRefinesIff(up, t, m, op.key);
      }
    }
  }

  // ---------- runs ----------

  /** HashTableCreate: every chain empty. */
  function Empty(size: nat): (t: Table)
    ensures |t| == size && forall b :: 0 <= b < size ==> t[b] == []
  {
    seq(size, _ => [])
  }

  /** None once a call has left a chain dangling. */
  function RunTable(up: CaseTable, t: Table, ops: seq<Op>): (r: Option<Table>)
    requires 0 < |t| < ULONG_LIMIT
    ensures r.Some? ==> |r.value| == |t|
    decreases ops
  {
    if ops == [] then Some(t)
    else
      match StepTable(up, t, ops[0])
      case None => None
      case Some(t') => RunTable(up, t', ops[1..])
  }

  function RunMap(up: CaseTable, size: ulong, m: Reference, ops: seq<Op>): Reference
    requires size > 0
    decreases ops
  {
    if ops == [] then m
    else RunMap(up, size, StepMap(m, SlotOf(up, size, ops[0].key), ops[0]), ops[1..])
  }

  /** Every removal of the run meets its guard at the moment it is made. */
  predicate SafeRun(up: CaseTable, t: Table, ops: seq<Op>)
    requires 0 < |t| < ULONG_LIMIT
    decreases ops
  {
    ops != [] ==>
      && Safe(up, t, ops[0])
      && (StepTable(up, t, ops[0]).Some? ==> SafeRun(up, StepTable(up, t, ops[0]).value, ops[1..]))
  }

  /** A run grows by one call at its end. */
  lemma {:induction false} RunSnoc(up: CaseTable, t: Table, ops: seq<Op>, op: Op)
    requires 0 < |t| < ULONG_LIMIT
    requires RunTable(up, t, ops).Some?
    ensures RunTable(up, t, ops + [op]) == StepTable(up, RunTable(up, t, ops).value, op)
    decreases ops
  {
    if ops == [] {
      assert ops + [op] == [op];
    } else {
      assert (ops + [op])[1..] == ops[1..] + [op];
      RunSnoc(up, StepTable(up, t, ops[0]).value, ops[1..], op);
    }
  }

  lemma {:induction false} RunRefinesFrom(up: CaseTable, t: Table, m: Reference, ops: seq<Op>)
    requires WellFormed(up, t) && Agrees(up, t, m) && SafeRun(up, t, ops)
    ensures RunTable(up, t, ops).Some?
    ensures Agrees(up, RunTable(up, t, ops).value, RunMap(up, |t|, m, ops))
    decreases ops
  {
    if ops == [] {
    } else {
      StepRefinesIff(up, t, m, ops[0]);
      StepKeepsWellFormed(up, t, ops[0]);
      var t' := StepTable(up, t, ops[0]).value;
      RunRefinesFrom(up, t', StepMap(m, SlotOf(up, |t|, ops[0].key), ops[0]), ops[1..]);
    }
  }

  lemma EmptyIsWellFormed(up: CaseTable, size: ulong)
    requires size > 0
    ensures WellFormed(up, Empty(size)) && Agrees(up, Empty(size), map[])
  {
  }

  /**
   * After any run from creation whose removals meet their guard, and whichever allocations fail, every
   * lookup answers as a map keyed on (upcased key, bucket) would.
   */
  lemma RunRefinesMap(up: CaseTable, size: ulong, ops: seq<Op>, key: Ustr)
    requires size > 0 && SafeRun(up, Empty(size), ops)
    ensures RunTable(up, Empty(size), ops).Some?
    ensures Lookup(up, RunTable(up, Empty(size), ops).value, key) ==
            Get(RunMap(up, size, map[], ops), SlotOf(up, size, key))
  {
    EmptyIsWellFormed(up, size);
    RunRefinesFrom(up, Empty(size), map[], ops);
  }

  /** Every table reached without leaving a chain dangling is well-formed, unsafe head removals included. */
  lemma {:induction false} ReachableIsWellFormed(up: CaseTable, t: Table, ops: seq<Op>)
    requires WellFormed(up, t)
    ensures RunTable(up, t, ops).Some? ==> WellFormed(up, RunTable(up, t, ops).value)
    decreases ops
  {
    if ops == [] {
    } else {
      StepKeepsWellFormed(up, t, ops[0]);
      if StepTable(up, t, ops[0]).Some? {
        ReachableIsWellFormed(up, StepTable(up, t, ops[0]).value, ops[1..]);
      }
    }
  }

  // ---------- one spelling per key ----------

  /** The set holds no two spellings of one key: upcased keys, or downcased ones where the tables are inverse. */
  ghost predicate OneSpelling(up: CaseTable, keys: iset<Ustr>) {
    forall a, b :: a in keys && b in keys && Same(up, a, b) ==> a == b
  }

  ghost predicate KeysIn(ops: seq<Op>, keys: iset<Ustr>) {
    forall i :: 0 <= i < |ops| ==> ops[i].key in keys
  }

  /** The run on a map keyed on the key alone. */
  function RunPlain(m: map<Ustr, Option<Ustr>>, ops: seq<Op>): map<Ustr, Option<Ustr>>
    decreases ops
  {
    if ops == [] then m else RunPlain(StepMap(m, ops[0].key, ops[0]), ops[1..])
  }

  ghost predicate SlotsMirror(
      up: CaseTable, size: ulong, keys: iset<Ustr>, m: Reference, p: map<Ustr, Option<Ustr>>)
    requires size > 0
  {
    forall key :: key in keys ==> Get(m, SlotOf(up, size, key)) == Get(p, key)
  }

  lemma StepMirrors(
      up: CaseTable, size: ulong, keys: iset<Ustr>, m: Reference, p: map<Ustr, Option<Ustr>>, op: Op)
    requires size > 0 && OneSpelling(up, keys) && SlotsMirror(up, size, keys, m, p) && op.key in keys
    ensures SlotsMirror(up, size, keys, StepMap(m, SlotOf(up, size, op.key), op), StepMap(p, op.key, op))
  {
    var s := SlotOf(up, size, op.key);
    var m', p' := StepMap(m, s, op), StepMap(p, op.key, op);
    forall key | key in keys
      ensures Get(m', SlotOf(up, size, key)) == Get(p', key)
    {
      SameIffUpcaseEqual(up, key, op.key);
      assert SlotOf(up, size, key) == s <==> key == op.key;
      assert Get(m, SlotOf(up, size, key)) == Get(p, key);
    }
  }

  lemma {:induction false} PlainMirror(
      up: CaseTable, size: ulong, keys: iset<Ustr>, m: Reference, p: map<Ustr, Option<Ustr>>, ops: seq<Op>)
    requires size > 0 && OneSpelling(up, keys) && SlotsMirror(up, size, keys, m, p) && KeysIn(ops, keys)
    ensures SlotsMirror(up, size, keys, RunMap(up, size, m, ops), RunPlain(p, ops))
    decreases ops
  {
    if ops == [] {
    } else {
      var s := SlotOf(up, size, ops[0].key);
      StepMirrors(up, size, keys, m, p, ops[0]);
      PlainMirror(up, size, keys, StepMap(m, s, ops[0]), StepMap(p, ops[0].key, ops[0]), ops[1..]);
    }
  }

  /** When no two spellings of one key are ever used, the table is a map keyed on the key itself. */
  lemma OneSpellingRunIsPlainMap(up: CaseTable, size: ulong, ops: seq<Op>, keys: iset<Ustr>, key: Ustr)
    requires size > 0 && SafeRun(up, Empty(size), ops)
    requires OneSpelling(up, keys) && KeysIn(ops, keys) && key in keys
    ensures RunTable(up, Empty(size), ops).Some?
    ensures Lookup(up, RunTable(up, Empty(size), ops).value, key) == Get(RunPlain(map[], ops), key)
  {
    RunRefinesMap(up, size, ops, key);
    PlainMirror(up, size, keys, map[], map[], ops);
  }

  /** The key went through a case table, as the driver's keys do before they reach the table of locked files. */
  ghost predicate Folded(fold: CaseTable, key: Ustr) {
    exists raw: Ustr :: key == Upcase(fold, raw)
  }

  /** Folded keys are spelled alike, unless the table's equality identifies two units that fold differently. */
  lemma FoldedIsOneSpelling(up: CaseTable, fold: CaseTable)
    requires forall u, v: unit :: up(fold(u)) == up(fold(v)) ==> fold(u) == fold(v)
    ensures OneSpelling(up, iset key: Ustr | Folded(fold, key))
  {
    forall a: Ustr, b: Ustr | Folded(fold, a) && Folded(fold, b) && Same(up, a, b)
      ensures a == b
    {
      var x: Ustr :| a == Upcase(fold, x);
      var y: Ustr :| b == Upcase(fold, y);
      forall i | 0 <= i < |a|
        ensures a[i] == b[i]
      {
        assert up(fold(x[i])) == up(fold(y[i]));
      }
    }
  }
}
