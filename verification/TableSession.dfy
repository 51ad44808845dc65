/** Whole sessions on the heap: a table is created, used while allocations fail at will, and freed. */
module TableSession {
  import opened Units
  import opened Hashing
  import opened PoolModel
  import opened TableSpec
  import opened TableRuns
  import opened ChainedTable

  datatype Request =
    | SetRequest(key: Ustr, value: Option<Ustr>)
    | RemoveRequest(key: Ustr)

  /** The call was made for the request, with some outcome of its allocations. */
  ghost predicate Serves(op: Op, request: Request) {
    match request
    case SetRequest(key, value) => op.Set? && op.key == key && op.value == value
    case RemoveRequest(key) => op == Op.Remove(key)
  }

  /** No allocation of the call was refused. */
  predicate Spared(op: Op) {
    op.Set? ==> !op.oom
  }

  /** The calls were all spared exactly if everything asked for since then was granted. */
  ghost predicate Accounts(ops: seq<Op>, pool: Pool, first: nat)
    reads pool
  {
    && pool.asked >= first
    && ((forall i :: 0 <= i < |ops| ==> Spared(ops[i])) <==> pool.Grants(first, pool.asked))
  }

  lemma OneMoreAccount(ops: seq<Op>, op: Op, pool: Pool, first: nat, before: nat)
    requires first <= before <= pool.asked
    requires (forall i :: 0 <= i < |ops| ==> Spared(ops[i])) <==> pool.Grants(first, before)
    requires Spared(op) <==> pool.Grants(before, pool.asked)
    ensures Accounts(ops + [op], pool, first)
  {
    pool.GrantsJoin(first, before, pool.asked);
    assert (ops + [op])[|ops|] == op;
    assert forall i :: 0 <= i < |ops| ==> (ops + [op])[i] == ops[i];
  }

  /** One request. A removal that would leave a chain dangling is not served and changes nothing. */
  method Serve(table: HashTable, request: Request) returns (served: bool, ghost op: Op)
    requires table.Valid() && table.size > 0
    modifies table.pool, table.blocks
    ensures table.Valid() && table.size == old(table.size) && fresh(table.blocks - old(table.blocks))
    ensures table.pool.live == old(table.pool.live) - old(table.blocks) + table.blocks
    ensures table.pool.asked >= old(table.pool.asked)
    ensures served ==> (Spared(op) <==> table.pool.Grants(old(table.pool.asked), table.pool.asked))
    ensures !served ==> table.pool.asked == old(table.pool.asked)
    ensures served ==>
              && Serves(op, request) && StepTable(table.up, old(table.chains), op) == Some(table.chains)
    ensures !served ==> table.chains == old(table.chains) && Dangles(table.up, table.chains, request)
  {
    match request {
      case SetRequest(key, value) =>
        var entry; ghost var oom;
        entry, oom := table.Set(key, value);
        return true, Op.Set(key, value, oom);
      case RemoveRequest(key) =>
        op := Op.Remove(key);
        served := table.RemovalIsIntact(key);
        if served {
          var found := table.Remove(key);
        }
    }
  }

  /** The request would leave a chain dangling. */
  predicate Dangles(up: CaseTable, t: Table, request: Request)
    requires 0 < |t| < ULONG_LIMIT
  {
    request.RemoveRequest? && Drop(up, t, request.key).None?
  }

  function AnswerOf(found: Option<Option<Ustr>>): Option<Ustr> {
    if found.Some? then found.value else None
  }

  method Answer(table: HashTable, probe: Ustr) returns (answer: Option<Ustr>)
    requires table.Valid() && table.size > 0
    ensures answer == AnswerOf(Lookup(table.up, table.chains, probe))
  {
    var value := table.GetValueByKey(probe);
    answer := if value == null then None else Some(value.text);
  }

  /** Serves requests until the first that would leave a chain dangling; ops are the calls that were made. */
  method ServeAll(table: HashTable, requests: seq<Request>) returns (ghost ops: seq<Op>)
    requires table.Valid() && table.size > 0
    modifies table.pool, table.blocks
    ensures table.Valid() && table.size == old(table.size) && fresh(table.blocks - old(table.blocks))
    ensures table.pool.live == old(table.pool.live) - old(table.blocks) + table.blocks
    ensures |ops| <= |requests| && forall i :: 0 <= i < |ops| ==> Serves(ops[i], requests[i])
    ensures RunTable(table.up, old(table.chains), ops) == Some(table.chains)
    ensures Accounts(ops, table.pool, old(table.pool.asked))
    ensures |ops| < |requests| ==> Dangles(table.up, table.chains, requests[|ops|])
  {
    ops := [];
    ghost var start := table.chains;
    ghost var was := table.blocks;
    ghost var others := table.pool.live - was;
    var index := 0;
    while index < |requests|
      invariant |ops| == index <= |requests|
      invariant forall i :: 0 <= i < |ops| ==> Serves(ops[i], requests[i])
      invariant table.Valid() && table.size == old(table.size) && fresh(table.blocks - was)
      invariant table.pool.live == others + table.blocks
      invariant RunTable(table.up, start, ops) == Some(table.chains)
      invariant Accounts(ops, table.pool, old(table.pool.asked))
    {
      var served; ghost var op;
      ghost var before := table.pool.asked;
      served, op := Serve(table, requests[index]);
      if !served {
        break;
      }
      OneMoreAccount(ops, op, table.pool, old(table.pool.asked), before);
      RunSnoc(table.up, start, ops, op);
      ops := ops + [op];
      index := index + 1;
    }
  }

  /** What happens to an empty table between its creation and its end. */
  method UseTable(table: HashTable, requests: seq<Request>, probe: Ustr)
    returns (answer: Option<Ustr>, ghost ops: seq<Op>)
    requires table.Valid() && table.size > 0 && table.chains == Empty(table.size)
    modifies table.pool, table.blocks
    ensures table.Valid() && fresh(table.blocks - old(table.blocks))
    ensures table.pool.live == old(table.pool.live) - old(table.blocks) + table.blocks
    ensures Accounts(ops, table.pool, old(table.pool.asked))
    ensures |ops| <= |requests| && forall i :: 0 <= i < |ops| ==> Serves(ops[i], requests[i])
    ensures var start := Empty(old(table.size));
            && RunTable(table.up, start, ops).Some?
            && var t := RunTable(table.up, start, ops).value;
               && WellFormed(table.up, t) && answer == AnswerOf(Lookup(table.up, t, probe))
               && (|ops| < |requests| ==> Dangles(table.up, t, requests[|ops|]))
    ensures SafeRun(table.up, Empty(old(table.size)), ops) ==>
              answer == AnswerOf(Get(RunMap(table.up, old(table.size), map[], ops),
                                     SlotOf(table.up, old(table.size), probe)))
  {
    ops := ServeAll(table, requests);
    EmptyIsWellFormed(table.up, table.size);
    ReachableIsWellFormed(table.up, Empty(table.size), ops);
    answer := Answer(table, probe);
    if SafeRun(table.up, Empty(table.size), ops) {
      RunRefinesMap(table.up, table.size, ops, probe);
    }
  }

  /**
   * Creates a table, serves requests until the first that would leave a chain dangling, looks a key up and frees
   * the table. Whichever allocations fail, the pool ends as it began, and the answer is the one the run gives; it
   * is the one a map gives when every removal met a last entry or none.
   */
  method Session(pool: Pool, up: CaseTable, size: ulong, requests: seq<Request>, probe: Ustr)
    returns (created: bool, answer: Option<Ustr>, ghost ops: seq<Op>)
    requires size > 0
    modifies pool
    ensures created <==> pool.Grants(old(pool.asked), old(pool.asked) + 2)
    ensures (created && forall i :: 0 <= i < |ops| ==> Spared(ops[i])) <==> pool.Grants(old(pool.asked), pool.asked)
    ensures pool.live == old(pool.live)
    ensures |ops| <= |requests| && forall i :: 0 <= i < |ops| ==> Serves(ops[i], requests[i])
    ensures created ==>
              && RunTable(up, Empty(size), ops).Some?
              && var t := RunTable(up, Empty(size), ops).value;
                 && WellFormed(up, t) && answer == AnswerOf(Lookup(up, t, probe))
                 && (|ops| < |requests| ==> Dangles(up, t, requests[|ops|]))
    ensures created && SafeRun(up, Empty(size), ops) ==>
              answer == AnswerOf(Get(RunMap(up, size, map[], ops), SlotOf(up, size, probe)))
  {
    var table := HashTable.Create(pool, up, size);
    if table == null {
      return false, None, [];
    }
    created := true;
    ghost var middle := pool.asked;
    answer, ops := UseTable(table, requests, probe);
    pool.GrantsJoin(old(pool.asked), middle, pool.asked);
    HashTable.Free(table);
  }
}
