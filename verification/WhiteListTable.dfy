/**
 * The whitelist behind the parser: SetWhiteListCallback puts the names, as the client spelled them, into a table
 * with one bucket per name, in which IsLocked then looks for the downcased name of a process.
 */
module WhiteListTable {
  import opened Units
  import opened Hashing
  import opened PoolModel
  import opened StringLists
  import opened Wire
  import opened TableSpec
  import opened TableRuns
  import opened ChainedTable
  import opened WhiteListLoop
  import opened WhiteListWrap
  import opened PortMessages
  import opened WhiteLists
  import opened WhiteListRoundTrip

  /** The calls that fill the table; ooms tells which of them met a failing allocation. */
  function SetCalls(texts: seq<Ustr>, ooms: seq<bool>): (ops: seq<Op>)
    requires |texts| == |ooms|
    ensures |ops| == |texts|
    ensures forall i :: 0 <= i < |texts| ==> ops[i] == Op.Set(texts[i], None, ooms[i])
  {
    seq(|texts|, i requires 0 <= i < |texts| => Op.Set(texts[i], None, ooms[i]))
  }

  /** The table the texts end up in: one bucket for each of them. */
  ghost predicate FilledWith(up: CaseTable, texts: seq<Ustr>, ooms: seq<bool>, t: Table) {
    && 0 < |texts| == |ooms| < ULONG_LIMIT
    && RunTable(up, Empty(|texts|), SetCalls(texts, ooms)) == Some(t)
  }

  /** A lookup of the key meets an entry stored under the name. */
  predicate Meets(up: CaseTable, name: seq<unit>, key: seq<unit>, size: ulong)
    requires size > 0
  {
    Same(up, name, key) && Bucket(name, size) == Bucket(key, size)
  }

  /** No allocation was refused. */
  predicate NoneOom(ooms: seq<bool>) {
    forall i :: 0 <= i < |ooms| ==> !ooms[i]
  }

  // ---------- which processes are recognised ----------

  ghost predicate OnlySets(ops: seq<Op>) {
    forall i :: 0 <= i < |ops| ==> ops[i].Set?
  }

  lemma {:induction false} SetsAreSafe(up: CaseTable, t: Table, ops: seq<Op>)
    requires 0 < |t| < ULONG_LIMIT && OnlySets(ops)
    ensures SafeRun(up, t, ops)
    decreases ops
  {
    if ops == [] {
    } else {
      SetsAreSafe(up, StepTable(up, t, ops[0]).value, ops[1..]);
    }
  }

  /** One of the calls put something into the slot. */
  ghost predicate SetInto(up: CaseTable, size: ulong, ops: seq<Op>, s: Slot)
    requires size > 0
  {
    exists i :: 0 <= i < |ops| && ops[i].Set? && !ops[i].oom && SlotOf(up, size, ops[i].key) == s
  }

  lemma SetIntoCons(up: CaseTable, size: ulong, ops: seq<Op>, s: Slot)
    requires size > 0 && ops != []
    ensures SetInto(up, size, ops, s) <==>
            (ops[0].Set? && !ops[0].oom && SlotOf(up, size, ops[0].key) == s) || SetInto(up, size, ops[1..], s)
  {
    if SetInto(up, size, ops[1..], s) {
      var i :| 0 <= i < |ops| - 1 && ops[1..][i].Set? && !ops[1..][i].oom &&
        SlotOf(up, size, ops[1..][i].key) == s;
      assert ops[i + 1] == ops[1..][i];
    }
    if SetInto(up, size, ops, s) {
      var i :| 0 <= i < |ops| && ops[i].Set? && !ops[i].oom && SlotOf(up, size, ops[i].key) == s;
      assert i > 0 ==> ops[1..][i - 1] == ops[i];
    }
  }

  lemma {:induction false} SlotsAfterSets(up: CaseTable, size: ulong, m: Reference, ops: seq<Op>, s: Slot)
    requires size > 0 && OnlySets(ops)
    ensures s in RunMap(up, size, m, ops) <==> s in m || SetInto(up, size, ops, s)
    decreases ops
  {
    if ops == [] {
    } else {
      SetIntoCons(up, size, ops, s);
      SlotsAfterSets(up, size, StepMap(m, SlotOf(up, size, ops[0].key), ops[0]), ops[1..], s);
    }
  }

  /**
   * A key is found in the table if and only if one of the names that could be stored is the key but for case and
   * falls into the same of |texts| buckets.
   */
  lemma RecognisedIff(up: CaseTable, texts: seq<Ustr>, ooms: seq<bool>, t: Table, key: Ustr)
    requires FilledWith(up, texts, ooms, t)
    ensures |t| == |texts|
    ensures Lookup(up, t, key).Some? <==>
            exists i :: 0 <= i < |texts| && !ooms[i] && Meets(up, texts[i], key, |texts|)
  {
    var ops, size, s := SetCalls(texts, ooms), |texts|, SlotOf(up, |texts|, key);
    SetsAreSafe(up, Empty(size), ops);
    RunRefinesMap(up, size, ops, key);
    SlotsAfterSets(up, size, map[], ops, s);
    forall i | 0 <= i < size
      ensures Meets(up, texts[i], key, size) <==> SlotOf(up, size, ops[i].key) == s
    {
      SameIffUpcaseEqual(up, texts[i], key);
    }
    if SetInto(up, size, ops, s) {
      var i :| 0 <= i < |ops| && ops[i].Set? && !ops[i].oom && SlotOf(up, size, ops[i].key) == s;
      assert !ooms[i] && Meets(up, texts[i], key, size);
    }
    if i :| 0 <= i < |texts| && !ooms[i] && Meets(up, texts[i], key, size) {
      assert !ops[i].oom && SlotOf(up, size, ops[i].key) == s;
    }
  }

  /** With a single name, hashing cannot get in the way. */
  lemma SingleNameRecognisedIff(up: CaseTable, name: Ustr, t: Table, key: Ustr)
    requires FilledWith(up, [name], [false], t)
    ensures Lookup(up, t, key).Some? <==> Same(up, name, key)
  {
    RecognisedIff(up, [name], [false], t, key);
    assert Meets(up, [name][0], key, 1) <==> Same(up, name, key);
  }

  /** The empty name, looked up when downcasing fails, is found only if the list holds it. */
  lemma EmptyNameRecognisedIff(up: CaseTable, texts: seq<Ustr>, ooms: seq<bool>, t: Table)
    requires FilledWith(up, texts, ooms, t)
    ensures Lookup(up, t, []).Some? <==> exists i :: 0 <= i < |texts| && !ooms[i] && texts[i] == []
  {
    RecognisedIff(up, texts, ooms, t, []);
    forall i | 0 <= i < |texts|
      ensures Meets(up, texts[i], [], |texts|) <==> texts[i] == []
    {
    }
  }

  /** Two spellings that differ in the case of ASCII letters only agree in the low bits of their units. */
  lemma RespellingKeepsLowBits(a: seq<unit>, b: seq<unit>)
    requires Same(AsciiUpcase, a, b)
    ensures SameLowBits(a, b)
  {
    forall i | 0 <= i < |a|
      ensures a[i] % 32 == b[i] % 32
    {
      UpcaseKeepsLowBits(a[i]);
      UpcaseKeepsLowBits(b[i]);
    }
  }

  lemma UpcaseKeepsLowBits(u: unit)
    ensures AsciiUpcase(u) % 32 == u % 32
  {
  }

  /**
   * A whitelist of 1, 2, 4, 8, 16 or 32 names recognises each of them in any ASCII spelling, although it hashes
   * what the client sent and looks up what the driver downcased.
   */
  lemma SmallListRecognisesRespelling(up: CaseTable, texts: seq<Ustr>, ooms: seq<bool>, t: Table, key: Ustr, i: nat)
    requires FilledWith(up, texts, ooms, t) && 32 % |texts| == 0
    requires i < |texts| && !ooms[i] && Same(up, texts[i], key) && Same(AsciiUpcase, texts[i], key)
    ensures Lookup(up, t, key).Some?
  {
    RespellingKeepsLowBits(texts[i], key);
    LowBitsDecideBucket(texts[i], key, |texts|);
    assert Meets(up, texts[i], key, |texts|);
    RecognisedIff(up, texts, ooms, t, key);
  }

  /** A whitelist of three names does not recognise the first of them once it is downcased. */
  lemma ListedButNotRecognised(t: Table)
    requires FilledWith(AsciiUpcase, [[65], [66], [67]], [false, false, false], t)
    ensures Same(AsciiUpcase, [65], [97]) && Lookup(AsciiUpcase, t, [97]) == None
  {
    var texts: seq<Ustr>, key: Ustr := [[65], [66], [67]], [97];
    RecognisedIff(AsciiUpcase, texts, [false, false, false], t, key);
    NotInThirdBucket();
    forall i | 0 <= i < 3
      ensures !Meets(AsciiUpcase, texts[i], key, 3)
    {
      if i > 0 {
        assert AsciiUpcase(texts[i][0]) != AsciiUpcase(key[0]);
      }
    }
  }

  lemma NotInThirdBucket()
    ensures Bucket([65], 3) == 2 && Bucket([97], 3) == 1
  {
    SingleUnit([], 65);
    SingleUnit([], 97);
    assert [] + [65] == [65] && [] + [97] == [97];
  }

  // ---------- from the client's list to the lookup ----------

  lemma {:induction false} NamesTakeUnits(names: seq<seq<unit>>)
    requires forall k :: 0 <= k < |names| ==> names[k] != []
    ensures 2 * |names| <= |Join(names)| + 1
  {
    if |names| > 1 {
      NamesTakeUnits(names[1..]);
    } else {
      assert names == [] || Join(names) == names[0];
    }
  }

  lemma ReceivableCount(names: seq<seq<unit>>)
    requires Receivable(names)
    ensures 0 < |names| < USHORT_LIMIT
  {
    NamesTakeUnits(names);
    if !Transmissible(names) {
      var j: nat :| WrapsIntoPlace(names, j);
      PlacedNames(names, j);
    }
  }

  /**
   * Whatever follows the message in memory: once a list that comes through has been parsed and stored, a process is
   * recognised if and only if some name of the list is its downcased name but for case and shares its bucket.
   */
  lemma ListedProcessRecognisedIff(raw: RawMemory, data: seq<byte>, names: seq<seq<unit>>, up: CaseTable,
      key: Ustr, texts: seq<Ustr>, ooms: seq<bool>, t: Table)
    requires Receivable(names) && IsWhiteListMessage(data, names) && HoldsMessage(raw, data)
    requires var branch := Dispatch(raw, |data|);
             branch.WhiteListBranch? ==> Delivers(branch.ptr, branch.inputBufferSize, texts)
    requires FilledWith(up, texts, ooms, t)
    requires NoneOom(ooms)
    ensures |texts| == |names| < USHORT_LIMIT
    ensures Lookup(up, t, key).Some? <==> exists name :: name in names && Meets(up, name, key, |names|)
  {
    RoundTripIff(names);
    ReceivableCount(names);
    assert ReceivedFrom(raw, |data|, names);
    var branch := Dispatch(raw, |data|);
    var received :| Delivers(branch.ptr, branch.inputBufferSize, received) && received == Reverse(names);
    DeliversOnce(branch.ptr, branch.inputBufferSize, texts, received);
    RecognisedIff(up, texts, ooms, t, key);
    OrderIsIrrelevant(up, texts, names, key, |names|);
  }

  lemma OrderIsIrrelevant(up: CaseTable, texts: seq<Ustr>, names: seq<seq<unit>>, key: Ustr, size: ulong)
    requires texts == Reverse(names) && size > 0
    ensures (exists i :: 0 <= i < |texts| && Meets(up, texts[i], key, size)) <==>
            (exists name :: name in names && Meets(up, name, key, size))
  {
    if i :| 0 <= i < |texts| && Meets(up, texts[i], key, size) {
      ReverseMembers(names, texts[i]);
      assert texts[i] in names;
    }
    if name :| name in names && Meets(up, name, key, size) {
      ReverseMembers(names, name);
      var i :| 0 <= i < |texts| && texts[i] == name;
      assert Meets(up, texts[i], key, size);
    }
  }

  // ---------- on the heap ----------

  ghost function TableBlocks(table: HashTable?): set<object>
    reads table
  {
    if table == null then {} else table.blocks
  }

  /** The counting loop. */
  method CountItems(list: StringListEntry?, ghost nodes: seq<StringListEntry>, ghost texts: seq<Ustr>)
    returns (itemsCount: ulong)
    requires ListOk(nodes, texts) && list == Head(nodes) && |texts| < ULONG_LIMIT
    ensures itemsCount == |texts|
  {
    itemsCount := 0;
    var ptr := list;
    ghost var left, leftTexts := nodes, texts;
    while ptr != null
      invariant ListOk(left, leftTexts) && ptr == Head(left) && itemsCount + |leftTexts| == |texts|
      decreases |left|
    {
      itemsCount := (itemsCount + 1) % ULONG_LIMIT;
      ptr := ptr.next;
      left, leftTexts := left[1..], leftTexts[1..];
    }
  }

  lemma {:induction false} NodeAt(nodes: seq<StringListEntry>, texts: seq<Ustr>, k: nat)
    requires ListOk(nodes, texts) && k < |nodes|
    ensures Carries(nodes[k], texts[k]) && nodes[k].next == Head(nodes[k + 1..])
  {
    if k == 0 {
    } else {
      NodeAt(nodes[1..], texts[1..], k - 1);
      assert nodes[1..][k..] == nodes[k + 1..];
    }
  }

  /** One HashTableSet: the list is untouched. */
  method StoreItem(table: HashTable, name: Ustr, ghost nodes: seq<StringListEntry>, ghost texts: seq<Ustr>)
    returns (ghost oom: bool)
    requires table.Valid() && table.size > 0
    requires ListOk(nodes, texts) && Blocks(nodes) !! table.blocks
    modifies table.pool, table.blocks
    ensures table.Valid() && table.size == old(table.size) && fresh(table.blocks - old(table.blocks))
    ensures table.pool.asked >= old(table.pool.asked)
    ensures oom <==> !table.pool.Grants(old(table.pool.asked), table.pool.asked)
    ensures table.pool.live == old(table.pool.live) - old(table.blocks) + table.blocks
    ensures ListOk(nodes, texts) && Blocks(nodes) == old(Blocks(nodes)) && Blocks(nodes) !! table.blocks
    ensures StepTable(table.up, old(table.chains), Op.Set(name, None, oom)) == Some(table.chains)
  {
    RanksBelow(nodes, texts);
    var entry;
    entry, oom := table.Set(name, None);
  }

  /** The outcomes tell whether everything asked for since then was granted. */
  ghost predicate Reports(ooms: seq<bool>, pool: Pool, first: nat)
    reads pool
  {
    pool.asked >= first && (NoneOom(ooms) <==> pool.Grants(first, pool.asked))
  }

  /** The same, with the outcome recorded. */
  method StoreNext(table: HashTable, name: Ustr, ghost nodes: seq<StringListEntry>, ghost texts: seq<Ustr>,
      ghost ooms: seq<bool>, ghost first: nat)
    returns (ghost ooms': seq<bool>, ghost oom: bool)
    requires table.Valid() && table.size > 0 && Reports(ooms, table.pool, first)
    requires ListOk(nodes, texts) && Blocks(nodes) !! table.blocks
    modifies table.pool, table.blocks
    ensures table.Valid() && table.size == old(table.size) && fresh(table.blocks - old(table.blocks))
    ensures table.pool.live == old(table.pool.live) - old(table.blocks) + table.blocks
    ensures ListOk(nodes, texts) && Blocks(nodes) == old(Blocks(nodes)) && Blocks(nodes) !! table.blocks
    ensures StepTable(table.up, old(table.chains), Op.Set(name, None, oom)) == Some(table.chains)
    ensures ooms' == ooms + [oom] && Reports(ooms', table.pool, first)
  {
    oom := StoreItem(table, name, nodes, texts);
    ooms' := ooms + [oom];
    OneMoreOutcome(ooms, oom);
    table.pool.GrantsJoin(first, old(table.pool.asked), table.pool.asked);
  }

  lemma OneMoreOutcome(ooms: seq<bool>, oom: bool)
    ensures NoneOom(ooms + [oom]) <==> NoneOom(ooms) && !oom
  {
    assert (ooms + [oom])[|ooms|] == oom;
    assert forall i :: 0 <= i < |ooms| ==> (ooms + [oom])[i] == ooms[i];
  }

  /** The storing loop; what HashTableSet returns is ignored. */
  method StoreItems(table: HashTable, list: StringListEntry?,
      ghost nodes: seq<StringListEntry>, ghost texts: seq<Ustr>)
    returns (ghost ooms: seq<bool>)
    requires table.Valid() && table.size > 0
    requires ListOk(nodes, texts) && list == Head(nodes) && Blocks(nodes) !! table.blocks
    modifies table.pool, table.blocks
    ensures table.Valid() && table.size == old(table.size) && fresh(table.blocks - old(table.blocks))
    ensures Reports(ooms, table.pool, old(table.pool.asked))
    ensures table.pool.live == old(table.pool.live) - old(table.blocks) + table.blocks
    ensures ListOk(nodes, texts) && Blocks(nodes) == old(Blocks(nodes)) && Blocks(nodes) !! table.blocks
    ensures |ooms| == |texts| && RunTable(table.up, old(table.chains), SetCalls(texts, ooms)) == Some(table.chains)
  {
    ooms := [];
    var ptr := list;
    ghost var k := 0;
    ghost var start, mine, others := table.chains, table.blocks, table.pool.live - table.blocks;
    while ptr != null
      invariant k == |ooms| <= |texts| && ptr == Head(nodes[k..])
      invariant table.Valid() && table.size == old(table.size) && fresh(table.blocks - mine)
      invariant table.pool.live == others + table.blocks && Reports(ooms, table.pool, old(table.pool.asked))
      invariant ListOk(nodes, texts) && Blocks(nodes) == old(Blocks(nodes)) && Blocks(nodes) !! table.blocks
      invariant RunTable(table.up, start, SetCalls(texts[..k], ooms)) == Some(table.chains)
      decreases |texts| - k
    {
      assert Carries(ptr, texts[k]) && ptr.next == Head(nodes[k + 1..]) by {
        NodeAt(nodes, texts, k);
      }
      var next := ptr.next;
      ghost var was := ooms;
      ghost var oom;
      ooms, oom := StoreNext(table, ptr.buffer.units, nodes, texts, ooms, old(table.pool.asked));
      CallsSnoc(texts, was, oom);
      RunSnoc(table.up, start, SetCalls(texts[..k], was), Op.Set(texts[k], None, oom));
      k := k + 1;
      ptr := next;
    }
    assert texts[..k] == texts;
  }

  lemma CallsSnoc(texts: seq<Ustr>, ooms: seq<bool>, oom: bool)
    requires |ooms| < |texts|
    ensures var k := |ooms|;
            SetCalls(texts[..k + 1], ooms + [oom]) == SetCalls(texts[..k], ooms) + [Op.Set(texts[k], None, oom)]
  {
  }

  /** The table is intact and filled with the texts. */
  ghost predicate TableIs(table: HashTable, pool: Pool, up: CaseTable, texts: seq<Ustr>, ooms: seq<bool>)
    reads table, table.pool, table.blocks
  {
    table.Valid() && table.pool == pool && table.up == up && FilledWith(up, texts, ooms, table.chains)
  }

  /** Fills a new table; nothing but its own blocks changes in the pool. */
  method FillTable(table: HashTable, list: StringListEntry?,
      ghost nodes: seq<StringListEntry>, ghost texts: seq<Ustr>, ghost others: set<object>)
    returns (ghost ooms: seq<bool>)
    requires table.Valid() && 0 < |texts| < ULONG_LIMIT && table.chains == Empty(|texts|)
    requires ListOk(nodes, texts) && list == Head(nodes) && Blocks(nodes) !! table.blocks
    requires table.pool.live == others + table.blocks + Blocks(nodes) && others !! table.blocks
    modifies table.pool, table.blocks
    ensures TableIs(table, table.pool, table.up, texts, ooms)
    ensures Reports(ooms, table.pool, old(table.pool.asked))
    ensures table.pool.live == others + table.blocks + old(Blocks(nodes))
    ensures fresh(table.blocks - old(table.blocks)) && old(Blocks(nodes)) !! table.blocks
  {
    ooms := StoreItems(table, list, nodes, texts);
  }

  /** The old table goes, an empty one comes, if there is room for it. */
  method ReplaceTable(pool: Pool, up: CaseTable, itemsCount: ulong, previous: HashTable?,
      ghost nodes: seq<StringListEntry>, ghost texts: seq<Ustr>, ghost others: set<object>)
    returns (table: HashTable?)
    requires ListOk(nodes, texts) && (previous != null ==> previous.Valid() && previous.pool == pool)
    requires pool.live == others + Blocks(nodes) && others !! Blocks(nodes) && TableBlocks(previous) <= others
    modifies pool, TableBlocks(previous)
    ensures ListOk(nodes, texts) && Blocks(nodes) == old(Blocks(nodes)) && Blocks(nodes) !! TableBlocks(table)
    ensures pool.live == others - old(TableBlocks(previous)) + TableBlocks(table) + Blocks(nodes)
    ensures table != null <==> pool.Grants(old(pool.asked), old(pool.asked) + 2)
    ensures pool.asked == old(pool.asked) + pool.Tries(old(pool.asked), 2)
    ensures fresh(TableBlocks(table))
    ensures table != null ==>
              table.Valid() && table.pool == pool && table.up == up && table.chains == Empty(itemsCount)
  {
    RanksBelow(nodes, texts);
    HashTable.Free(previous);
    table := HashTable.Create(pool, up, itemsCount);
  }

  /**
   * SetWhiteListCallback: the old table is freed, the new one has a bucket for each item. The source uses the new
   * table unchecked; when it cannot be created, NULL is what is left. The list is outside the frame, and so not
   * changed; its blocks stay allocated.
   */
  method SetWhiteListCallback(pool: Pool, up: CaseTable, list: StringListEntry?, previous: HashTable?,
      ghost nodes: seq<StringListEntry>, ghost texts: seq<Ustr>, ghost others: set<object>)
    returns (table: HashTable?, ghost ooms: seq<bool>)
    requires ListOk(nodes, texts) && list == Head(nodes) && 0 < |texts| < ULONG_LIMIT
    requires previous != null ==> previous.Valid() && previous.pool == pool
    requires pool.live == others + Blocks(nodes) && others !! Blocks(nodes) && TableBlocks(previous) <= others
    modifies pool, TableBlocks(previous)
    ensures pool.live == others - old(TableBlocks(previous)) + TableBlocks(table) + old(Blocks(nodes))
    ensures fresh(TableBlocks(table)) && old(Blocks(nodes)) !! TableBlocks(table)
    ensures pool.asked >= old(pool.asked)
    ensures table != null <==> pool.Grants(old(pool.asked), old(pool.asked) + 2)
    ensures table != null && NoneOom(ooms) <==> pool.Grants(old(pool.asked), pool.asked)
    ensures table != null ==> TableIs(table, pool, up, texts, ooms)
  {
    ooms := [];
    var itemsCount := CountItems(list, nodes, texts);
    table := ReplaceTable(pool, up, itemsCount, previous, nodes, texts, others);
    if table != null {
      ooms := FillTable(table, list, nodes, texts, others - old(TableBlocks(previous)));
    }
  }

  /**
   * The question IsLocked asks first. When there is no memory for the downcased name, which the source does not
   * check, the empty name is looked up.
   */
  method IsProcessInWhiteList(pool: Pool, whitelistedProcesses: HashTable?, down: CaseTable, processFileName: Ustr)
    returns (isProcessInWhiteList: bool, ghost oom: bool)
    requires whitelistedProcesses != null ==> whitelistedProcesses.Valid() && whitelistedProcesses.size > 0
    modifies pool`asked
    ensures oom <==> !pool.grants(old(pool.asked))
    ensures pool.asked == old(pool.asked) + 1
    ensures isProcessInWhiteList <==>
              && whitelistedProcesses != null
              && var key := if oom then [] else Upcase(down, processFileName);
                 Lookup(whitelistedProcesses.up, whitelistedProcesses.chains, key).Some?
  {
    var granted := pool.Ask();
    oom := !granted;
    var fileName: Ustr := if granted then Upcase(down, processFileName) else [];
    isProcessInWhiteList := false;
    if whitelistedProcesses != null {
      isProcessInWhiteList := whitelistedProcesses.IsKeyExists(fileName);
    }
  }

  /**
   * CommunicationSetWhiteList with its callback. The parsed list stays allocated with nobody left to free it: each
   * accepted message leaks two blocks for every name.
   */
  method SetWhiteListAndTable(pool: Pool, up: CaseTable, ptr: Memory, inputBufferSize: nat, previous: HashTable?)
    returns (ok: bool, table: HashTable?, ghost ooms: seq<bool>, ghost leaked: set<object>)
    requires Ends(ptr, inputBufferSize)
    requires previous != null ==> previous.Valid() && previous.pool == pool
    modifies pool, TableBlocks(previous)
    ensures !ok ==> table == previous && leaked == {} && pool.live == old(pool.live)
    ensures var needed := 3 * |Delivered(ptr, inputBufferSize)|; var asked := old(pool.asked);
            && (ok <==> pool.Grants(asked, asked + needed))
            && (ok ==> (table != null <==> pool.Grants(asked + needed, asked + needed + 2)))
            && (ok && table != null && NoneOom(ooms) <==> pool.Grants(asked, pool.asked))
    ensures ok ==>
              && pool.live == old(pool.live) - old(TableBlocks(previous)) + TableBlocks(table) + leaked
              && fresh(TableBlocks(table)) && old(pool.live) !! leaked !! TableBlocks(table)
              && |leaked| == 2 * |Delivered(ptr, inputBufferSize)|
              && (table != null ==> TableIs(table, pool, up, Delivered(ptr, inputBufferSize), ooms))
  {
    table, ooms, leaked := previous, [], {};
    var list; ghost var nodes;
    ghost var others := pool.live;
    ok, list, nodes := ParsedList(pool, ptr, inputBufferSize);
    if ok {
      leaked := Blocks(nodes);
      ghost var middle := pool.asked;
      table, ooms :=
        SetWhiteListCallback(pool, up, list, previous, nodes, Delivered(ptr, inputBufferSize), others);
      pool.GrantsJoin(old(pool.asked), middle, pool.asked);
    }
  }

  /** The list SetWhiteList hands over: it is not empty, and short enough to be counted. */
  method ParsedList(pool: Pool, ptr: Memory, inputBufferSize: nat)
    returns (ok: bool, list: StringListEntry?, ghost nodes: seq<StringListEntry>)
    requires Ends(ptr, inputBufferSize)
    modifies pool
    ensures var needed := 3 * |Delivered(ptr, inputBufferSize)|;
            && (ok <==> pool.Grants(old(pool.asked), old(pool.asked) + needed))
            && pool.asked == old(pool.asked) + pool.Tries(old(pool.asked), needed)
    ensures !ok ==> pool.live == old(pool.live)
    ensures ok ==>
              && ListOk(nodes, Delivered(ptr, inputBufferSize)) && list == Head(nodes)
              && pool.live == old(pool.live) + Blocks(nodes) && old(pool.live) !! Blocks(nodes)
              && |Blocks(nodes)| == 2 * |Delivered(ptr, inputBufferSize)|
    ensures 0 < |Delivered(ptr, inputBufferSize)| < ULONG_LIMIT
  {
    ghost var turns := LoopEnds(ptr, inputBufferSize);
    EntriesBounded(ptr, inputBufferSize, turns);
    ghost var top;
    ok, list, nodes, top := SetWhiteList(pool, ptr, inputBufferSize);
    if ok {
      BlockCount(nodes, Delivered(ptr, inputBufferSize));
    }
  }
}
