/** The two ends of the whitelist message: the client's encoder, and CommunicationSetWhiteList on the heap. */
module WhiteLists {
  import opened Units
  import opened PoolModel
  import opened StringLists
  import opened Wire
  import opened WhiteListLoop
  import opened PortMessages
  import opened WhiteListFields
  import opened WhiteListWrap

  // ---------- the parser ----------

  /** The temporary str.Buffer. */
  class Scratch {
    const units: Ustr

    constructor (units: Ustr)
      ensures this.units == units
    {
      this.units := units;
    }
  }

  /** The field goes through a temporary buffer into an entry of its own. */
  method CopyToEntry(pool: Pool, field: Ustr, ghost rank: nat) returns (entry: StringListEntry?)
    modifies pool
    ensures entry != null <==> pool.Grants(old(pool.asked), old(pool.asked) + 3)
    ensures pool.asked == old(pool.asked) + pool.Tries(old(pool.asked), 3)
    ensures entry == null ==> pool.live == old(pool.live)
    ensures entry != null ==>
              && fresh(Cell(entry)) && Carries(entry, field) && entry.next == null && entry.rank == rank
              && pool.live == old(pool.live) + Cell(entry)
  {
    var granted := pool.Ask();
    if !granted {
      return null;
    }
    var scratch := new Scratch(field);
    pool.Track(scratch);
    entry := Create(pool, scratch.units, rank);
    pool.Free(scratch);
  }

  /** What one more entry asks for, as part of the three allocations for each entry that all of them take. */
  lemma OneMoreEntry(pool: Pool, first: nat, made: nat, total: nat)
    requires pool.Grants(first, first + 3 * made) && made < total
    ensures var asked := first + 3 * made;
            if pool.Grants(asked, asked + 3) then pool.Grants(first, first + 3 * (made + 1))
            else
              && asked + pool.Tries(asked, 3) == first + pool.Tries(first, 3 * total)
              && !pool.Grants(first, first + 3 * total)
  {
    if !pool.Grants(first + 3 * made, first + 3 * made + 3) {
      pool.TriesAfter(first, 3 * made, 3, 3 * total);
    }
  }

  /** All allocations for so many entries were granted, counted from the first one. */
  ghost predicate Paid(pool: Pool, first: nat, made: nat)
    reads pool
  {
    pool.asked == first + 3 * made && pool.Grants(first, first + 3 * made)
  }

  /** One of the allocations for so many entries was refused, and nothing asked for after that. */
  ghost predicate Refused(pool: Pool, first: nat, total: nat)
    reads pool
  {
    pool.asked == first + pool.Tries(first, 3 * total) && !pool.Grants(first, first + 3 * total)
  }

  /** A copied field becomes an entry at the head of the list; on failure the list built so far is freed. */
  method AddEntry(pool: Pool, field: Ustr, list: StringListEntry?,
      ghost nodes: seq<StringListEntry>, ghost texts: seq<Ustr>, ghost others: set<object>)
    returns (ok: bool, list': StringListEntry?, ghost nodes': seq<StringListEntry>)
    requires ListOk(nodes, texts) && list == Head(nodes)
    requires pool.live == others + Blocks(nodes) && others !! Blocks(nodes)
    modifies pool
    ensures ok <==> pool.Grants(old(pool.asked), old(pool.asked) + 3)
    ensures pool.asked == old(pool.asked) + pool.Tries(old(pool.asked), 3)
    ensures !ok ==> pool.live == others
    ensures ok ==>
              && ListOk(nodes', [field] + texts) && list' == Head(nodes')
              && pool.live == others + Blocks(nodes') && others !! Blocks(nodes')
  {
    var entry := CopyToEntry(pool, field, |nodes|);
    if entry == null {
      FreeAll(pool, list, nodes, texts, others);
      return false, null, [];
    }
    if list != null {
      entry.next := list;
    }
    Push(entry, field, nodes, texts);
    return true, entry, [entry] + nodes;
  }

  /** The same, as one of so many entries that the loop makes. */
  method AddOneOf(pool: Pool, field: Ustr, list: StringListEntry?,
      ghost nodes: seq<StringListEntry>, ghost texts: seq<Ustr>, ghost others: set<object>,
      ghost first: nat, ghost total: nat)
    returns (ok: bool, list': StringListEntry?, ghost nodes': seq<StringListEntry>)
    requires ListOk(nodes, texts) && list == Head(nodes)
    requires pool.live == others + Blocks(nodes) && others !! Blocks(nodes)
    requires Paid(pool, first, |texts|) && |texts| < total
    modifies pool
    ensures if ok then Paid(pool, first, |texts| + 1) else pool.live == others && Refused(pool, first, total)
    ensures ok ==>
              && ListOk(nodes', [field] + texts) && list' == Head(nodes')
              && pool.live == others + Blocks(nodes') && others !! Blocks(nodes')
  {
    ok, list', nodes' := AddEntry(pool, field, list, nodes, texts, others);
    OneMoreEntry(pool, first, |texts|, total);
  }

  /** One turn of a loop that makes so many entries in all, and has been granted what it asked for so far. */
  method ParseUnit(pool: Pool, ptr: Memory, inputBufferSize: nat, index: ushort, sindex: ushort,
      list: StringListEntry?,
      ghost nodes: seq<StringListEntry>, ghost texts: seq<Ustr>, ghost others: set<object>,
      ghost first: nat, ghost total: nat)
    returns (ok: bool, more: bool, index': ushort, sindex': ushort, list': StringListEntry?,
             ghost nodes': seq<StringListEntry>, ghost texts': seq<Ustr>)
    requires |Entries(Turn(ptr, inputBufferSize, Cursor(index, sindex, texts)))| <= total
    requires ListOk(nodes, texts) && list == Head(nodes)
    requires pool.live == others + Blocks(nodes) && others !! Blocks(nodes) && Paid(pool, first, |texts|)
    modifies pool
    ensures if ok then Paid(pool, first, |texts'|) else pool.live == others && Refused(pool, first, total)
    ensures ok ==>
              && Turn(ptr, inputBufferSize, Cursor(index, sindex, texts)) ==
                 (if more then Going(Cursor(index', sindex', texts')) else Done(texts'))
              && ListOk(nodes', texts') && list' == Head(nodes')
              && pool.live == others + Blocks(nodes') && others !! Blocks(nodes')
  {
    index', sindex', list', nodes', texts' := index, sindex, list, nodes, texts;
    ok, more := true, true;
    if index >= inputBufferSize || ptr.At(index) == END_OF_BLOCK || ptr.At(index) == END_OF_DATA {
      var len := (index - sindex) % USHORT_LIMIT;
      if len > 0 {
        var sizeBytes := (len * 2) % USHORT_LIMIT;
        var field := Slice(ptr, sindex, sindex + sizeBytes / 2);
        ok, list', nodes' := AddOneOf(pool, field, list, nodes, texts, others, first, total);
        texts' := [field] + texts;
        if index < inputBufferSize && ptr.At(index) == END_OF_BLOCK {
          index' := (index + 1) % USHORT_LIMIT;
          sindex' := index';
          return;
        }
        more := false;
        return;
      }
    }
    index' := (index + 1) % USHORT_LIMIT;
  }

  /** The units that have been looked at or copied are below the top, and that is within reach of the parse. */
  ghost predicate TopOk(ptr: Memory, n: nat, top: nat) {
    End(ptr, n, 0) < USHORT_LIMIT ==> top <= Reach(ptr, n)
  }

  /** From outcome i of the run one turn leads to the next, within bounds that hold for the whole run. */
  ghost predicate StepOk(ptr: Memory, n: nat, run: seq<Outcome>, i: nat)
    requires i + 1 < |run|
  {
    && run[i].Going? && run[i + 1] == Turn(ptr, n, run[i].cursor)
    && |Entries(run[i + 1])| <= |Delivered(ptr, n)|
    && TopOk(ptr, n, Touched(ptr, n, run[i].cursor))
  }

  /** All outcomes of the loop, turn by turn. */
  ghost predicate IsRun(ptr: Memory, n: nat, run: seq<Outcome>) {
    && run != [] && run[0] == Going(Cursor(0, 0, []))
    && run[|run| - 1] == Done(Delivered(ptr, n))
    && forall i :: 0 <= i < |run| - 1 ==> StepOk(ptr, n, run, i)
  }

  lemma {:induction false} RunUpTo(ptr: Memory, n: nat, k: nat, turns: nat) returns (run: seq<Outcome>)
    requires k <= turns && Turns(ptr, n, turns) == Done(Delivered(ptr, n))
    requires k > 0 ==> Turns(ptr, n, k - 1).Going?
    ensures |run| == k + 1 && run[0] == Going(Cursor(0, 0, [])) && run[k] == Turns(ptr, n, k)
    ensures forall i :: 0 <= i < k ==> StepOk(ptr, n, run, i)
  {
    if k == 0 {
      run := [Turns(ptr, n, 0)];
    } else {
      assert k > 1 ==> Turns(ptr, n, k - 2).Going?;
      var before := RunUpTo(ptr, n, k - 1, turns);
      run := before + [Turns(ptr, n, k)];
      LastStep(ptr, n, run, turns);
      forall i | 0 <= i < k
        ensures StepOk(ptr, n, run, i)
      {
        assert i < k - 1 ==> StepOk(ptr, n, before, i);
      }
    }
  }

  lemma LastStep(ptr: Memory, n: nat, run: seq<Outcome>, turns: nat)
    requires |run| > 1 && |run| - 1 <= turns && Turns(ptr, n, turns) == Done(Delivered(ptr, n))
    requires run[|run| - 2].Going? && run[|run| - 2] == Turns(ptr, n, |run| - 2)
    requires run[|run| - 1] == Turns(ptr, n, |run| - 1)
    ensures StepOk(ptr, n, run, |run| - 2)
  {
    var k := |run| - 1;
    OneMoreTurn(ptr, n, k, run[k - 1].cursor);
    EntriesGrow(ptr, n, k, turns);
    if End(ptr, n, 0) < USHORT_LIMIT {
      TouchedWithinReach(ptr, n, k - 1);
    }
  }

  lemma {:induction false} WholeRun(ptr: Memory, n: nat, k: nat) returns (run: seq<Outcome>)
    requires Turns(ptr, n, k) == Done(Delivered(ptr, n))
    ensures IsRun(ptr, n, run)
    decreases k
  {
    if Turns(ptr, n, k - 1).Going? {
      run := RunUpTo(ptr, n, k, k);
    } else {
      run := WholeRun(ptr, n, k - 1);
    }
  }

  lemma NextInRun(ptr: Memory, n: nat, run: seq<Outcome>, k: nat)
    requires IsRun(ptr, n, run) && k < |run| && run[k].Going?
    ensures k + 1 < |run| && StepOk(ptr, n, run, k)
  {
  }

  lemma DoneIsLast(ptr: Memory, n: nat, run: seq<Outcome>, k: nat)
    requires IsRun(ptr, n, run) && k < |run| && run[k].Done?
    ensures run[k] == Done(Delivered(ptr, n))
  {
    assert k < |run| - 1 ==> StepOk(ptr, n, run, k);
  }

  /**
   * CommunicationSetWhiteList up to the callback, for all memory behind the pointer on which its loop ends. It
   * fails exactly when one of the three allocations for each entry is refused, and then nothing stays allocated.
   * top is the number of leading units among which are all those looked at or copied.
   */
  method SetWhiteList(pool: Pool, ptr: Memory, inputBufferSize: nat)
    returns (ok: bool, list: StringListEntry?, ghost nodes: seq<StringListEntry>, ghost top: nat)
    requires Ends(ptr, inputBufferSize)
    modifies pool
    ensures var needed := 3 * |Delivered(ptr, inputBufferSize)|;
            && (ok <==> pool.Grants(old(pool.asked), old(pool.asked) + needed))
            && pool.asked == old(pool.asked) + pool.Tries(old(pool.asked), needed)
    ensures !ok ==> pool.live == old(pool.live)
    ensures ok ==>
              && ListOk(nodes, Delivered(ptr, inputBufferSize)) && list == Head(nodes)
              && pool.live == old(pool.live) + Blocks(nodes) && old(pool.live) !! Blocks(nodes)
    ensures End(ptr, inputBufferSize, 0) < USHORT_LIMIT ==> top <= Reach(ptr, inputBufferSize)
  {
    ghost var turns := LoopEnds(ptr, inputBufferSize);
    ghost var run := WholeRun(ptr, inputBufferSize, turns);
    ghost var total := |Delivered(ptr, inputBufferSize)|;
    var index: ushort, sindex: ushort := 0, 0;
    ghost var texts: seq<Ustr> := [];
    ghost var others, first := pool.live, pool.asked;
    ghost var k := 0;
    list, nodes, top := null, [], 0;
    var more := true;
    while more
      invariant k < |run| && run[k] == if more then Going(Cursor(index, sindex, texts)) else Done(texts)
      invariant ListOk(nodes, texts) && list == Head(nodes)
      invariant pool.live == others + Blocks(nodes) && others !! Blocks(nodes) && Paid(pool, first, |texts|)
      invariant TopOk(ptr, inputBufferSize, top)
      decreases |run| - k
    {
      NextInRun(ptr, inputBufferSize, run, k);
      ghost var touched := Touched(ptr, inputBufferSize, Cursor(index, sindex, texts));
      top := if top < touched then touched else top;
      ok, more, index, sindex, list, nodes, texts :=
        ParseUnit(pool, ptr, inputBufferSize, index, sindex, list, nodes, texts, others, first, total);
      if !ok {
        return;
      }
      k := k + 1;
    }
    DoneIsLast(ptr, inputBufferSize, run, k);
    ok := true;
  }

  // ---------- the encoder ----------

  /** What the client sends for these names. */
  function Encoded(names: seq<seq<unit>>): (message: seq<byte>)
    ensures |message| == 2 * |Join(names)| + 6
  {
    Int32Bytes(Code(SetWhiteListCommand)) + Bytes(Join(names) + [END_OF_DATA])
  }

  /** The value of two bytes, the less significant one first. */
  function LittleEndian(low: byte, high: byte): nat {
    low + 0x100 * high
  }

  /** Byte by byte: the DWORD 0x1000, the units of the joined names, and a unit 0. */
  predicate IsWhiteListMessage(data: seq<byte>, names: seq<seq<unit>>) {
    var joined := Join(names);
    && |data| == 4 + 2 * |joined| + 2
    && data[0] == 0x00 && data[1] == 0x10 && data[2] == 0x00 && data[3] == 0x00
    && (forall i :: 0 <= i < |joined| ==> LittleEndian(data[4 + 2 * i], data[5 + 2 * i]) == joined[i])
    && data[|data| - 2] == 0 && data[|data| - 1] == 0
  }

  lemma EncodedIsMessage(names: seq<seq<unit>>)
    ensures IsWhiteListMessage(Encoded(names), names)
  {
    var joined, data := Join(names), Encoded(names);
    var units := joined + [END_OF_DATA];
    forall i: nat | i <= |joined|
      ensures data[4 + 2 * i] == Low(units[i]) && data[5 + 2 * i] == High(units[i])
    {
      BytesAt(units, i);
    }
    assert units[|joined|] == END_OF_DATA;
    forall i | 0 <= i < |joined|
      ensures LittleEndian(data[4 + 2 * i], data[5 + 2 * i]) == joined[i]
    {
      assert units[i] == joined[i];
    }
  }

  lemma SameUnitSameBytes(a: byte, b: byte, c: byte, d: byte)
    requires LittleEndian(a, b) == LittleEndian(c, d)
    ensures a == c && b == d
  {
  }

  /** Only one message has these bytes. */
  lemma MessageIsEncoded(data: seq<byte>, names: seq<seq<unit>>)
    requires IsWhiteListMessage(data, names)
    ensures data == Encoded(names)
  {
    var joined, encoded := Join(names), Encoded(names);
    EncodedIsMessage(names);
    forall k | 0 <= k < |data|
      ensures data[k] == encoded[k]
    {
      if 4 <= k < |data| - 2 {
        var i := (k - 4) / 2;
        assert LittleEndian(data[4 + 2 * i], data[5 + 2 * i]) == joined[i];
        assert LittleEndian(encoded[4 + 2 * i], encoded[5 + 2 * i]) == joined[i];
        SameUnitSameBytes(data[4 + 2 * i], data[5 + 2 * i], encoded[4 + 2 * i], encoded[5 + 2 * i]);
      }
    }
  }

  lemma {:induction false} JoinSnoc(names: seq<seq<unit>>, name: seq<unit>)
    ensures Join(names + [name]) == (if names == [] then [] else Join(names) + [END_OF_BLOCK]) + name
  {
    if names == [] {
      assert names + [name] == [name];
    } else {
      assert (names + [name])[1..] == names[1..] + [name];
      JoinSnoc(names[1..], name);
      if |names| == 1 {
        assert names + [name] == [names[0], name];
      }
    }
  }

  /** The stream written by SendProcessesWhiteList; names are the units Encoding.Unicode emits for each string. */
  method SendProcessesWhiteList(names: seq<seq<unit>>) returns (data: seq<byte>)
    ensures IsWhiteListMessage(data, names)
  {
    data := Int32Bytes(Code(SetWhiteListCommand));
    ghost var body: seq<byte> := [];
    var first := true;
    for i := 0 to |names|
      invariant first <==> i == 0
      invariant data == Int32Bytes(Code(SetWhiteListCommand)) + body && body == Bytes(Join(names[..i]))
    {
      OneMoreName(names, i);
      if !first {
        data := data + Bytes([END_OF_BLOCK]);
        body := body + Bytes([END_OF_BLOCK]);
      }
      data := data + Bytes(names[i]);
      body := body + Bytes(names[i]);
      first := false;
    }
    assert names[..|names|] == names;
    data := data + Bytes([END_OF_DATA]);
    BytesAppend(Join(names), [END_OF_DATA]);
    assert data == Encoded(names);
    EncodedIsMessage(names);
  }

  lemma OneMoreName(names: seq<seq<unit>>, i: nat)
    requires i < |names|
    ensures Bytes(Join(names[..i + 1])) ==
            (if i == 0 then Bytes(Join(names[..i])) else Bytes(Join(names[..i])) + Bytes([END_OF_BLOCK])) +
            Bytes(names[i])
  {
    var joined := Join(names[..i]);
    assert names[..i + 1] == names[..i] + [names[i]];
    JoinSnoc(names[..i], names[i]);
    if i == 0 {
      assert [] + names[i] == names[i] && Bytes(joined) == [];
    } else {
      BytesAppend(joined + [END_OF_BLOCK], names[i]);
      BytesAppend(joined, [END_OF_BLOCK]);
    }
  }
}
