/** The report queue of Communication.c on the heap: a linked stack that polls drain into a byte buffer. */
module ReportQueue {
  import opened Units
  import opened PoolModel
  import opened StringLists
  import opened Wire

  /** The buffer starts with the bytes of out; behind them it is what it was. */
  ghost predicate Filled(buffer: array<byte>, out: seq<unit>, was: seq<byte>)
    requires |was| == buffer.Length
    reads buffer
  {
    && 2 * |out| <= buffer.Length
    && buffer[..2 * |out|] == Bytes(out)
    && buffer[2 * |out|..] == was[2 * |out|..]
  }

  /** *wcptr++ = u, with wcptr at unit number w of the buffer. */
  method PutUnit(buffer: array<byte>, w: nat, u: unit, ghost out: seq<unit>, ghost was: seq<byte>)
    requires |was| == buffer.Length && Filled(buffer, out, was) && w == |out| && 2 * w + 2 <= buffer.Length
    modifies buffer
    ensures Filled(buffer, out + [u], was)
  {
    buffer[2 * w] := Low(u);
    buffer[2 * w + 1] := High(u);
    assert (out + [u])[..w] == out;
    assert buffer[..2 * w + 2] == buffer[..2 * w] + [Low(u), High(u)];
    assert buffer[..2 * w] == old(buffer[..2 * w]);
    assert buffer[2 * w + 2..] == old(buffer[2 * w..])[2..];
  }

  /** RtlCopyMemory of whole units. */
  method CopyUnits(buffer: array<byte>, w: nat, source: seq<unit>, ghost out: seq<unit>, ghost was: seq<byte>)
    requires |was| == buffer.Length && Filled(buffer, out, was) && w == |out|
    requires 2 * (w + |source|) <= buffer.Length
    modifies buffer
    ensures Filled(buffer, out + source, was)
  {
    assert out + source[..0] == out;
    for i := 0 to |source|
      invariant Filled(buffer, out + source[..i], was)
    {
      PutUnit(buffer, w + i, source[i], out + source[..i], was);
      assert out + source[..i] + [source[i]] == out + source[..i + 1];
    }
    assert source[..|source|] == source;
  }

  /** The delimiter, unless nothing is stored yet, and the item's own units. */
  method StoreItem(buffer: array<byte>, wcptr: nat, item: Ustr, ghost out: seq<unit>, ghost was: seq<byte>)
    returns (wcptr': nat)
    requires |was| == buffer.Length && Filled(buffer, out, was) && wcptr == |out|
    requires After(2 * wcptr, item) <= buffer.Length
    modifies buffer
    ensures Filled(buffer, out + (if out != [] then [END_OF_BLOCK] else []) + item, was)
    ensures 2 * wcptr' == After(2 * wcptr, item)
  {
    wcptr' := wcptr;
    ghost var so := out;
    if wcptr' > 0 {
      PutUnit(buffer, wcptr', END_OF_BLOCK, so, was);
      so := so + [END_OF_BLOCK];
      wcptr' := wcptr' + 1;
    }
    CopyUnits(buffer, wcptr', item, so, was);
    wcptr' := wcptr' + |item|;
    assert out == [] ==> out + [] + item == so + item;
  }

  /** After k items, written bytes are stored and the rest of the drain is still to come. */
  ghost predicate Progress(all: seq<Ustr>, k: nat, written: nat, bufferSize: nat) {
    && k <= |all|
    && written == 2 * |Emitted(all[..k], 0)|
    && Taken(all, 0, bufferSize) == k + Taken(all[k..], written, bufferSize)
  }

  /** In a drain that fits, there is always room for the terminator. */
  lemma ProgressFits(all: seq<Ustr>, k: nat, written: nat, bufferSize: nat)
    requires DrainFits(all, bufferSize) && Progress(all, k, written, bufferSize)
    ensures written + 2 <= bufferSize
  {
    var drained := all[..Taken(all, 0, bufferSize)];
    assert all[..k] == drained[..k];
    EmittedGrows(drained, 0, k);
    EmittedIsJoin(drained);
  }

  lemma ProgressStep(all: seq<Ustr>, k: nat, written: nat, bufferSize: nat)
    requires DrainFits(all, bufferSize)
    requires Progress(all, k, written, bufferSize) && k < |all| && Admits(written, all[k], bufferSize)
    ensures Progress(all, k + 1, After(written, all[k]), bufferSize)
    ensures After(written, all[k]) + 2 <= bufferSize
    ensures var out := Emitted(all[..k], 0);
            Emitted(all[..k + 1], 0) == out + (if out != [] then [END_OF_BLOCK] else []) + all[k]
  {
    assert all[..k + 1] == all[..k] + [all[k]];
    assert all[k..][1..] == all[k + 1..];
    EmittedSnoc(all[..k], all[k], 0);
    ProgressFits(all, k + 1, After(written, all[k]), bufferSize);
  }

  lemma ProgressEnd(all: seq<Ustr>, k: nat, written: nat, bufferSize: nat)
    requires Progress(all, k, written, bufferSize)
    requires k == |all| || !Admits(written, all[k], bufferSize)
    ensures Taken(all, 0, bufferSize) == k
    ensures Payload(all, bufferSize) == Emitted(all[..k], 0) + [END_OF_DATA]
  {
    EmittedIsJoin(all[..k]);
  }

  /** One turn of the drain loop: the first entry is stored and freed. */
  method DrainOne(pool: Pool, entry: StringListEntry, buffer: array<byte>, written: nat,
      ghost out: seq<unit>, ghost was: seq<byte>,
      ghost ns: seq<StringListEntry>, ghost texts: seq<Ustr>, ghost others: set<object>)
    returns (written': nat, next: StringListEntry?)
    requires ListOk(ns, texts) && ns != [] && entry == ns[0]
    requires pool.live == others + Blocks(ns) && others !! Blocks(ns)
    requires |was| == buffer.Length && Filled(buffer, out, was) && written == 2 * |out|
    requires After(written, texts[0]) <= buffer.Length
    modifies pool`live, buffer
    ensures pool.live == others + Blocks(ns[1..]) && others !! Blocks(ns[1..])
    ensures ListOk(ns[1..], texts[1..]) && next == Head(ns[1..])
    ensures Filled(buffer, out + (if out != [] then [END_OF_BLOCK] else []) + texts[0], was)
    ensures written' == After(written, texts[0])
  {
    var wcptr := StoreItem(buffer, written / 2, entry.buffer.units, out, was);
    written' := if written > 0 then written + 2 else written;
    next := entry.next;
    written' := written' + entry.length;
    FreeFirst(pool, entry, ns, texts, others);
  }

  /** What holds between two turns of the drain loop, with k items drained and the list left remaining. */
  ghost predicate Draining(pool: Pool, buffer: array<byte>, was: seq<byte>, others: set<object>,
      all: seq<Ustr>, k: nat, written: nat, left: seq<StringListEntry>)
    reads pool, buffer, left
  {
    && |was| == buffer.Length
    && Progress(all, k, written, buffer.Length)
    && ListOk(left, all[k..])
    && pool.live == others + Blocks(left) && others !! Blocks(left)
    && Filled(buffer, Emitted(all[..k], 0), was)
  }

  method DrainStep(pool: Pool, entry: StringListEntry, buffer: array<byte>, written: nat,
      ghost was: seq<byte>, ghost others: set<object>,
      ghost all: seq<Ustr>, ghost k: nat, ghost left: seq<StringListEntry>)
    returns (written': nat, next: StringListEntry?)
    requires DrainFits(all, buffer.Length)
    requires Draining(pool, buffer, was, others, all, k, written, left)
    requires k < |all| && entry == left[0] && Admits(written, all[k], buffer.Length)
    modifies pool`live, buffer
    ensures Draining(pool, buffer, was, others, all, k + 1, written', left[1..]) && next == Head(left[1..])
  {
    ProgressStep(all, k, written, buffer.Length);
    assert all[k..][1..] == all[k + 1..];
    written', next := DrainOne(pool, entry, buffer, written, Emitted(all[..k], 0), was, left, all[k..], others);
  }

  /** The loop guard, read off the first remaining entry, is Admits for the first remaining item. */
  ghost predicate GuardIsAdmits(ptr: StringListEntry?, written: nat, bufferSize: nat, all: seq<Ustr>, k: nat)
    reads ptr
  {
    ptr != null && (written + ptr.length) % ULONG_LIMIT + 2 < bufferSize <==>
    k < |all| && Admits(written, all[k], bufferSize)
  }

  lemma GuardMeaning(ptr: StringListEntry?, written: nat, bufferSize: nat, all: seq<Ustr>, k: nat,
      left: seq<StringListEntry>)
    requires k <= |all| && ListOk(left, all[k..]) && ptr == Head(left)
    ensures GuardIsAdmits(ptr, written, bufferSize, all, k)
  {
  }

  /** The drain loop, on a list that nobody else refers to. */
  method DrainLoop(pool: Pool, head: StringListEntry?, buffer: array<byte>,
      ghost was: seq<byte>, ghost others: set<object>, ghost ns: seq<StringListEntry>, ghost all: seq<Ustr>)
    returns (written: nat, ptr: StringListEntry?, ghost k: nat, ghost left: seq<StringListEntry>)
    requires DrainFits(all, buffer.Length)
    requires Draining(pool, buffer, was, others, all, 0, 0, ns) && head == Head(ns)
    modifies pool`live, buffer
    ensures Draining(pool, buffer, was, others, all, k, written, left)
    ensures left == ns[k..] && ptr == Head(left)
    ensures k == |all| || !Admits(written, all[k], buffer.Length)
  {
    k, left := 0, ns;
    written, ptr := 0, head;
    GuardMeaning(ptr, written, buffer.Length, all, k, left);
    while ptr != null && (written + ptr.length) % ULONG_LIMIT + 2 < buffer.Length
      invariant Draining(pool, buffer, was, others, all, k, written, left)
      invariant left == ns[k..] && ptr == Head(left)
      invariant GuardIsAdmits(ptr, written, buffer.Length, all, k)
      decreases |left|
    {
      written, ptr := DrainStep(pool, ptr, buffer, written, was, others, all, k, left);
      left, k := left[1..], k + 1;
      GuardMeaning(ptr, written, buffer.Length, all, k, left);
    }
  }

  /** The terminator, behind what is stored so far. */
  method Terminate(pool: Pool, buffer: array<byte>, written: nat,
      ghost was: seq<byte>, ghost others: set<object>,
      ghost all: seq<Ustr>, ghost k: nat, ghost left: seq<StringListEntry>)
    returns (written': nat, ghost message: seq<unit>)
    requires DrainFits(all, buffer.Length)
    requires Draining(pool, buffer, was, others, all, k, written, left)
    modifies buffer
    ensures ListOk(left, all[k..])
    ensures pool.live == others + Blocks(left) && others !! Blocks(left)
    ensures message == Emitted(all[..k], 0) + [END_OF_DATA]
    ensures Filled(buffer, message, was) && written' == written + 2 == 2 * |message|
  {
    ProgressFits(all, k, written, buffer.Length);
    PutUnit(buffer, written / 2, END_OF_DATA, Emitted(all[..k], 0), was);
    message := Emitted(all[..k], 0) + [END_OF_DATA];
    written' := written + 2;
  }

  /** The drain of a list that nobody else refers to, terminator included. */
  method Drain(pool: Pool, head: StringListEntry?, buffer: array<byte>, bufferSize: nat,
      ghost ns: seq<StringListEntry>, ghost texts: seq<Ustr>, ghost others: set<object>)
    returns (written: nat, ptr: StringListEntry?, ghost left: seq<StringListEntry>, ghost leftTexts: seq<Ustr>)
    requires ListOk(ns, texts) && head == Head(ns)
    requires pool.live == others + Blocks(ns) && others !! Blocks(ns)
    requires buffer.Length == bufferSize && DrainFits(texts, bufferSize)
    modifies pool`live, buffer
    ensures left == ns[Taken(texts, 0, bufferSize)..] && leftTexts == texts[Taken(texts, 0, bufferSize)..]
    ensures ListOk(left, leftTexts) && ptr == Head(left)
    ensures pool.live == others + Blocks(left) && others !! Blocks(left)
    ensures Filled(buffer, Payload(texts, bufferSize), old(buffer[..]))
    ensures written == 2 * |Payload(texts, bufferSize)|
  {
    ghost var was := buffer[..];
    ghost var k, message;
    assert texts[0..] == texts && texts[..0] == [];
    written, ptr, k, left := DrainLoop(pool, head, buffer, was, others, ns, texts);
    ProgressEnd(texts, k, written, bufferSize);
    written, message := Terminate(pool, buffer, written, was, others, texts, k, left);
    leftTexts := texts[k..];
  }

  class CommunicationState {
    const pool: Pool
    var outputBufferHead: StringListEntry?
    ghost var nodes: seq<StringListEntry>
    ghost var queue: seq<Ustr>  // newest report first

    ghost predicate Valid()
      reads this, pool, nodes
    {
      && ListOk(nodes, queue) && outputBufferHead == Head(nodes)
      && Blocks(nodes) <= pool.live
    }

    constructor (pool: Pool)
      ensures Valid() && this.pool == pool && queue == [] && nodes == []
    {
      this.pool := pool;
      outputBufferHead, nodes, queue := null, [], [];
    }

    /**
     * CommunicationReportItem. The source does not check that it got an entry: without one, an empty queue stays
     * empty and the report is lost, but in front of a queue that is not empty it would write through NULL.
     */
    method ReportItem(name: Ustr)
      requires Valid()
      requires outputBufferHead == null || pool.Grants(pool.asked, pool.asked + 2)
      modifies this, pool
      ensures Valid() && pool.asked == old(pool.asked) + pool.Tries(old(pool.asked), 2)
      ensures pool.Grants(old(pool.asked), old(pool.asked) + 2) ==>
                && queue == [name] + old(queue)
                && |nodes| == |old(nodes)| + 1 && nodes[1..] == old(nodes) && fresh(Cell(nodes[0]))
                && Blocks(nodes) == Cell(nodes[0]) + old(Blocks(nodes))
                && pool.live == old(pool.live) + Cell(nodes[0])
      ensures !pool.Grants(old(pool.asked), old(pool.asked) + 2) ==>
                queue == [] && nodes == [] && pool.live == old(pool.live)
    {
      var entry := Create(pool, name, |nodes|);
      if outputBufferHead == null {
        outputBufferHead := entry;
      } else {
        entry.next := outputBufferHead;
        outputBufferHead := entry;
      }
      if entry != null {
        Push(entry, name, nodes, queue);
        Adopt(entry, [entry] + nodes, [name] + queue, pool.live - Blocks([entry] + nodes));
      }
    }

    /** CommunicationClearOutputBuffer. */
    method ClearOutputBuffer()
      requires Valid()
      modifies this, pool`live
      ensures Valid() && queue == [] && nodes == []
      ensures pool.live == old(pool.live) - old(Blocks(nodes))
    {
      FreeAll(pool, outputBufferHead, nodes, queue, pool.live - Blocks(nodes));
      outputBufferHead := null;
      nodes, queue := [], [];
    }

    /**
     * CommunicationBuildOutputStreamBuffer. The buffer receives the greedy prefix of the queue in wire format
     * and nothing behind it is touched; the drained nodes are freed and no other block is.
     */
    method BuildOutputStreamBuffer(buffer: array<byte>, bufferSize: nat, ghost others: set<object>)
      returns (written: nat)
      requires Valid() && pool.live == others + Blocks(nodes) && others !! Blocks(nodes)
      requires buffer.Length == bufferSize && DrainFits(queue, bufferSize)
      modifies this, pool`live, buffer
      ensures written == 2 * |Payload(old(queue), bufferSize)|
      ensures Filled(buffer, Payload(old(queue), bufferSize), old(buffer[..]))
      ensures queue == old(queue)[Taken(old(queue), 0, bufferSize)..]
      ensures nodes == old(nodes)[Taken(old(queue), 0, bufferSize)..]
      ensures Valid() && pool.live == others + Blocks(nodes) && others !! Blocks(nodes)
    {
      var ptr;
      ghost var left, leftTexts;
      written, ptr, left, leftTexts := Drain(pool, outputBufferHead, buffer, bufferSize, nodes, queue, others);
      Adopt(ptr, left, leftTexts, others);
    }

    /** The state now refers to this list. */
    method Adopt(head: StringListEntry?, ghost ns: seq<StringListEntry>, ghost texts: seq<Ustr>,
        ghost others: set<object>)
      requires ListOk(ns, texts) && head == Head(ns)
      requires pool.live == others + Blocks(ns) && others !! Blocks(ns)
      modifies this
      ensures outputBufferHead == head && nodes == ns && queue == texts
      ensures Valid() && pool.live == others + Blocks(nodes) && others !! Blocks(nodes)
    {
      outputBufferHead, nodes, queue := head, ns, texts;
    }
  }
}
