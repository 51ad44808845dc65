/** StringList.c on the heap: singly linked lists of deep-copied strings, each node and buffer a pool block. */
module StringLists {
  import opened Units
  import opened PoolModel

  /** The block an entry's data.Buffer points to; it is never written after the copy. */
  class Buffer {
    const units: Ustr
    ghost const owner: StringListEntry

    constructor (units: Ustr, ghost owner: StringListEntry)
      ensures this.units == units && this.owner == owner
    {
      this.units := units;
      this.owner := owner;
    }
  }

  class StringListEntry {
    var length: nat  // data.Length, in bytes
    var buffer: Buffer?
    var next: StringListEntry?
    ghost const rank: nat  // how many entries follow; every list here grows and shrinks at its head only

    constructor (ghost rank: nat)
      ensures length == 0 && buffer == null && next == null && this.rank == rank
    {
      length, buffer, next := 0, null, null;
      this.rank := rank;
    }
  }

  ghost function Head(ns: seq<StringListEntry>): StringListEntry? {
    if ns == [] then null else ns[0]
  }

  /** The entry holds its own copy of the text. */
  ghost predicate Carries(e: StringListEntry, text: Ustr)
    reads e
  {
    && e.length == 2 * |text|
    && e.buffer != null && e.buffer.units == text && e.buffer.owner == e
  }

  /** The entries are linked in this order and carry these texts. */
  ghost predicate ListOk(ns: seq<StringListEntry>, texts: seq<Ustr>)
    reads ns
  {
    && |ns| == |texts|
    && (ns != [] ==>
          && Carries(ns[0], texts[0])
          && ns[0].next == Head(ns[1..])
          && ns[0].rank == |ns| - 1
          && ListOk(ns[1..], texts[1..]))
  }

  ghost function Cell(e: StringListEntry): set<object>
    reads e
  {
    {e} + (if e.buffer == null then {} else {e.buffer})
  }

  /** Every block of the list. */
  ghost function Blocks(ns: seq<StringListEntry>): set<object>
    reads ns
  {
    if ns == [] then {} else Cell(ns[0]) + Blocks(ns[1..])
  }

  ghost function RankOf(o: object): int {
    if o is StringListEntry then (o as StringListEntry).rank
    else if o is Buffer then (o as Buffer).owner.rank
    else -1
  }

  lemma {:induction false} RanksBelow(ns: seq<StringListEntry>, texts: seq<Ustr>)
    requires ListOk(ns, texts)
    ensures forall o :: o in Blocks(ns) ==> 0 <= RankOf(o) < |ns|
    ensures forall e :: e in ns ==> e in Blocks(ns)
  {
    if ns == [] {
    } else {
      RanksBelow(ns[1..], texts[1..]);
    }
  }

  /** The blocks of the first entry are not shared with any other. */
  lemma FirstCellApart(ns: seq<StringListEntry>, texts: seq<Ustr>)
    requires ListOk(ns, texts) && ns != []
    ensures Cell(ns[0]) !! Blocks(ns[1..]) && |Cell(ns[0])| == 2
  {
    RanksBelow(ns[1..], texts[1..]);
  }

  /** Two blocks per entry, none shared. */
  lemma {:induction false} BlockCount(ns: seq<StringListEntry>, texts: seq<Ustr>)
    requires ListOk(ns, texts)
    ensures |Blocks(ns)| == 2 * |texts|
  {
    if ns == [] {
    } else {
      FirstCellApart(ns, texts);
      BlockCount(ns[1..], texts[1..]);
    }
  }

  /** A new first entry in front of an intact list. */
  lemma Push(e: StringListEntry, text: Ustr, ns: seq<StringListEntry>, texts: seq<Ustr>)
    requires ListOk(ns, texts) && Carries(e, text) && e.next == Head(ns) && e.rank == |ns|
    ensures ListOk([e] + ns, [text] + texts)
    ensures Blocks([e] + ns) == Cell(e) + Blocks(ns)
  {
    assert ([e] + ns)[1..] == ns && ([text] + texts)[1..] == texts;
  }

  /** StringListEntryCreate: a deep copy, or nothing. */
  method Create(pool: Pool, source: Ustr, ghost rank: nat) returns (r: StringListEntry?)
    modifies pool
    ensures r != null <==> pool.Grants(old(pool.asked), old(pool.asked) + 2)
    ensures pool.asked == old(pool.asked) + pool.Tries(old(pool.asked), 2)
    ensures r == null ==> pool.live == old(pool.live)
    ensures r != null ==>
              && fresh(Cell(r)) && Carries(r, source) && r.next == null && r.rank == rank
              && pool.live == old(pool.live) + Cell(r)
  {
    var granted := pool.Ask();
    if !granted {
      return null;
    }
    var entry := new StringListEntry(rank);
    pool.Track(entry);
    entry.next := null;

    granted := pool.Ask();
    if !granted {
      pool.Free(entry);
      return null;
    }
    entry.buffer := new Buffer(source, entry);
    pool.Track(entry.buffer);
    entry.length := 2 * |source|;
    return entry;
  }

  /** StringListEntryFree, applied to the first entry of a list: the other entries stay as they are. */
  method FreeFirst(pool: Pool, entry: StringListEntry,
      ghost ns: seq<StringListEntry>, ghost texts: seq<Ustr>, ghost others: set<object>)
    requires ListOk(ns, texts) && ns != [] && entry == ns[0]
    requires pool.live == others + Blocks(ns) && others !! Blocks(ns)
    modifies pool`live
    ensures pool.live == others + Blocks(ns[1..]) && others !! Blocks(ns[1..])
  {
    FirstCellApart(ns, texts);
    pool.Free(entry.buffer);
    pool.Free(entry);
  }

  /** StringListFree: frees every block of the list once, reading each next pointer before its entry goes. */
  method FreeAll(pool: Pool, entry: StringListEntry?,
      ghost ns: seq<StringListEntry>, ghost texts: seq<Ustr>, ghost others: set<object>)
    requires ListOk(ns, texts) && entry == Head(ns)
    requires pool.live == others + Blocks(ns) && others !! Blocks(ns)
    modifies pool`live
    ensures pool.live == others
  {
    var ptr := entry;
    ghost var left, leftTexts := ns, texts;
    while ptr != null
      invariant ListOk(left, leftTexts) && ptr == Head(left)
      invariant pool.live == others + Blocks(left) && others !! Blocks(left)
      decreases |left|
    {
      var next := ptr.next;
      FreeFirst(pool, ptr, left, leftTexts, others);
      ptr := next;
      left, leftTexts := left[1..], leftTexts[1..];
    }
  }
}
