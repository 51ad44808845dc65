/**
 * One chain of the hash table on the heap: singly linked nodes that own their keys and values, every one of
 * them a pool block. The methods account for each block they take or free.
 */
module Chains {
  import opened Units
  import opened PoolModel
  import opened TableSpec

  /** A block holding a UNICODE_STRING header and its characters; it is never written after the copy. */
  class UnicodeString {
    const text: Ustr
    ghost const owner: HashTableEntry

    constructor (text: Ustr, ghost owner: HashTableEntry)
      ensures this.text == text && this.owner == owner
    {
      this.text := text;
      this.owner := owner;
    }
  }

  class HashTableEntry {
    var key: UnicodeString?
    var value: UnicodeString?
    var next: HashTableEntry?
    ghost const bucket: nat
    ghost const pos: nat

    /** A zeroed node, about to become number pos of its bucket. */
    constructor (ghost bucket: nat, ghost pos: nat)
      ensures key == null && value == null && next == null
      ensures this.bucket == bucket && this.pos == pos
    {
      key, value, next := null, null, null;
      this.bucket, this.pos := bucket, pos;
    }
  }

  method AllocateAndCopyUnicodeString(pool: Pool, source: Ustr, ghost owner: HashTableEntry)
    returns (dest: UnicodeString?)
    modifies pool
    ensures dest != null <==> pool.grants(old(pool.asked))
    ensures pool.asked == old(pool.asked) + 1
    ensures dest == null ==> pool.live == old(pool.live)
    ensures dest != null ==>
              && fresh(dest) && dest.text == source && dest.owner == owner
              && pool.live == old(pool.live) + {dest}
  {
    var granted := pool.Ask();
    if !granted {
      return null;
    }
    dest := new UnicodeString(source, owner);
    pool.Track(dest);
  }

  method FreeUnicodeString(pool: Pool, source: UnicodeString?)
    requires source != null ==> source in pool.live
    modifies pool`live
    ensures pool.live == old(pool.live) - (if source == null then {} else {source})
  {
    if source != null {
      pool.Free(source);
    }
  }

  /** How many allocations an entry takes: a node, its key, and its value unless that is NULL. */
  function EntryRequests(value: Option<Ustr>): nat {
    if value.None? then 2 else 3
  }

  /** HashTableCreateEntry: on any of its three failing allocations, what was already taken is given back. */
  method CreateEntry(pool: Pool, key: Ustr, value: Option<Ustr>, ghost bucket: nat, ghost pos: nat)
    returns (r: HashTableEntry?)
    modifies pool
    ensures r != null <==> pool.Grants(old(pool.asked), old(pool.asked) + EntryRequests(value))
    ensures pool.asked == old(pool.asked) + pool.Tries(old(pool.asked), EntryRequests(value))
    ensures r == null ==> pool.live == old(pool.live)
    ensures r != null ==>
              && fresh(OneNode(r)) && r.pos == pos && Complete(r, Pair(key, value), bucket)
              && pool.live == old(pool.live) + OneNode(r)
  {
    var entry: HashTableEntry? := null;
    label attempt: {
      var granted := pool.Ask();
      if !granted {
        break attempt;
      }
      entry := new HashTableEntry(bucket, pos);
      pool.Track(entry);

      entry.key := AllocateAndCopyUnicodeString(pool, key, entry);
      if entry.key == null {
        break attempt;
      }

      if value.Some? {
        entry.value := AllocateAndCopyUnicodeString(pool, value.value, entry);
        if entry.value == null {
          break attempt;
        }
      }
      return entry;
    }
    if entry != null {
      if entry.key != null {
        FreeUnicodeString(pool, entry.key);
      }
      // the value is copied last, so an abandoned node never holds one
      assert entry.value == null;
      pool.Free(entry);
    }
    return null;
  }

  /** The value of an entry is replaced by freeing the old copy first, so a failed copy leaves NULL. */
  method CopyValue(pool: Pool, entry: HashTableEntry, value: Option<Ustr>) returns (ghost oom: bool)
    requires entry.value != null ==> entry.value in pool.live
    modifies pool, entry`value
    ensures oom <==> value.Some? && !pool.grants(old(pool.asked))
    ensures pool.asked == old(pool.asked) + (if value.Some? then 1 else 0)
    ensures entry.value == null <==> oom || value.None?
    ensures entry.value != null ==>
              fresh(entry.value) && entry.value.text == value.value && entry.value.owner == entry
    ensures pool.live == old(pool.live) - (if old(entry.value) == null then {} else {old(entry.value)})
                                        + (if entry.value == null then {} else {entry.value})
  {
    oom := false;
    if entry.value != null {
      FreeUnicodeString(pool, entry.value);
    }
    entry.value := null;
    if value.Some? {
      entry.value := AllocateAndCopyUnicodeString(pool, value.value, entry);
      oom := entry.value == null;
    }
  }

  // ---------- one chain ----------

  ghost function Head(ns: seq<HashTableEntry>): HashTableEntry? {
    if ns == [] then null else ns[0]
  }

  /** Node i is linked to its successor, owns its key and its value, and represents the pair. */
  ghost predicate Holds(ns: seq<HashTableEntry>, i: nat, pair: Pair, b: nat, own: set<object>)
    requires i < |ns|
    reads ns[i]
  {
    var e := ns[i];
    && e.bucket == b && e.pos == i && e in own
    && e.next == (if i + 1 < |ns| then ns[i + 1] else null)
    && e.key != null && e.key in own && e.key.owner == e && e.key.text == pair.key
    && (if pair.value.None? then e.value == null
        else
          && e.value != null && e.value in own && e.value.owner == e
          && e.value != e.key && e.value.text == pair.value.value)
  }

  /** The block is a node of the chain, or the key or the value of one. */
  ghost predicate PartOf(o: object, ns: seq<HashTableEntry>)
    reads ns
  {
    || (o is HashTableEntry && var e := o as HashTableEntry; e.pos < |ns| && ns[e.pos] == e)
    || (o is UnicodeString
        && var s := o as UnicodeString; var e := s.owner;
           e.pos < |ns| && ns[e.pos] == e && (e.key == s || e.value == s))
  }

  /** The nodes represent the pairs, and own is exactly the set of their blocks. */
  ghost predicate ChainOk(ns: seq<HashTableEntry>, pairs: Chain, b: nat, own: set<object>)
    reads ns
  {
    && |ns| == |pairs|
    && (forall i {:trigger Holds(ns, i, pairs[i], b, own)} :: 0 <= i < |ns| ==> Holds(ns, i, pairs[i], b, own))
    && (forall o {:trigger PartOf(o, ns)} :: o in own ==> PartOf(o, ns))
  }

  /** Bucket and position of the node a block belongs to. */
  ghost function BucketOf(o: object): int {
    if o is HashTableEntry then (o as HashTableEntry).bucket
    else if o is UnicodeString then (o as UnicodeString).owner.bucket
    else -1
  }

  ghost function PosOf(o: object): int {
    if o is HashTableEntry then (o as HashTableEntry).pos
    else if o is UnicodeString then (o as UnicodeString).owner.pos
    else -1
  }

  ghost function Between(own: set<object>, lo: int, hi: int): set<object> {
    set o | o in own && lo <= PosOf(o) < hi
  }

  ghost function OneNode(e: HashTableEntry): set<object>
    reads e
  {
    {e} + (if e.key == null then {} else {e.key}) + (if e.value == null then {} else {e.value})
  }

  /** A chain's blocks are nodes and strings only, all of its own bucket. */
  lemma BlocksOfChain(ns: seq<HashTableEntry>, pairs: Chain, b: nat, own: set<object>)
    requires ChainOk(ns, pairs, b, own)
    ensures forall o :: o in own ==> (o is HashTableEntry || o is UnicodeString) && BucketOf(o) == b
    ensures forall e :: e in ns ==> e in own && e.bucket == b
  {
    forall o | o in own
      ensures (o is HashTableEntry || o is UnicodeString) && BucketOf(o) == b
    {
      assert PartOf(o, ns);
      var i := PosOf(o);
      assert Holds(ns, i, pairs[i], b, own);
    }
    forall e | e in ns
      ensures e in own && e.bucket == b
    {
      var i :| 0 <= i < |ns| && ns[i] == e;
      assert Holds(ns, i, pairs[i], b, own);
    }
  }

  lemma BetweenStep(ns: seq<HashTableEntry>, pairs: Chain, b: nat, own: set<object>, lo: nat, i: nat)
    requires ChainOk(ns, pairs, b, own) && lo <= i < |ns|
    ensures Between(own, lo, i + 1) == Between(own, lo, i) + OneNode(ns[i])
    ensures Between(own, lo, i) !! OneNode(ns[i])
  {
    assert Holds(ns, i, pairs[i], b, own);
    forall o | o in Between(own, lo, i + 1)
      ensures o in Between(own, lo, i) + OneNode(ns[i])
    {
      assert PartOf(o, ns);
    }
  }

  lemma WholeChain(ns: seq<HashTableEntry>, pairs: Chain, b: nat, own: set<object>)
    requires ChainOk(ns, pairs, b, own)
    ensures Between(own, 0, |ns|) == own
  {
    forall o | o in own
      ensures 0 <= PosOf(o) < |ns|
    {
      assert PartOf(o, ns);
    }
  }

  /** Blocks of a pair: node and key, and the value if there is one. */
  function PairWeight(pair: Pair): nat {
    if pair.value.None? then 2 else 3
  }

  function ChainWeight(pairs: Chain): nat {
    if pairs == [] then 0 else ChainWeight(pairs[..|pairs| - 1]) + PairWeight(pairs[|pairs| - 1])
  }

  function TableWeight(t: Table): nat {
    if t == [] then 0 else TableWeight(t[..|t| - 1]) + ChainWeight(t[|t| - 1])
  }

  lemma {:induction false} ChainBlockCount(
      ns: seq<HashTableEntry>, pairs: Chain, b: nat, own: set<object>, i: nat)
    requires ChainOk(ns, pairs, b, own) && i <= |ns|
    ensures |Between(own, 0, i)| == ChainWeight(pairs[..i])
  {
    if i == 0 {
      assert Between(own, 0, 0) == {};
    } else {
      ChainBlockCount(ns, pairs, b, own, i - 1);
      BetweenStep(ns, pairs, b, own, 0, i - 1);
      assert Holds(ns, i - 1, pairs[i - 1], b, own);
      assert pairs[..i][..i - 1] == pairs[..i - 1];
      assert |OneNode(ns[i - 1])| == PairWeight(pairs[i - 1]);
    }
  }

  /** HashTableFreeEntry: frees this node and every node after it in its chain. */
  method FreeEntry(pool: Pool, first: HashTableEntry?,
      ghost ns: seq<HashTableEntry>, ghost pairs: Chain, ghost b: nat, ghost own: set<object>, ghost p: nat)
    requires ChainOk(ns, pairs, b, own) && own <= pool.live && pool !in own
    requires p <= |ns| && first == if p < |ns| then ns[p] else null
    modifies pool`live
    ensures pool.live == old(pool.live) - Between(own, p, |ns|)
  {
    var entry := first;
    ghost var i := p;
    while entry != null
      invariant p <= i <= |ns|
      invariant entry == if i < |ns| then ns[i] else null
      invariant pool.live == old(pool.live) - Between(own, p, i)
      decreases |ns| - i
    {
      assert Holds(ns, i, pairs[i], b, own);
      BetweenStep(ns, pairs, b, own, p, i);
      FreeUnicodeString(pool, entry.key);
      FreeUnicodeString(pool, entry.value);
      var next := entry.next;
      pool.Free(entry);
      entry := next;
      i := i + 1;
    }
  }

  /** Hangs a new node behind the last node of a chain. */
  method LinkNode(created: HashTableEntry, tail: HashTableEntry?,
      ghost ns: seq<HashTableEntry>, ghost pairs: Chain, ghost b: nat, ghost own: set<object>, ghost pair: Pair)
    requires ChainOk(ns, pairs, b, own) && tail == (if ns == [] then null else ns[|ns| - 1])
    requires created.pos == |ns| && created !in own
    requires Complete(created, pair, b)
    modifies if tail == null then {} else {tail}
    ensures ChainOk(ns + [created], pairs + [pair], b, own + OneNode(created))
  {
    if tail != null {
      assert Holds(ns, |ns| - 1, pairs[|ns| - 1], b, own);
      tail.next := created;
    }
    ghost var ns', pairs', own' := ns + [created], pairs + [pair], own + OneNode(created);
    forall i | 0 <= i < |ns'|
      ensures Holds(ns', i, pairs'[i], b, own')
    {
      assert i < |ns| ==> old(Holds(ns, i, pairs[i], b, own));
    }
    forall o | o in own'
      ensures PartOf(o, ns')
    {
      assert o in own ==> old(PartOf(o, ns));
    }
  }

  /** The node has this key and this value. */
  ghost predicate Spells(e: HashTableEntry, pair: Pair)
    reads e
  {
    && e.key != null && e.key.text == pair.key
    && (if pair.value.None? then e.value == null else e.value != null && e.value.text == pair.value.value)
  }

  /** A complete node that is not linked to anything yet. */
  ghost predicate Complete(e: HashTableEntry, pair: Pair, b: nat)
    reads e
  {
    && e.bucket == b && e.next == null
    && e.key != null && e.key.owner == e && e.key.text == pair.key
    && (if pair.value.None? then e.value == null
        else e.value != null && e.value.owner == e && e.value != e.key && e.value.text == pair.value.value)
  }

  /** Replaces the value of one node. The old copy goes first, so a failed copy leaves NULL. */
  method ReplaceValue(pool: Pool, entry: HashTableEntry, value: Option<Ustr>,
      ghost ns: seq<HashTableEntry>, ghost pairs: Chain, ghost b: nat, ghost own: set<object>, ghost i: nat)
    returns (ghost oom: bool, ghost pairs': Chain, ghost own': set<object>)
    requires ChainOk(ns, pairs, b, own) && own <= pool.live && pool !in own
    requires i < |ns| && entry == ns[i]
    modifies pool, entry`value
    ensures oom <==> value.Some? && !pool.grants(old(pool.asked))
    ensures pool.asked == old(pool.asked) + (if value.Some? then 1 else 0)
    ensures ChainOk(ns, pairs', b, own')
    ensures pairs' == pairs[i := Pair(pairs[i].key, if oom then None else value)]
    ensures fresh(own' - own)
    ensures pool.live == old(pool.live) - own + own'
  {
    assert Holds(ns, i, pairs[i], b, own);
    ghost var was := entry.value;
    oom := CopyValue(pool, entry, value);
    own' := own - (if was == null then {} else {was}) + (if entry.value == null then {} else {entry.value});
    pairs' := pairs[i := Pair(pairs[i].key, if oom then None else value)];
    forall j | 0 <= j < |ns|
      ensures Holds(ns, j, pairs'[j], b, own')
    {
      assert old(Holds(ns, j, pairs[j], b, own));
    }
    forall o | o in own'
      ensures PartOf(o, ns)
    {
      assert o in own ==> old(PartOf(o, ns));
    }
  }

  /** Points a node past a freed stretch. With no node left behind it, the cut chain is intact. */
  method Relink(prev: HashTableEntry, next: HashTableEntry?,
      ghost ns: seq<HashTableEntry>, ghost pairs: Chain, ghost b: nat, ghost own: set<object>, ghost p: nat)
    requires ChainOk(ns, pairs, b, own) && 0 < p <= |ns| && prev == ns[p - 1]
    modifies prev`next
    ensures prev.next == next && Spells(prev, pairs[p - 1])
    ensures forall j {:trigger Holds(ns, j, pairs[j], b, own)} :: 0 <= j < p - 1 ==> Holds(ns, j, pairs[j], b, own)
    ensures next == null ==> ChainOk(ns[..p], pairs[..p], b, own - Between(own, p, |ns|))
  {
    assert Holds(ns, p - 1, pairs[p - 1], b, own);
    prev.next := next;
    forall j | 0 <= j < p - 1
      ensures Holds(ns, j, pairs[j], b, own)
    {
      assert old(Holds(ns, j, pairs[j], b, own));
    }
    if next == null {
      ghost var rest := own - Between(own, p, |ns|);
      forall i | 0 <= i < p
        ensures Holds(ns[..p], i, pairs[..p][i], b, rest)
      {
        assert old(Holds(ns, i, pairs[i], b, own));
      }
      forall o | o in rest
        ensures PartOf(o, ns[..p])
      {
        assert old(PartOf(o, ns));
      }
    }
  }
}
