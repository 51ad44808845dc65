/**
 * HashTable.c on the heap: an array of chains. Every method is proved equal to its function of TableSpec, and
 * says what becomes of the table's blocks.
 */
module ChainedTable {
  import opened Units
  import opened Hashing
  import opened PoolModel
  import opened TableSpec
  import opened TableRuns
  import opened Chains

  class HashTable {
    const pool: Pool
    const up: CaseTable
    var entries: array?<HashTableEntry?>
    var size: ulong
    ghost var nodes: seq<seq<HashTableEntry>>  // the chains, bucket by bucket
    ghost var chains: Table                    // what they represent
    ghost var owned: seq<set<object>>          // the blocks of each chain
    ghost var blocks: set<object>              // every block of the table

    ghost predicate Valid()
      reads this, pool, blocks
    {
      && pool !in blocks && blocks <= pool.live
      && Shape()
    }

    /** The part of Valid that does not depend on the pool. */
    ghost predicate Shape()
      reads this, blocks
    {
      && ShapeExcept(-1)
      && (forall o :: o in blocks ==> o == this || o == entries || InChain(o))
    }

    /** Every bucket but one is in order. */
    ghost predicate ShapeExcept(x: int)
      reads this, blocks
    {
      && this in blocks && entries != null && entries in blocks
      && entries.Length == size == |nodes| == |chains| == |owned|
      && (forall b :: 0 <= b < size && b != x ==> |nodes[b]| == |chains[b]| && entries[b] == Head(nodes[b]))
      && (forall b {:trigger BucketOk(b)} :: 0 <= b < size && b != x ==> BucketOk(b))
    }

    ghost predicate BucketOk(b: nat)
      requires b < |nodes| && b < |chains| && b < |owned|
      reads this, blocks
    {
      && (forall e :: e in nodes[b] ==> e in blocks)
      && owned[b] <= blocks
      && ChainOk(nodes[b], chains[b], b, owned[b])
    }

    ghost predicate Separate(c: nat, b: nat)
      requires c < |nodes| && c < |owned| && b < |owned|
      reads this
    {
      owned[c] !! owned[b] && forall e :: e in nodes[c] ==> e in owned[c]
    }

    /** Different chains share no block, and none of them holds the table or its array. */
    lemma Apart(b: nat)
      requires Shape() && b < size
      ensures this !in owned[b] && entries !in owned[b]
      ensures forall e :: e in nodes[b] ==> e in owned[b]
      ensures forall c :: 0 <= c < size && c != b ==> Separate(c, b)
    {
      assert BucketOk(b);
      BlocksOfChain(nodes[b], chains[b], b, owned[b]);
      forall c | 0 <= c < size && c != b
        ensures Separate(c, b)
      {
        assert BucketOk(c);
        BlocksOfChain(nodes[c], chains[c], c, owned[c]);
      }
    }

    /** Records the new state of one chain, once the heap is in that state. */
    ghost method Install(b: nat, ns: seq<HashTableEntry>, pairs: Chain, own: set<object>)
      requires ShapeExcept(b) && b < size
      requires forall o :: o in blocks ==> o == this || o == entries || InChain(o)
      requires ChainOk(ns, pairs, b, own) && entries[b] == Head(ns)
      requires this !in own && entries !in own
      requires this !in owned[b] && entries !in owned[b]
      requires forall c :: 0 <= c < size && c != b ==> Separate(c, b)
      modifies this`nodes, this`chains, this`owned, this`blocks
      ensures Shape() && size == old(size)
      ensures nodes == old(nodes)[b := ns] && chains == old(chains)[b := pairs]
      ensures owned == old(owned)[b := own] && blocks == old(blocks) - old(owned[b]) + own
    {
      BlocksOfChain(ns, pairs, b, own);
      nodes, chains, blocks, owned := nodes[b := ns], chains[b := pairs], blocks - owned[b] + own, owned[b := own];
      forall c | 0 <= c < size
        ensures BucketOk(c)
      {
        assert c != b ==> old(BucketOk(c)) && old(Separate(c, b));
      }
    }

    /** The block belongs to the chain of its own bucket. */
    ghost predicate InChain(o: object)
      reads this
    {
      0 <= BucketOf(o) < |owned| && o in owned[BucketOf(o)]
    }

    /** The zeroed HashTable structure. */
    constructor (pool: Pool, up: CaseTable)
      ensures this.pool == pool && this.up == up && entries == null && size == 0
      ensures nodes == [] && chains == [] && owned == [] && blocks == {this}
    {
      this.pool, this.up := pool, up;
      entries, size := null, 0;
      nodes, chains, owned, blocks := [], [], [], {this};
    }

    /** HashTableCreate. */
    static method Create(pool: Pool, up: CaseTable, maxSize: ulong) returns (hashtable: HashTable?)
      modifies pool
      ensures hashtable != null <==> pool.Grants(old(pool.asked), old(pool.asked) + 2)
      ensures pool.asked == old(pool.asked) + pool.Tries(old(pool.asked), 2)
      ensures hashtable == null ==> pool.live == old(pool.live)
      ensures hashtable != null ==>
                && fresh(hashtable) && hashtable.Valid() && fresh(hashtable.blocks)
                && hashtable.pool == pool && hashtable.up == up
                && hashtable.chains == Empty(maxSize)
                && pool.live == old(pool.live) + hashtable.blocks
    {
      var granted := pool.Ask();
      if !granted {
        return null;
      }
      hashtable := new HashTable(pool, up);
      pool.Track(hashtable);
      granted := pool.Ask();
      if !granted {
        pool.Free(hashtable);
        return null;
      }
      hashtable.AllocateEntries(maxSize);
      pool.Track(hashtable.entries);
    }

    /** The array of chains, every slot NULL. */
    method AllocateEntries(maxSize: ulong)
      modifies this
      ensures fresh(entries) && Shape() && blocks == {this, entries}
      ensures chains == Empty(maxSize)
    {
      size := maxSize;
      entries := new HashTableEntry?[maxSize](_ => null);
      nodes, chains, owned := seq(maxSize, _ => []), Empty(maxSize), seq(maxSize, _ => {});
      blocks := {this, entries};
      forall b | 0 <= b < maxSize
        ensures BucketOk(b)
      {
        assert nodes[b] == [] && owned[b] == {};
      }
    }

    /** HashTableGetEntryByKey. */
    method GetEntryByKey(key: Ustr) returns (entry: HashTableEntry?)
      requires Valid() && size > 0
      ensures var b := Bucket(key, size); var i := Find(up, chains[b], key);
              entry == if i < |nodes[b]| then nodes[b][i] else null
    {
      var hashtableIndex := CalculateHash(key, size);
      ghost var b := hashtableIndex;
      ghost var i := 0;
      entry := entries[hashtableIndex];
      while entry != null
        invariant i <= |nodes[b]|
        invariant entry == if i < |nodes[b]| then nodes[b][i] else null
        invariant forall j :: 0 <= j < i ==> !Same(up, key, chains[b][j].key)
        decreases |nodes[b]| - i
      {
        assert BucketOk(b) && Holds(nodes[b], i, chains[b][i], b, owned[b]);
        if Same(up, key, entry.key.text) {
          return;
        }
        entry := entry.next;
        i := i + 1;
      }
    }

    /** HashTableGetValueByKey: a missing key and a NULL value look alike to the caller. */
    method GetValueByKey(key: Ustr) returns (value: UnicodeString?)
      requires Valid() && size > 0
      ensures value == null <==> Lookup(up, chains, key) in {None, Some(None)}
      ensures value != null ==> value in blocks && Lookup(up, chains, key) == Some(Some(value.text))
    {
      var entry := GetEntryByKey(key);
      ghost var b := Bucket(key, size);
      ghost var i := Find(up, chains[b], key);
      assert BucketOk(b);
      assert entry != null ==> Holds(nodes[b], i, chains[b][i], b, owned[b]);
      value := if entry != null then entry.value else null;
    }

    /** HashTableIsKeyExists. */
    method IsKeyExists(key: Ustr) returns (found: bool)
      requires Valid() && size > 0
      ensures found <==> Lookup(up, chains, key).Some?
    {
      var entry := GetEntryByKey(key);
      found := entry != null;
    }

    /** How many allocations HashTableSet takes: a new entry, or only the copy of the value. */
    function SetRequests(pairs: Chain, key: Ustr, value: Option<Ustr>): nat {
      if Find(up, pairs, key) == |pairs| then EntryRequests(value) else if value.Some? then 1 else 0
    }

    /** HashTableSet. oom reports whether one of the allocations it takes was refused. */
    method Set(key: Ustr, value: Option<Ustr>) returns (r: HashTableEntry?, ghost oom: bool)
      requires Valid() && size > 0
      modifies pool, blocks
      ensures var requests := SetRequests(old(chains[Bucket(key, size)]), key, value);
              && (oom <==> !pool.Grants(old(pool.asked), old(pool.asked) + requests))
              && pool.asked == old(pool.asked) + pool.Tries(old(pool.asked), requests)
      ensures Valid() && size == old(size) && fresh(blocks - old(blocks))
      ensures chains == Put(up, old(chains), key, value, oom)
      ensures WellFormed(up, old(chains)) ==> WellFormed(up, chains)
      ensures pool.live == old(pool.live) - old(blocks) + blocks
      ensures r == null <==> oom && Lookup(up, old(chains), key).None?
      ensures r == null ==> blocks == old(blocks) && pool.live == old(pool.live)
      ensures var b := Bucket(key, size); var i := Find(up, old(chains[b]), key);
              r != null ==> i < |nodes[b]| && r == nodes[b][i]
    {
      var hashtableIndex := CalculateHash(key, size);
      r, oom := SetInBucket(hashtableIndex, key, value);
      if WellFormed(up, old(chains)) {
        PutKeepsWellFormed(up, old(chains), key, value, oom);
      }
    }

    /** The body of HashTableSet below the hash. */
    method SetInBucket(hashtableIndex: nat, key: Ustr, value: Option<Ustr>)
      returns (r: HashTableEntry?, ghost oom: bool)
      requires Valid() && hashtableIndex < size
      modifies pool, blocks
      ensures var requests := SetRequests(old(chains[hashtableIndex]), key, value);
              && (oom <==> !pool.Grants(old(pool.asked), old(pool.asked) + requests))
              && pool.asked == old(pool.asked) + pool.Tries(old(pool.asked), requests)
      ensures Valid() && size == old(size) && fresh(blocks - old(blocks))
      ensures chains == old(chains)[hashtableIndex := PutChain(up, old(chains[hashtableIndex]), key, value, oom)]
      ensures pool.live == old(pool.live) - old(blocks) + blocks
      ensures var i := Find(up, old(chains[hashtableIndex]), key);
              && (r == null <==> oom && i == |old(chains[hashtableIndex])|)
              && (r == null ==> blocks == old(blocks) && pool.live == old(pool.live))
              && (r != null ==> i < |nodes[hashtableIndex]| && r == nodes[hashtableIndex][i])
    {
      ghost var b := hashtableIndex;
      if entries[hashtableIndex] == null {
        r, oom := Append(null, hashtableIndex, key, value);
        return;
      } else {
        var entry := entries[hashtableIndex];
        ghost var i := 0;
        while entry != null
          invariant i < |nodes[b]| && entry == nodes[b][i]
          invariant forall j :: 0 <= j < i ==> !Same(up, key, chains[b][j].key)
          decreases |nodes[b]| - i
        {
          assert BucketOk(b) && Holds(nodes[b], i, chains[b][i], b, owned[b]);
          if Same(up, key, entry.key.text) {
            oom := Overwrite(entry, value, b, i);
            return entry, oom;
          }
          if entry.next == null {
            r, oom := Append(entry, hashtableIndex, key, value);
            return;
          }
          entry := entry.next;
          i := i + 1;
        }
        assert false;
      }
    }

    /** Creates an entry and hangs it behind the last one of its chain, or on the empty slot. */
    method Append(tail: HashTableEntry?, b: nat, key: Ustr, value: Option<Ustr>)
      returns (r: HashTableEntry?, ghost oom: bool)
      requires Valid() && b < size
      requires tail == if nodes[b] == [] then null else nodes[b][|nodes[b]| - 1]
      modifies pool, blocks
      ensures Valid() && size == old(size) && fresh(blocks - old(blocks))
      ensures oom <==> r == null
      ensures oom <==> !pool.Grants(old(pool.asked), old(pool.asked) + EntryRequests(value))
      ensures pool.asked == old(pool.asked) + pool.Tries(old(pool.asked), EntryRequests(value))
      ensures oom ==> blocks == old(blocks) && pool.live == old(pool.live)
      ensures chains == if oom then old(chains) else old(chains)[b := old(chains[b]) + [Pair(key, value)]]
      ensures nodes == if oom then old(nodes) else old(nodes)[b := old(nodes[b]) + [r]]
      ensures pool.live == old(pool.live) - old(blocks) + blocks
    {
      r := CreateEntry(pool, key, value, b, |nodes[b]|);
      oom := r == null;
      if r != null {
        assert BucketOk(b);
        Hang(r, tail, b, Pair(key, value));
      }
    }

    /** Stores the pointer to a new entry in the empty slot, or in the last entry of its chain. */
    method Hang(created: HashTableEntry, tail: HashTableEntry?, b: nat, ghost pair: Pair)
      requires Shape() && b < size
      requires tail == if nodes[b] == [] then null else nodes[b][|nodes[b]| - 1]
      requires Complete(created, pair, b) && created.pos == |nodes[b]| && OneNode(created) !! blocks
      modifies this, entries, if tail == null then {} else {tail}
      ensures Shape() && size == old(size)
      ensures chains == old(chains)[b := old(chains[b]) + [pair]]
      ensures nodes == old(nodes)[b := old(nodes[b]) + [created]]
      ensures blocks == old(blocks) + OneNode(created)
    {
      Apart(b);
      assert BucketOk(b) && (tail != null ==> tail in owned[b]);
      LinkNode(created, tail, nodes[b], chains[b], b, owned[b], pair);
      if tail == null {
        entries[b] := created;
      }
      forall c | 0 <= c < size && c != b
        ensures BucketOk(c)
      {
        assert old(BucketOk(c)) && Separate(c, b);
      }
      Install(b, nodes[b] + [created], chains[b] + [pair], owned[b] + OneNode(created));
    }

    method Overwrite(entry: HashTableEntry, value: Option<Ustr>, ghost b: nat, ghost i: nat)
      returns (ghost oom: bool)
      requires Valid() && b < size && i < |nodes[b]| && entry == nodes[b][i]
      modifies pool, blocks
      ensures oom <==> value.Some? && !pool.grants(old(pool.asked))
      ensures pool.asked == old(pool.asked) + (if value.Some? then 1 else 0)
      ensures Valid() && size == old(size) && nodes == old(nodes) && fresh(blocks - old(blocks))
      ensures chains == old(chains)[b := old(chains[b])[i := Pair(old(chains[b][i].key), if oom then None else value)]]
      ensures pool.live == old(pool.live) - old(blocks) + blocks
    {
      Apart(b);
      assert BucketOk(b) && entry in owned[b];
      ghost var pairs', own';
      oom, pairs', own' := ReplaceValue(pool, entry, value, nodes[b], chains[b], b, owned[b], i);
      forall c | 0 <= c < size && c != b
        ensures BucketOk(c)
      {
        assert old(BucketOk(c)) && Separate(c, b);
      }
      Install(b, nodes[b], pairs', own');
    }

    /** HashTableFreeEntryAtIndex: frees a whole chain. */
    method FreeEntryAtIndex(index: nat)
      requires Valid() && index < size
      modifies pool`live, blocks
      ensures Valid() && size == old(size) && entries == old(entries)
      ensures chains == old(chains)[index := []] && nodes == old(nodes)[index := []]
      ensures old(owned[index]) <= old(blocks) && blocks == old(blocks) - old(owned[index])
      ensures pool.live == old(pool.live) - old(owned[index])
    {
      assert BucketOk(index);
      Apart(index);
      WholeChain(nodes[index], chains[index], index, owned[index]);
      var entry := entries[index];
      if entry != null {
        FreeEntry(pool, entry, nodes[index], chains[index], index, owned[index], 0);
        entries[index] := null;
        forall c | 0 <= c < size && c != index
          ensures BucketOk(c)
        {
          assert old(BucketOk(c)) && Separate(c, index);
        }
        Install(index, [], [], {});
      }
    }

    /** HashTableFree: afterwards none of the table's blocks is allocated, and nothing else has changed. */
    static method Free(hashtable: HashTable?)
      requires hashtable != null ==> hashtable.Valid()
      modifies if hashtable == null then {} else {hashtable.pool} + hashtable.blocks
      ensures hashtable != null ==> hashtable.pool.asked == old(hashtable.pool.asked)
      ensures hashtable != null ==> hashtable.pool.live == old(hashtable.pool.live) - old(hashtable.blocks)
    {
      if hashtable != null {
        var index := 0;
        while index < hashtable.size
          invariant 0 <= index <= hashtable.size == old(hashtable.size)
          invariant hashtable.Valid() && hashtable.entries == old(hashtable.entries)
          invariant forall b :: 0 <= b < index ==> hashtable.nodes[b] == []
          invariant hashtable.blocks <= old(hashtable.blocks)
          invariant hashtable.pool.asked == old(hashtable.pool.asked)
          invariant hashtable.pool.live == old(hashtable.pool.live) - old(hashtable.blocks) + hashtable.blocks
        {
          hashtable.FreeEntryAtIndex(index);
          index := (index + 1) % ULONG_LIMIT;
        }
        hashtable.OnlyTableIsLeft();
        if hashtable.entries != null {
          hashtable.pool.Free(hashtable.entries);
        }
        hashtable.pool.Free(hashtable);
      }
    }

    lemma OnlyTableIsLeft()
      requires Shape() && forall b :: 0 <= b < size ==> nodes[b] == []
      ensures blocks == {this, entries}
    {
      forall b | 0 <= b < size
        ensures owned[b] == {}
      {
        assert BucketOk(b);
        WholeChain(nodes[b], chains[b], b, owned[b]);
      }
    }

    /** The blocks of the first k buckets. */
    ghost function FirstBuckets(k: int): set<object>
      reads this
    {
      set o | o in blocks && 0 <= BucketOf(o) < k
    }

    lemma BucketCount(b: nat)
      requires Shape() && b < size
      ensures |owned[b]| == ChainWeight(chains[b])
    {
      assert BucketOk(b);
      WholeChain(nodes[b], chains[b], b, owned[b]);
      ChainBlockCount(nodes[b], chains[b], b, owned[b], |nodes[b]|);
      assert chains[b][..|nodes[b]|] == chains[b];
    }

    lemma OneBucketMore(b: nat)
      requires Shape() && b < size
      ensures FirstBuckets(b + 1) == FirstBuckets(b) + owned[b] && FirstBuckets(b) !! owned[b]
    {
      assert BucketOk(b);
      BlocksOfChain(nodes[b], chains[b], b, owned[b]);
    }

    lemma {:induction false} FirstBucketsCount(k: nat)
      requires Shape() && k <= size
      ensures |FirstBuckets(k)| == TableWeight(chains[..k])
    {
      if k == 0 {
        assert FirstBuckets(0) == {};
      } else {
        FirstBucketsCount(k - 1);
        OneBucketMore(k - 1);
        BucketCount(k - 1);
        assert chains[..k][..k - 1] == chains[..k - 1];
      }
    }

    lemma AllBuckets()
      requires Shape()
      ensures blocks == {this, entries} + FirstBuckets(size) && {this, entries} !! FirstBuckets(size)
    {
    }

    /**
     * No block is shared or lost: the table owns two blocks of its own and, for each pair, exactly a node,
     * a key and, when there is one, a value.
     */
    lemma BlockCount()
      requires Shape()
      ensures |blocks| == 2 + TableWeight(chains)
    {
      FirstBucketsCount(size);
      AllBuckets();
      assert chains[..size] == chains;
      assert |{this, entries}| == 2;
    }

    /**
     * HashTableRemove, as written: the match and every entry after it are freed. A match at the head or at
     * the end leaves an intact table; any other match leaves its predecessor pointing at a freed block.
     */
    method Remove(key: Ustr) returns (found: bool)
      requires Valid() && size > 0
      modifies pool`live, blocks
      ensures size == old(size)
      ensures found <==> Lookup(up, old(chains), key).Some?
      ensures var b := Bucket(key, size); var i := Find(up, old(chains[b]), key);
              pool.live == old(pool.live) - old(Between(owned[b], i, |nodes[b]|))
      ensures Drop(up, old(chains), key).Some? ==>
                && Valid() && blocks <= old(blocks)
                && chains == Drop(up, old(chains), key).value
                && (WellFormed(up, old(chains)) ==> WellFormed(up, chains))
                && pool.live == old(pool.live) - old(blocks) + blocks
      ensures Drop(up, old(chains), key).None? ==>
                var b := Bucket(key, size); var i := Find(up, old(chains[b]), key);
                && nodes == old(nodes) && chains == old(chains) && CutBehind(b, i)
                && nodes[b][i - 1] in pool.live
                && nodes[b][i - 1].next == nodes[b][i + 1] && nodes[b][i + 1] !in pool.live
    {
      var hashtableIndex := CalculateHash(key, size);
      found := RemoveInBucket(hashtableIndex, key);
      if WellFormed(up, old(chains)) {
        DropKeepsWellFormed(up, old(chains), key);
      }
    }

    /** The body of HashTableRemove below the hash. */
    method RemoveInBucket(hashtableIndex: nat, key: Ustr) returns (found: bool)
      requires Valid() && hashtableIndex < size
      modifies pool`live, blocks
      ensures var b := hashtableIndex; var i := Find(up, old(chains[b]), key);
              && size == old(size)
              && (found <==> i < |old(chains[b])|)
              && pool.live == old(pool.live) - old(Between(owned[b], i, |nodes[b]|))
              && (!LeavesDangling(up, old(chains[b]), key) ==>
                    && Valid() && blocks <= old(blocks)
                    && chains == old(chains)[b := DropChain(up, old(chains[b]), key)]
                    && pool.live == old(pool.live) - old(blocks) + blocks)
              && (LeavesDangling(up, old(chains[b]), key) ==>
                    && nodes == old(nodes) && chains == old(chains) && CutBehind(b, i)
                    && nodes[b][i - 1] in pool.live
                    && nodes[b][i - 1].next == nodes[b][i + 1] && nodes[b][i + 1] !in pool.live)
    {
      ghost var b := hashtableIndex;
      ghost var chain := chains[b];
      assert BucketOk(b);
      WholeChain(nodes[b], chain, b, owned[b]);
      var entry := entries[hashtableIndex];
      if entry != null {
        assert Holds(nodes[b], 0, chain[0], b, owned[b]);
        if Same(up, key, entry.key.text) {
          FreeEntryAtIndex(hashtableIndex);
          return true;
        } else {
          ghost var i := 1;
          while entry.next != null
            invariant 1 <= i <= |chain| && entry == nodes[b][i - 1]
            invariant forall j :: 0 <= j < i ==> !Same(up, key, chain[j].key)
            decreases |chain| - i
          {
            assert i < |chain| && entry.next == nodes[b][i] && Holds(nodes[b], i, chain[i], b, owned[b]) by {
              NextNode(b, i);
            }
            if Same(up, key, entry.next.key.text) {
              var next := entry.next.next;
              CutAfter(entry, next, b, i);
              return true;
            }
            entry := entry.next;
            i := i + 1;
          }
          LastNode(b, i);
        }
      }
      assert chain[..|chain|] == chain;
      return false;
    }

    /** An entry with a successor: the successor is the next node of the chain, and complete. */
    lemma NextNode(b: nat, i: nat)
      requires Shape() && b < size && 0 < i <= |nodes[b]| && nodes[b][i - 1].next != null
      ensures i < |nodes[b]| && nodes[b][i - 1].next == nodes[b][i]
      ensures Holds(nodes[b], i, chains[b][i], b, owned[b])
    {
      assert BucketOk(b) && Holds(nodes[b], i - 1, chains[b][i - 1], b, owned[b]);
    }

    lemma LastNode(b: nat, i: nat)
      requires Shape() && b < size && 0 < i <= |nodes[b]| && nodes[b][i - 1].next == null
      ensures i == |nodes[b]|
    {
      assert BucketOk(b) && Holds(nodes[b], i - 1, chains[b][i - 1], b, owned[b]);
    }

    /** Every other bucket is in order; this one is up to the next pointer of the entry in front of position i. */
    ghost predicate CutBehind(b: nat, i: nat)
      reads this, blocks
    {
      && ShapeExcept(b) && b < size && 0 < i <= |nodes[b]| == |chains[b]|
      && (forall e :: e in nodes[b] ==> e in blocks) && entries[b] == Head(nodes[b])
      && (forall j {:trigger Holds(nodes[b], j, chains[b][j], b, owned[b])} :: 0 <= j < i - 1 ==>
            Holds(nodes[b], j, chains[b][j], b, owned[b]))
      && Spells(nodes[b][i - 1], chains[b][i - 1])
    }

    /** Frees the successor of an entry with all that follows, then points the entry at what followed it. */
    method CutAfter(entry: HashTableEntry, next: HashTableEntry?, ghost b: nat, ghost i: nat)
      requires Valid() && b < size && 0 < i < |nodes[b]| && entry == nodes[b][i - 1]
      requires next == if i + 1 < |nodes[b]| then nodes[b][i + 1] else null
      modifies pool`live, blocks
      ensures size == old(size)
      ensures pool.live == old(pool.live) - old(Between(owned[b], i, |nodes[b]|))
      ensures next == null ==>
                && Valid() && blocks <= old(blocks)
                && chains == old(chains)[b := old(chains[b])[..i]]
                && pool.live == old(pool.live) - old(blocks) + blocks
      ensures next != null ==>
                && nodes == old(nodes) && chains == old(chains) && CutBehind(b, i)
                && entry.next == next
                && entry in pool.live && next !in pool.live
    {
      assert BucketOk(b) && Holds(nodes[b], i - 1, chains[b][i - 1], b, owned[b]);
      assert Holds(nodes[b], i, chains[b][i], b, owned[b]);
      Apart(b);
      FreeEntry(pool, entry.next, nodes[b], chains[b], b, owned[b], i);
      Relink(entry, next, nodes[b], chains[b], b, owned[b], i);
      forall c | 0 <= c < size && c != b
        ensures BucketOk(c)
      {
        assert old(BucketOk(c)) && Separate(c, b);
      }
      if next == null {
        Install(b, nodes[b][..i], chains[b][..i], owned[b] - Between(owned[b], i, |nodes[b]|));
      } else {
        assert old(Holds(nodes[b], i + 1, chains[b][i + 1], b, owned[b]));
      }
    }

    /** Whether HashTableRemove would leave the table intact: it frees a whole chain, the end of one, or nothing. */
    method RemovalIsIntact(key: Ustr) returns (intact: bool)
      requires Valid() && size > 0
      ensures intact <==> Drop(up, chains, key).Some?
    {
      var entry := GetEntryByKey(key);
      var hashtableIndex := CalculateHash(key, size);
      ghost var b := hashtableIndex;
      ghost var i := Find(up, chains[b], key);
      assert BucketOk(b);
      assert entry != null ==> Holds(nodes[b], i, chains[b][i], b, owned[b]);
      assert nodes[b] != [] ==> Holds(nodes[b], 0, chains[b][0], b, owned[b]);
      intact := entry == null || entry.next == null || entry == entries[hashtableIndex];
    }
  }
}
