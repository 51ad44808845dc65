/**
 * What the chained table computes, on values: one chain of key/value pairs per bucket.
 * The classes in HashTable.dfy are proved equal to these functions; TableRuns.dfy relates them to a map.
 */
module TableSpec {
  import opened Units
  import opened Hashing

  /** An entry's own spelling of its key, and its value (a NULL value is None). */
  datatype Pair = Pair(key: Ustr, value: Option<Ustr>)

  type Chain = seq<Pair>

  type Table = seq<Chain>

  /** The kernel's upcase table, one code unit at a time. */
  type CaseTable = unit -> unit

  /** RtlEqualUnicodeString(a, b, TRUE). */
  predicate Same(up: CaseTable, a: seq<unit>, b: seq<unit>) {
    |a| == |b| && forall i :: 0 <= i < |a| ==> up(a[i]) == up(b[i])
  }

  function Upcase(up: CaseTable, s: seq<unit>): (r: seq<unit>)
    ensures |r| == |s|
    ensures forall i :: 0 <= i < |s| ==> r[i] == up(s[i])
  {
    seq(|s|, i requires 0 <= i < |s| => up(s[i]))
  }

  lemma SameIffUpcaseEqual(up: CaseTable, a: seq<unit>, b: seq<unit>)
    ensures Same(up, a, b) <==> Upcase(up, a) == Upcase(up, b)
  {
    var x, y := Upcase(up, a), Upcase(up, b);
    if x == y {
      forall i | 0 <= i < |a|
        ensures up(a[i]) == up(b[i])
      {
        assert x[i] == y[i];
      }
    }
  }

  /** Position of the first pair with an equal key, or the chain's length. */
  function Find(up: CaseTable, chain: Chain, key: seq<unit>): (i: nat)
    ensures i <= |chain|
    ensures forall j :: 0 <= j < i ==> !Same(up, key, chain[j].key)
    ensures i < |chain| ==> Same(up, key, chain[i].key)
  {
    if chain == [] || Same(up, key, chain[0].key) then 0 else 1 + Find(up, chain[1..], key)
  }

  /** HashTableSet on one chain; oom tells whether an allocation failed. */
  function PutChain(up: CaseTable, chain: Chain, key: Ustr, value: Option<Ustr>, oom: bool): Chain {
    var i := Find(up, chain, key);
    if i < |chain| then
      chain[i := Pair(chain[i].key, if oom then None else value)]
    else if oom then
      chain
    else
      chain + [Pair(key, value)]
  }

  /** True when HashTableRemove leaves the chain pointing at a block it has just freed. */
  predicate LeavesDangling(up: CaseTable, chain: Chain, key: seq<unit>) {
    0 < Find(up, chain, key) < |chain| - 1
  }

  /** HashTableRemove on one chain: the matching entry and every entry after it are freed. */
  function DropChain(up: CaseTable, chain: Chain, key: seq<unit>): Chain {
    chain[..Find(up, chain, key)]
  }

  function Put(up: CaseTable, t: Table, key: Ustr, value: Option<Ustr>, oom: bool): (r: Table)
    requires 0 < |t| < ULONG_LIMIT
    ensures |r| == |t|
  {
    var b := Bucket(key, |t|);
    t[b := PutChain(up, t[b], key, value, oom)]
  }

  /** HashTableRemove. None when a chain is left dangling: nothing can be said of the table afterwards. */
  function Drop(up: CaseTable, t: Table, key: Ustr): (r: Option<Table>)
    requires 0 < |t| < ULONG_LIMIT
    ensures r.Some? ==> |r.value| == |t|
  {
    var b := Bucket(key, |t|);
    if LeavesDangling(up, t[b], key) then None else Some(t[b := DropChain(up, t[b], key)])
  }

  /** None: no entry. Some(None): an entry with a NULL value. */
  function Lookup(up: CaseTable, t: Table, key: Ustr): Option<Option<Ustr>>
    requires 0 < |t| < ULONG_LIMIT
  {
    var chain := t[Bucket(key, |t|)];
    var i := Find(up, chain, key);
    if i < |chain| then Some(chain[i].value) else None
  }

  predicate NoTwins(up: CaseTable, chain: Chain) {
    forall i, j :: 0 <= i < j < |chain| ==> !Same(up, chain[i].key, chain[j].key)
  }

  /** Every pair sits in the bucket of its own key, and no chain holds two equal keys. */
  ghost predicate WellFormed(up: CaseTable, t: Table) {
    && 0 < |t| < ULONG_LIMIT
    && (forall b, i :: 0 <= b < |t| && 0 <= i < |t[b]| ==> Bucket(t[b][i].key, |t|) == b)
    && (forall b :: 0 <= b < |t| ==> NoTwins(up, t[b]))
  }

  /** With no twins, any position holding an equal key is the one Find reports. */
  lemma FindIsUnique(up: CaseTable, chain: Chain, key: seq<unit>, i: nat)
    requires NoTwins(up, chain) && i < |chain| && Same(up, key, chain[i].key)
    ensures Find(up, chain, key) == i
  {
    var j := Find(up, chain, key);
    assert j <= i;
    if j < i {
      assert Same(up, chain[j].key, chain[i].key);
    }
  }

  /** Find decides membership up to Same, whatever the spelling. */
  lemma FindRespectsSame(up: CaseTable, chain: Chain, k: seq<unit>, l: seq<unit>)
    requires Same(up, k, l)
    ensures Find(up, chain, k) == Find(up, chain, l)
  {
    var i, j := Find(up, chain, k), Find(up, chain, l);
    assert i < |chain| ==> Same(up, l, chain[i].key);
    assert j < |chain| ==> Same(up, k, chain[j].key);
  }

  lemma SameJoins(up: CaseTable, key: seq<unit>, a: seq<unit>, b: seq<unit>)
    ensures Same(up, key, a) && Same(up, key, b) ==> Same(up, a, b)
  {
  }

  lemma DifferentKeysApart(up: CaseTable, chain: Chain, k: seq<unit>, l: seq<unit>)
    requires !Same(up, k, l) && Find(up, chain, k) < |chain|
    ensures Find(up, chain, l) != Find(up, chain, k)
  {
  }

  lemma PutChainKeepsNoTwins(up: CaseTable, chain: Chain, key: Ustr, value: Option<Ustr>, oom: bool)
    requires NoTwins(up, chain)
    ensures NoTwins(up, PutChain(up, chain, key, value, oom))
  {
    var r := PutChain(up, chain, key, value, oom);
    forall i, j | 0 <= i < j < |r|
      ensures !Same(up, r[i].key, r[j].key)
    {
      if j < |chain| {
        assert r[i].key == chain[i].key && r[j].key == chain[j].key;
      } else {
        assert r[i].key == chain[i].key && r[j].key == key;
        assert !Same(up, key, chain[i].key);
      }
    }
  }

  /** HashTableSet, every outcome of its allocations included, keeps the table well-formed. */
  lemma PutKeepsWellFormed(up: CaseTable, t: Table, key: Ustr, value: Option<Ustr>, oom: bool)
    requires WellFormed(up, t)
    ensures WellFormed(up, Put(up, t, key, value, oom))
  {
    var r: Table := Put(up, t, key, value, oom);
    var k := Bucket(key, |t|);
    PutChainKeepsNoTwins(up, t[k], key, value, oom);
    forall b: int, i: int | 0 <= b < |r| && 0 <= i < |r[b]|
      ensures Bucket(r[b][i].key, |r|) == b
    {
      if b == k && i == |t[b]| {
        assert r[b][i].key == key;
      } else {
        assert r[b][i].key == t[b][i].key;
      }
    }
  }

  lemma DropKeepsWellFormed(up: CaseTable, t: Table, key: Ustr)
    requires WellFormed(up, t)
    ensures Drop(up, t, key).Some? ==> WellFormed(up, Drop(up, t, key).value)
  {
    var d := Drop(up, t, key);
    if d.Some? {
      var k := Bucket(key, |t|);
      forall b: int, i: int | 0 <= b < |t| && 0 <= i < |d.value[b]|
        ensures Bucket(d.value[b][i].key, |t|) == b
      {
        assert d.value[b][i] == t[b][i];
      }
      forall b | 0 <= b < |t|
        ensures NoTwins(up, d.value[b])
      {
        assert NoTwins(up, t[b]);
      }
    }
  }

  /** The exact effect of HashTableSet on every later lookup, for every outcome of its allocations. */
  lemma LookupAfterPut(up: CaseTable, t: Table, key: Ustr, value: Option<Ustr>, oom: bool, other: Ustr)
    requires WellFormed(up, t)
    ensures Lookup(up, Put(up, t, key, value, oom), other) ==
            if !Same(up, key, other) || Bucket(key, |t|) != Bucket(other, |t|) then Lookup(up, t, other)
            else if !oom then Some(value)
            else if Lookup(up, t, key).Some? then Some(None)
            else None
  {
    PutKeepsWellFormed(up, t, key, value, oom);
    var r: Table := Put(up, t, key, value, oom);
    var b := Bucket(other, |t|);
    if Bucket(key, |t|) == b {
      var i := Find(up, t[b], key);
      var j := Find(up, t[b], other);
      if Same(up, key, other) {
        FindRespectsSame(up, t[b], key, other);
        FindRespectsSame(up, r[b], key, other);
        if i < |r[b]| {
          FindIsUnique(up, r[b], key, i);
        }
      } else {
        assert forall m :: 0 <= m < |t[b]| ==> r[b][m].key == t[b][m].key;
        if j < |t[b]| {
          assert Same(up, other, r[b][j].key);
          assert i != j;
          FindIsUnique(up, r[b], other, j);
        }
      }
    }
  }

  /**
   * The exact effect of HashTableRemove, when no chain is left dangling: every key stored at or after the
   * match in its bucket disappears, every other lookup is unchanged.
   */
  lemma LookupAfterDrop(up: CaseTable, t: Table, key: Ustr, other: Ustr)
    requires WellFormed(up, t) && Drop(up, t, key).Some?
    ensures Lookup(up, Drop(up, t, key).value, other) ==
            if Bucket(key, |t|) == Bucket(other, |t|) &&
               Find(up, t[Bucket(key, |t|)], key) <= Find(up, t[Bucket(key, |t|)], other)
            then None else Lookup(up, t, other)
  {
    var b := Bucket(other, |t|);
    var r := Drop(up, t, key).value;
    if Bucket(key, |t|) == b {
      var i := Find(up, t[b], key);
      var j := Find(up, t[b], other);
      assert r[b] == t[b][..i];
      if j < i {
        assert NoTwins(up, r[b]) by { assert NoTwins(up, t[b]); }
        FindIsUnique(up, r[b], other, j);
      }
    }
  }

  /** Removing the head of a chain empties its bucket and touches no other bucket. */
  lemma HeadRemovalEmptiesBucket(up: CaseTable, t: Table, key: Ustr, other: Ustr)
    requires WellFormed(up, t)
    requires t[Bucket(key, |t|)] != [] && Same(up, key, t[Bucket(key, |t|)][0].key)
    ensures Drop(up, t, key).Some?
    ensures Lookup(up, Drop(up, t, key).value, other) ==
            if Bucket(other, |t|) == Bucket(key, |t|) then None else Lookup(up, t, other)
  {
    FindIsUnique(up, t[Bucket(key, |t|)], key, 0);
    LookupAfterDrop(up, t, key, other);
  }

  /** The guard a caller can check beforehand: nothing matches, or the match has no next entry. */
  predicate MatchIsLastOrAbsent(up: CaseTable, t: Table, key: Ustr)
    requires 0 < |t| < ULONG_LIMIT
  {
    var chain := t[Bucket(key, |t|)];
    |chain| - 1 <= Find(up, chain, key)
  }

  /** HashTableRemove deletes its key and nothing else, for every later lookup. */
  ghost predicate DeletesExactly(up: CaseTable, t: Table, key: Ustr)
    requires 0 < |t| < ULONG_LIMIT
  {
    && Drop(up, t, key).Some?
    && forall other: Ustr ::
         Lookup(up, Drop(up, t, key).value, other) ==
         if Same(up, key, other) && Bucket(key, |t|) == Bucket(other, |t|) then None else Lookup(up, t, other)
  }

  /** HashTableRemove is map deletion if and only if the matching entry is absent or last in its chain. */
  lemma RemoveDeletesExactlyIff(up: CaseTable, t: Table, key: Ustr)
    requires WellFormed(up, t)
    ensures DeletesExactly(up, t, key) <==> MatchIsLastOrAbsent(up, t, key)
  {
    var b := Bucket(key, |t|);
    var i := Find(up, t[b], key);
    if MatchIsLastOrAbsent(up, t, key) {
      forall other: Ustr
        ensures Lookup(up, Drop(up, t, key).value, other) ==
                if Same(up, key, other) && b == Bucket(other, |t|) then None else Lookup(up, t, other)
      {
        LookupAfterDrop(up, t, key, other);
        if b == Bucket(other, |t|) {
          if Same(up, key, other) {
            FindRespectsSame(up, t[b], key, other);
          } else if i < |t[b]| {
            DifferentKeysApart(up, t[b], key, other);
          }
        }
      }
    } else if Drop(up, t, key).Some? {
      var victim := t[b][i + 1].key;
      assert Bucket(victim, |t|) == b;
      FindIsUnique(up, t[b], victim, i + 1);
      LookupAfterDrop(up, t, key, victim);
      assert NoTwins(up, t[b]);
      SameJoins(up, key, t[b][i].key, victim);
    }
  }

  /**
   * Keys compare case-insensitively but hash on raw units: a respelling of a key that the table did not
   * know is found after HashTableSet if and only if both spellings fall into one bucket.
   */
  lemma RespellingFoundIffSameBucket(up: CaseTable, t: Table, key: Ustr, value: Option<Ustr>, spelling: Ustr)
    requires WellFormed(up, t)
    requires Same(up, key, spelling) && Lookup(up, t, spelling) == None
    ensures Lookup(up, Put(up, t, key, value, false), spelling) == Some(value) <==>
            Bucket(key, |t|) == Bucket(spelling, |t|)
  {
    LookupAfterPut(up, t, key, value, false, spelling);
  }

  /** ASCII upcasing, enough to exhibit a respelling that is lost. */
  function AsciiUpcase(u: unit): (r: unit)
    ensures if 'a' as int <= u <= 'z' as int then r == 'A' as int + (u - 'a' as int) else r == u
  {
    if 97 <= u <= 122 then u - 32 else u
  }

  /** In a table of 1000 buckets, a value stored under "a" is not found under "A". */
  lemma RespellingLost()
    ensures
      var a: Ustr, upperA: Ustr, empty: Table := [97], [65], seq(1000, _ => []);
      && WellFormed(AsciiUpcase, empty)
      && Same(AsciiUpcase, a, upperA) && Bucket(a, 1000) == 670 && Bucket(upperA, 1000) == 638
      && Lookup(AsciiUpcase, Put(AsciiUpcase, empty, a, Some([1]), false), a) == Some(Some([1]))
      && Lookup(AsciiUpcase, Put(AsciiUpcase, empty, a, Some([1]), false), upperA) == None
  {
    var a: Ustr, upperA: Ustr, empty: Table := [97], [65], seq(1000, _ => []);
    SingleUnit([], 97);
    SingleUnit([], 65);
    assert [] + [97] == a && [] + [65] == upperA;
    assert Bucket(a, 1000) == 670 && Bucket(upperA, 1000) == 638;
    LookupAfterPut(AsciiUpcase, empty, a, Some([1]), false, a);
    LookupAfterPut(AsciiUpcase, empty, a, Some([1]), false, upperA);
  }

  /**
   * With one bucket and three keys, removing the head loses the two others and removing the middle one
   * leaves a dangling chain.
   */
  lemma RemovalLosesOtherKeys()
    ensures
      var a: Ustr, b: Ustr, c: Ustr := [97], [98], [99];
      var t: Table := [[Pair(a, None), Pair(b, None), Pair(c, None)]];
      && WellFormed(AsciiUpcase, t)
      && Drop(AsciiUpcase, t, a) == Some([[]])
      && Lookup(AsciiUpcase, t, c) == Some(None)
      && Drop(AsciiUpcase, t, b) == None
      && Drop(AsciiUpcase, t, c) == Some([[Pair(a, None), Pair(b, None)]])
  {
    var a: Ustr, b: Ustr, c: Ustr := [97], [98], [99];
    var t: Table := [[Pair(a, None), Pair(b, None), Pair(c, None)]];
    var chain := t[0];
    forall i, j | 0 <= i < j < |chain|
      ensures !Same(AsciiUpcase, chain[i].key, chain[j].key)
    {
      assert AsciiUpcase(chain[i].key[0]) != AsciiUpcase(chain[j].key[0]);
    }
    assert NoTwins(AsciiUpcase, chain);
    FindIsUnique(AsciiUpcase, chain, a, 0);
    FindIsUnique(AsciiUpcase, chain, b, 1);
    FindIsUnique(AsciiUpcase, chain, c, 2);
    assert Bucket(a, 1) == 0 && Bucket(b, 1) == 0 && Bucket(c, 1) == 0;
    assert chain[..0] == [] && chain[..2] == [Pair(a, None), Pair(b, None)];
    assert t[0 := []] == [[]] && t[0 := chain[..2]] == [chain[..2]];
  }
}
