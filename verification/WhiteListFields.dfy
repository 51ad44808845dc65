/** The fields of a whitelist message, defined without counters; the loop reads them until a counter wraps. */
module WhiteListFields {
  import opened Units
  import opened Wire
  import opened WhiteListLoop

  // ---------- the fields ----------

  /** The first index from t on that is past the count or holds a separator. */
  function NextStop(mem: Memory, n: nat, t: nat): (r: nat)
    ensures t <= r && (r <= n || r == t)
    ensures r >= n || IsSeparator(mem.At(r))
    ensures Quiet(mem, n, t, r)
    decreases n - t
  {
    if t >= n || IsSeparator(mem.At(t)) then t else NextStop(mem, n, t + 1)
  }

  /** The fields read from unit s on: each runs to the first stop behind its first unit, whatever that unit is. */
  function Fields(mem: Memory, n: nat, s: nat): (fields: seq<seq<unit>>)
    requires s <= n
    ensures fields != []
    decreases n - s
  {
    var t := NextStop(mem, n, s + 1);
    [Slice(mem, s, t)] + (if t < n && mem.At(t) == END_OF_BLOCK then Fields(mem, n, t + 1) else [])
  }

  /** The index at which the loop ends. */
  function End(mem: Memory, n: nat, s: nat): (e: nat)
    requires s <= n
    ensures s < e <= n + 1
    decreases n - s
  {
    var t := NextStop(mem, n, s + 1);
    if t < n && mem.At(t) == END_OF_BLOCK then End(mem, n, t + 1) else t
  }

  /** What an entry keeps of a field. */
  function Kept(field: seq<unit>): (r: Ustr)
    ensures |field| <= 32767 ==> r == field
  {
    field[..Copied(|field|)]
  }

  function KeptAll(fields: seq<seq<unit>>): (r: seq<Ustr>)
    ensures |r| == |fields| && forall i :: 0 <= i < |fields| ==> r[i] == Kept(fields[i])
  {
    seq(|fields|, i requires 0 <= i < |fields| => Kept(fields[i]))
  }

  /** The list handed to the callback: last field first. */
  function Parse(mem: Memory, n: nat): seq<Ustr> {
    Reverse(KeptAll(Fields(mem, n, 0)))
  }

  /** A field of at least one unit lies here; only its first unit may be a separator or lie past the count. */
  ghost predicate FieldAt(mem: Memory, n: nat, s: nat, field: seq<unit>) {
    && field != [] && field == Slice(mem, s, s + |field|)
    && (|field| > 1 ==> s + |field| <= n)
    && forall i :: 1 <= i < |field| ==> !IsSeparator(field[i])
  }

  /**
   * The fields lie one behind the other in memory from unit s on, with 0xFFFF between them; the last one ends at
   * a NUL or past the count.
   */
  ghost predicate LaidOut(mem: Memory, n: nat, s: nat, fields: seq<seq<unit>>)
    decreases fields
  {
    && fields != [] && FieldAt(mem, n, s, fields[0])
    && var t := s + |fields[0]|;
       if |fields| == 1 then t >= n || mem.At(t) == END_OF_DATA
       else t < n && mem.At(t) == END_OF_BLOCK && LaidOut(mem, n, t + 1, fields[1..])
  }

  lemma SliceIsField(mem: Memory, n: nat, s: nat, t: nat)
    requires s < t && Quiet(mem, n, s + 1, t)
    ensures FieldAt(mem, n, s, Slice(mem, s, t))
  {
    var field := Slice(mem, s, t);
    forall i | 1 <= i < |field|
      ensures !IsSeparator(field[i])
    {
      assert field[i] == mem.At(s + i);
    }
  }

  lemma {:induction false} FieldsAreLaidOut(mem: Memory, n: nat, s: nat)
    requires s <= n
    ensures LaidOut(mem, n, s, Fields(mem, n, s))
    decreases n - s
  {
    var t := NextStop(mem, n, s + 1);
    var fields := Fields(mem, n, s);
    SliceIsField(mem, n, s, t);
    assert fields[0] == Slice(mem, s, t);
    if t < n && mem.At(t) == END_OF_BLOCK {
      FieldsAreLaidOut(mem, n, t + 1);
      assert fields[1..] == Fields(mem, n, t + 1);
    }
  }

  lemma StopIsUnique(mem: Memory, n: nat, t: nat, u: nat)
    requires t <= u && (u >= n || IsSeparator(mem.At(u)))
    requires Quiet(mem, n, t, u)
    ensures NextStop(mem, n, t) == u
  {
  }

  lemma QuietField(mem: Memory, n: nat, s: nat, field: seq<unit>)
    requires FieldAt(mem, n, s, field)
    ensures Quiet(mem, n, s + 1, s + |field|)
  {
    forall j: nat | s + 1 <= j < s + |field|
      ensures !IsSeparator(mem.At(j))
    {
      var i := j - s;
      assert field[i] == mem.At(s + i);
    }
  }

  lemma {:induction false} LaidOutIsFields(mem: Memory, n: nat, s: nat, fields: seq<seq<unit>>)
    requires s <= n && LaidOut(mem, n, s, fields)
    ensures fields == Fields(mem, n, s)
    decreases fields
  {
    var u := s + |fields[0]|;
    QuietField(mem, n, s, fields[0]);
    StopIsUnique(mem, n, s + 1, u);
    if |fields| > 1 {
      LaidOutIsFields(mem, n, u + 1, fields[1..]);
      assert fields == [fields[0]] + fields[1..];
    } else {
      assert fields == [fields[0]];
    }
  }

  /** The layout determines the fields: it holds of what the parser reads and of nothing else. */
  lemma LaidOutIff(mem: Memory, n: nat, fields: seq<seq<unit>>)
    ensures LaidOut(mem, n, 0, fields) <==> fields == Fields(mem, n, 0)
  {
    FieldsAreLaidOut(mem, n, 0);
    if LaidOut(mem, n, 0, fields) {
      LaidOutIsFields(mem, n, 0, fields);
    }
  }

  lemma SliceAround(mem: Memory, s: nat, t: nat, e: nat)
    requires s <= t < e
    ensures Slice(mem, s, t) + [mem.At(t)] + Slice(mem, t + 1, e) == Slice(mem, s, e)
  {
  }

  /** Joined by 0xFFFF, the fields are the very units consumed. */
  lemma {:induction false} FieldsConsume(mem: Memory, n: nat, s: nat)
    requires s <= n
    ensures Join(Fields(mem, n, s)) == Slice(mem, s, End(mem, n, s))
    decreases n - s
  {
    var t := NextStop(mem, n, s + 1);
    var fields := Fields(mem, n, s);
    if t < n && mem.At(t) == END_OF_BLOCK {
      FieldsConsume(mem, n, t + 1);
      assert fields[1..] == Fields(mem, n, t + 1);
      SliceAround(mem, s, t, End(mem, n, t + 1));
    }
  }

  /** The units the parser looks at or copies all lie before this one. */
  function Reach(mem: Memory, n: nat): nat {
    var e := End(mem, n, 0);
    if e < n then e + 1 else e
  }

  lemma {:induction false} LaidOutFields(mem: Memory, n: nat, s: nat, fields: seq<seq<unit>>)
    requires LaidOut(mem, n, s, fields)
    ensures forall k :: 0 <= k < |fields| ==> fields[k] != []
    ensures forall k, i :: 0 <= k < |fields| && 1 <= i < |fields[k]| ==> !IsSeparator(fields[k][i])
    decreases fields
  {
    if |fields| <= 1 {
    } else {
      LaidOutFields(mem, n, s + |fields[0]| + 1, fields[1..]);
    }
  }

  // ---------- the loop reads the fields ----------

  /** Fields already turned into entries, and fields still to be read from sindex on. */
  ghost predicate Parsing(mem: Memory, n: nat, index: nat, sindex: nat, texts: seq<Ustr>) {
    && sindex <= n && sindex <= index <= n + 1
    && (index > sindex ==> NextStop(mem, n, sindex + 1) == NextStop(mem, n, index))
    && Reverse(texts) + KeptAll(Fields(mem, n, sindex)) == KeptAll(Fields(mem, n, 0))
    && End(mem, n, sindex) == End(mem, n, 0)
  }

  lemma ParsingStarts(mem: Memory, n: nat)
    ensures Parsing(mem, n, 0, 0, [])
  {
    var none: seq<Ustr> := [];
    assert Reverse(none) + KeptAll(Fields(mem, n, 0)) == KeptAll(Fields(mem, n, 0));
  }

  /** Until it has looked at the unit it ends on, the parser is before that unit. */
  lemma IndexWithinReach(mem: Memory, n: nat, index: nat, sindex: nat, texts: seq<Ustr>)
    requires Parsing(mem, n, index, sindex, texts)
    ensures index <= End(mem, n, 0)
    ensures index == End(mem, n, 0) ==> index > sindex && (index >= n || IsSeparator(mem.At(index)))
  {
    assert End(mem, n, sindex) >= NextStop(mem, n, sindex + 1);
  }

  /** Anywhere else the index moves on: at the first unit of a field, or at one that is no stop. */
  lemma IndexAdvances(mem: Memory, n: nat, index: nat, sindex: nat, texts: seq<Ustr>)
    requires Parsing(mem, n, index, sindex, texts)
    requires index == sindex || (index < n && !IsSeparator(mem.At(index)))
    ensures Parsing(mem, n, index + 1, sindex, texts)
  {
  }

  lemma ReverseCons(x: Ustr, s: seq<Ustr>)
    ensures Reverse([x] + s) == Reverse(s) + [x]
  {
    assert ([x] + s)[1..] == s;
  }

  lemma KeptAllCons(field: seq<unit>, rest: seq<seq<unit>>)
    ensures KeptAll([field] + rest) == [Kept(field)] + KeptAll(rest)
  {
  }

  /** At 0xFFFF inside the count, the units since sindex are a field and another one follows. */
  lemma FieldContinues(mem: Memory, n: nat, index: nat, sindex: nat, texts: seq<Ustr>)
    requires Parsing(mem, n, index, sindex, texts) && index > sindex
    requires index < n && mem.At(index) == END_OF_BLOCK
    ensures Parsing(mem, n, index + 1, index + 1, [Kept(Slice(mem, sindex, index))] + texts)
  {
    var field := Slice(mem, sindex, index);
    FieldsUnfold(mem, n, index, sindex);
    MoveField(texts, field, Fields(mem, n, index + 1));
  }

  lemma FieldsUnfold(mem: Memory, n: nat, index: nat, sindex: nat)
    requires sindex < index < n && mem.At(index) == END_OF_BLOCK
    requires NextStop(mem, n, sindex + 1) == NextStop(mem, n, index)
    ensures Fields(mem, n, sindex) == [Slice(mem, sindex, index)] + Fields(mem, n, index + 1)
    ensures End(mem, n, sindex) == End(mem, n, index + 1)
  {
  }

  lemma MoveField(texts: seq<Ustr>, field: seq<unit>, rest: seq<seq<unit>>)
    ensures Reverse([Kept(field)] + texts) + KeptAll(rest) == Reverse(texts) + KeptAll([field] + rest)
  {
    ReverseCons(Kept(field), texts);
    KeptAllCons(field, rest);
  }

  /** At any other stop, the units since sindex are the last field. */
  lemma LastField(mem: Memory, n: nat, index: nat, sindex: nat, texts: seq<Ustr>)
    requires Parsing(mem, n, index, sindex, texts) && index > sindex
    requires index >= n || mem.At(index) == END_OF_DATA
    ensures [Kept(Slice(mem, sindex, index))] + texts == Parse(mem, n) && index == End(mem, n, 0)
  {
    var field := Slice(mem, sindex, index);
    assert NextStop(mem, n, sindex + 1) == index;
    assert Fields(mem, n, sindex) == [field];
    assert KeptAll([field]) == [Kept(field)];
    ReverseCons(Kept(field), texts);
    ReverseTwice([Kept(field)] + texts);
  }

  /** While no counter has wrapped, the loop is reading the fields: after k turns it stands at unit k. */
  lemma {:induction false} FirstPass(mem: Memory, n: nat, k: nat) returns (sindex: nat, texts: seq<Ustr>)
    requires k <= End(mem, n, 0) && k < USHORT_LIMIT
    ensures sindex <= k && Parsing(mem, n, k, sindex, texts)
    ensures Turns(mem, n, k) == Going(Cursor(k, sindex, texts))
  {
    if k == 0 {
      ParsingStarts(mem, n);
      sindex, texts := 0, [];
    } else {
      var i := k - 1;
      var s, ts := FirstPass(mem, n, i);
      sindex, texts := NextUnit(mem, n, i, s, ts);
      OneMoreTurn(mem, n, k, Cursor(i, s, ts));
    }
  }

  /** One turn before the end of the parse. From unit 65535 a counter that moves on is back at 0. */
  lemma NextUnit(mem: Memory, n: nat, index: nat, sindex: nat, texts: seq<Ustr>)
    returns (sindex': nat, texts': seq<Ustr>)
    requires Parsing(mem, n, index, sindex, texts) && index < End(mem, n, 0) && index < USHORT_LIMIT
    ensures sindex' <= index + 1 && Parsing(mem, n, index + 1, sindex', texts')
    ensures if sindex' <= index then sindex' == sindex && texts' == texts
            else sindex < index < n && mem.At(index) == END_OF_BLOCK &&
                 texts' == [Kept(Slice(mem, sindex, index))] + texts
    ensures Turn(mem, n, Cursor(index, sindex, texts)) ==
            Going(if index + 1 < USHORT_LIMIT then Cursor(index + 1, sindex', texts')
                  else Cursor(0, if sindex' == USHORT_LIMIT then 0 else sindex', texts'))
  {
    if index == sindex || !Stops(mem, n, index) {
      IndexAdvances(mem, n, index, sindex, texts);
      return sindex, texts;
    }
    if index < n && mem.At(index) == END_OF_BLOCK {
      FieldContinues(mem, n, index, sindex, texts);
      KeptSlice(mem, sindex, index);
      return index + 1, [Kept(Slice(mem, sindex, index))] + texts;
    }
    LastField(mem, n, index, sindex, texts);
    assert false;
  }

  lemma KeptSlice(mem: Memory, s: nat, t: nat)
    requires s <= t
    ensures Kept(Slice(mem, s, t)) == Slice(mem, s, s + Copied(t - s))
  {
  }

  /** A parse that ends in front of unit 65536 is what the loop delivers. */
  lemma LoopReadsFields(mem: Memory, n: nat)
    requires End(mem, n, 0) < USHORT_LIMIT
    ensures Turns(mem, n, End(mem, n, 0) + 1) == Done(Parse(mem, n))
    ensures Delivers(mem, n, Parse(mem, n))
  {
    var e := End(mem, n, 0);
    var sindex, texts := FirstPass(mem, n, e);
    IndexWithinReach(mem, n, e, sindex, texts);
    LastTurn(mem, n, e, sindex, texts);
    OneMoreTurn(mem, n, e + 1, Cursor(e, sindex, texts));
  }

  lemma LastTurn(mem: Memory, n: nat, index: nat, sindex: nat, texts: seq<Ustr>)
    requires Parsing(mem, n, index, sindex, texts) && index == End(mem, n, 0) && index < USHORT_LIMIT
    ensures Turn(mem, n, Cursor(index, sindex, texts)) == Done(Parse(mem, n))
  {
    StopsAtEnd(mem, n, index, sindex, texts);
    LastField(mem, n, index, sindex, texts);
    KeptSlice(mem, sindex, index);
  }

  /** The stop at which the parse ends is not a 0xFFFF inside the count. */
  lemma StopsAtEnd(mem: Memory, n: nat, index: nat, sindex: nat, texts: seq<Ustr>)
    requires Parsing(mem, n, index, sindex, texts) && index == End(mem, n, 0)
    ensures index > sindex && (index >= n || mem.At(index) == END_OF_DATA)
  {
    IndexWithinReach(mem, n, index, sindex, texts);
    if index < n && mem.At(index) == END_OF_BLOCK {
      FieldContinues(mem, n, index, sindex, texts);
      assert false;
    }
  }

  /**
   * What the loop makes of arbitrary memory when it ends before its counters wrap: at least one field, none
   * empty, together exactly the units consumed; behind the first unit of a field there is no separator; one
   * unit past the count may be read.
   */
  lemma ParserOnAnyMemory(mem: Memory, n: nat)
    ensures var fields := Fields(mem, n, 0);
            && (End(mem, n, 0) < USHORT_LIMIT ==> Delivers(mem, n, Reverse(KeptAll(fields))))
            && fields != [] && (forall k :: 0 <= k < |fields| ==> fields[k] != [])
            && Join(fields) == Slice(mem, 0, End(mem, n, 0))
            && (forall k, i :: 0 <= k < |fields| && 1 <= i < |fields[k]| ==> !IsSeparator(fields[k][i]))
            && Reach(mem, n) <= n + 1
  {
    FieldsAreLaidOut(mem, n, 0);
    FieldsConsume(mem, n, 0);
    LaidOutFields(mem, n, 0, Fields(mem, n, 0));
    if End(mem, n, 0) < USHORT_LIMIT {
      LoopReadsFields(mem, n);
    }
  }

  /** No turn of a loop that ends before its counters wrap touches a unit behind the end of the parse. */
  lemma TouchedWithinReach(mem: Memory, n: nat, k: nat)
    requires End(mem, n, 0) < USHORT_LIMIT && Turns(mem, n, k).Going?
    ensures Touched(mem, n, Turns(mem, n, k).cursor) <= Reach(mem, n)
  {
    var e := End(mem, n, 0);
    LoopReadsFields(mem, n);
    if k > e {
      DoneStays(mem, n, e + 1, k);
    } else {
      var sindex, texts := FirstPass(mem, n, k);
    }
  }
}
