/**
 * What the loop of CommunicationSetWhiteList does once its USHORT index has wrapped around: on which memory it ends,
 * after how many turns, and with which list.
 */
module WhiteListWrap {
  import opened Units
  import opened WhiteListLoop
  import opened WhiteListFields

  // ---------- what decides, on values ----------

  /** Where the field starts that is still open when the index gets to the bound. */
  function OpenAt(mem: Memory, n: nat, s: nat, bound: nat): (start: nat)
    requires s <= n
    ensures s <= start && (s <= bound ==> start <= bound)
    decreases n - s
  {
    if s >= bound then s
    else
      var t := NextStop(mem, n, s + 1);
      if t < n && t < bound && mem.At(t) == END_OF_BLOCK then OpenAt(mem, n, t + 1, bound) else s
  }

  /** The fields in front of the bound; the last one is cut off there. */
  function FieldsTo(mem: Memory, n: nat, s: nat, bound: nat): seq<seq<unit>>
    requires s <= n
    decreases n - s
  {
    if s >= bound then []
    else
      var t := NextStop(mem, n, s + 1);
      if t < n && t < bound && mem.At(t) == END_OF_BLOCK then [Slice(mem, s, t)] + FieldsTo(mem, n, t + 1, bound)
      else [Slice(mem, s, bound)]
  }

  /** The first unit from i on that is not 0xFFFF, if there is one in front of the bound. */
  function FirstOther(mem: Memory, i: nat, bound: nat): (p: nat)
    requires i <= bound
    ensures i <= p <= bound && forall k :: i <= k < p ==> mem.At(k) == END_OF_BLOCK
    ensures p < bound ==> mem.At(p) != END_OF_BLOCK
    decreases bound - i
  {
    if i < bound && mem.At(i) == END_OF_BLOCK then FirstOther(mem, i + 1, bound) else i
  }

  /**
   * A field that began behind unit 0 is open when the index wraps, and the first unit other than 0xFFFF is NUL:
   * the loop stops there when it comes by again.
   */
  predicate EndsBehindWrap(mem: Memory, n: nat) {
    var p := FirstOther(mem, 0, USHORT_LIMIT);
    && 0 < OpenAt(mem, n, 0, USHORT_LIMIT) < USHORT_LIMIT
    && p < USHORT_LIMIT && mem.At(p) == END_OF_DATA
  }

  /** The memory on which the loop ends. */
  predicate Ends(mem: Memory, n: nat) {
    End(mem, n, 0) < USHORT_LIMIT || EndsBehindWrap(mem, n)
  }

  /** So many fields that are a single 0xFFFF. */
  function Delimiters(k: nat): (r: seq<Ustr>)
    ensures |r| == k && forall i :: 0 <= i < k ==> r[i] == [END_OF_BLOCK]
  {
    seq(k, _ => [END_OF_BLOCK])
  }

  /** The list the loop hands over where it ends. */
  function Delivered(mem: Memory, n: nat): seq<Ustr> {
    if End(mem, n, 0) < USHORT_LIMIT then Parse(mem, n)
    else
      Delimiters(FirstOther(mem, 0, USHORT_LIMIT) / 2) + Reverse(KeptAll(FieldsTo(mem, n, 0, USHORT_LIMIT)))
  }

  // ---------- up to the wrap ----------

  /** The entries made, and the field that began at sindex, are those in front of the bound. */
  ghost predicate Keeps(mem: Memory, n: nat, sindex: nat, texts: seq<Ustr>, bound: nat) {
    && sindex <= n
    && OpenAt(mem, n, sindex, bound) == OpenAt(mem, n, 0, bound)
    && Reverse(texts) + KeptAll(FieldsTo(mem, n, sindex, bound)) == KeptAll(FieldsTo(mem, n, 0, bound))
  }

  lemma KeepsFirst(mem: Memory, n: nat, bound: nat)
    ensures Keeps(mem, n, 0, [], bound)
  {
    var none: seq<Ustr> := [];
    assert Reverse(none) + KeptAll(FieldsTo(mem, n, 0, bound)) == KeptAll(FieldsTo(mem, n, 0, bound));
  }

  lemma KeepsNext(mem: Memory, n: nat, index: nat, sindex: nat, texts: seq<Ustr>, bound: nat)
    requires Keeps(mem, n, sindex, texts, bound) && sindex < index < n && index < bound
    requires NextStop(mem, n, sindex + 1) == NextStop(mem, n, index) && mem.At(index) == END_OF_BLOCK
    ensures Keeps(mem, n, index + 1, [Kept(Slice(mem, sindex, index))] + texts, bound)
  {
    assert NextStop(mem, n, index) == index;
    MoveField(texts, Slice(mem, sindex, index), FieldsTo(mem, n, index + 1, bound));
  }

  lemma {:induction false} UpToWrap(mem: Memory, n: nat, k: nat, bound: nat) returns (sindex: nat, texts: seq<Ustr>)
    requires k <= End(mem, n, 0) && k < bound == USHORT_LIMIT
    ensures sindex <= k && Parsing(mem, n, k, sindex, texts) && Keeps(mem, n, sindex, texts, bound)
    ensures Turns(mem, n, k) == Going(Cursor(k, sindex, texts))
  {
    if k == 0 {
      ParsingStarts(mem, n);
      KeepsFirst(mem, n, bound);
      sindex, texts := 0, [];
    } else {
      var i := k - 1;
      var s, ts := UpToWrap(mem, n, i, bound);
      sindex, texts := NextKept(mem, n, i, s, ts, bound);
      OneMoreTurn(mem, n, k, Cursor(i, s, ts));
    }
  }

  /** One turn in front of the bound, as in NextUnit. */
  lemma NextKept(mem: Memory, n: nat, index: nat, sindex: nat, texts: seq<Ustr>, bound: nat)
    returns (sindex': nat, texts': seq<Ustr>)
    requires Parsing(mem, n, index, sindex, texts) && Keeps(mem, n, sindex, texts, bound)
    requires index < End(mem, n, 0) && index < bound == USHORT_LIMIT
    ensures sindex' <= index + 1 && Parsing(mem, n, index + 1, sindex', texts')
    ensures Keeps(mem, n, sindex', texts', bound)
    ensures Turn(mem, n, Cursor(index, sindex, texts)) ==
            Going(if index + 1 < USHORT_LIMIT then Cursor(index + 1, sindex', texts')
                  else Cursor(0, if sindex' == USHORT_LIMIT then 0 else sindex', texts'))
  {
    sindex', texts' := NextUnit(mem, n, index, sindex, texts);
    if sindex' > index {
      KeepsNext(mem, n, index, sindex, texts, bound);
    }
  }

  /** The field that is open at the wrap ends at unit 0, copied as a whole. */
  function OpenField(mem: Memory, start: ushort): (field: Ustr) {
    Slice(mem, start, start + Copied(USHORT_LIMIT - start))
  }

  lemma AtBound(mem: Memory, n: nat, bound: nat) returns (sindex: nat, texts: seq<Ustr>)
    requires bound == USHORT_LIMIT <= End(mem, n, 0)
    ensures sindex <= bound && Parsing(mem, n, bound, sindex, texts) && Keeps(mem, n, sindex, texts, bound)
    ensures Turns(mem, n, bound) == Going(Cursor(0, if sindex == bound then 0 else sindex, texts))
  {
    var i := bound - 1;
    var s, ts := UpToWrap(mem, n, i, bound);
    sindex, texts := NextKept(mem, n, i, s, ts, bound);
    OneMoreTurn(mem, n, bound, Cursor(i, s, ts));
  }

  /** What the loop has when its index is back at 0. */
  lemma AtWrap(mem: Memory, n: nat, bound: nat) returns (texts: seq<Ustr>)
    requires bound == USHORT_LIMIT <= End(mem, n, 0)
    ensures var start := OpenAt(mem, n, 0, bound);
            && Turns(mem, n, bound) == Going(Cursor(0, if start == bound then 0 else start, texts))
            && (0 < start < bound ==>
                  [OpenField(mem, start)] + texts == Reverse(KeptAll(FieldsTo(mem, n, 0, bound))))
  {
    var sindex;
    sindex, texts := AtBound(mem, n, bound);
    StillOpen(mem, n, sindex, texts, bound);
  }

  lemma StillOpen(mem: Memory, n: nat, sindex: nat, texts: seq<Ustr>, bound: nat)
    requires bound == USHORT_LIMIT
    requires Parsing(mem, n, bound, sindex, texts) && Keeps(mem, n, sindex, texts, bound)
    ensures OpenAt(mem, n, 0, bound) == sindex
    ensures sindex < bound ==>
              [OpenField(mem, sindex)] + texts == Reverse(KeptAll(FieldsTo(mem, n, 0, bound)))
  {
    if sindex < bound {
      assert NextStop(mem, n, sindex + 1) >= bound;
      OnlyField(mem, n, sindex, bound);
      LastReversed(texts, OpenField(mem, sindex), KeptAll(FieldsTo(mem, n, 0, bound)));
    }
  }

  lemma OnlyField(mem: Memory, n: nat, s: nat, bound: nat)
    requires s < bound == USHORT_LIMIT && s <= n && NextStop(mem, n, s + 1) >= bound
    ensures OpenAt(mem, n, s, bound) == s && KeptAll(FieldsTo(mem, n, s, bound)) == [OpenField(mem, s)]
  {
    KeptSlice(mem, s, bound);
  }

  lemma LastReversed(texts: seq<Ustr>, last: Ustr, all: seq<Ustr>)
    requires Reverse(texts) + [last] == all
    ensures [last] + texts == Reverse(all)
  {
    ReverseCons(last, texts);
    ReverseTwice([last] + texts);
  }

  // ---------- over the leading 0xFFFF units ----------

  /** The loop goes on after k turns, with these counters. */
  ghost predicate Stands(mem: Memory, n: nat, k: nat, index: nat, sindex: nat) {
    && Turns(mem, n, k).Going?
    && Turns(mem, n, k).cursor.index == index && Turns(mem, n, k).cursor.sindex == sindex
  }

  ghost predicate AllBlocks(mem: Memory, p: nat) {
    forall i :: 0 <= i < p ==> mem.At(i) == END_OF_BLOCK
  }

  /** On its first pass the loop takes every second of them for a field. */
  lemma {:induction false} FirstWalk(mem: Memory, n: nat, p: nat)
    requires p < USHORT_LIMIT && p <= n && AllBlocks(mem, p)
    ensures Stands(mem, n, p, p, p - p % 2)
  {
    if p == 0 {
    } else {
      FirstWalk(mem, n, p - 1);
      var c := Turns(mem, n, p - 1).cursor;
      FirstStep(mem, n, p - 1, c);
      OneMoreTurn(mem, n, p, c);
    }
  }

  lemma FirstStep(mem: Memory, n: nat, p: nat, c: Cursor)
    requires c.index == p < n && p + 1 < USHORT_LIMIT && c.sindex == p - p % 2 && mem.At(p) == END_OF_BLOCK
    ensures var o := Turn(mem, n, c);
            o.Going? && o.cursor.index == p + 1 && o.cursor.sindex == (p + 1) - (p + 1) % 2
  {
  }

  /** Where the second pass stands at unit p, and what it has made of the units it took. */
  function SecondCursor(p: ushort, texts: seq<Ustr>): Cursor
    requires p > 0
  {
    Cursor(p, p - 1 + p % 2, Delimiters((p - 1) / 2) + texts)
  }

  lemma SecondStart(mem: Memory, n: nat, bound: nat, start: ushort, texts: seq<Ustr>)
    requires bound == USHORT_LIMIT && Turns(mem, n, bound) == Going(Cursor(0, start, texts)) && start > 0
    requires 0 < n && mem.At(0) == END_OF_BLOCK
    ensures Turns(mem, n, bound + 1) == Going(SecondCursor(1, [OpenField(mem, start)] + texts))
  {
    var made := [OpenField(mem, start)] + texts;
    GoOnAtBlock(mem, n, bound, Cursor(0, start, texts), OpenField(mem, start));
    assert Delimiters(0) + made == made;
  }

  /** On its second pass, after the field that was open, it takes the others. */
  lemma {:induction false} SecondWalk(mem: Memory, n: nat, p: nat, bound: nat, start: ushort, texts: seq<Ustr>)
    requires bound == USHORT_LIMIT && Turns(mem, n, bound) == Going(Cursor(0, start, texts)) && start > 0
    requires 0 < p < bound && p <= n && AllBlocks(mem, p)
    ensures Turns(mem, n, bound + p) == Going(SecondCursor(p, [OpenField(mem, start)] + texts))
  {
    if p == 1 {
      SecondStart(mem, n, bound, start, texts);
    } else {
      var q := p - 1;
      SecondWalk(mem, n, q, bound, start, texts);
      SecondStep(mem, n, q, [OpenField(mem, start)] + texts);
      OneMoreTurn(mem, n, bound + p, SecondCursor(q, [OpenField(mem, start)] + texts));
    }
  }

  lemma SecondStep(mem: Memory, n: nat, p: nat, texts: seq<Ustr>)
    requires 0 < p < USHORT_LIMIT - 1 && p < n && mem.At(p - 1) == mem.At(p) == END_OF_BLOCK
    ensures Turn(mem, n, SecondCursor(p, texts)) == Going(SecondCursor(p + 1, texts))
  {
    if p % 2 == 0 {
      assert Slice(mem, p - 1, p) == [END_OF_BLOCK];
      OneDelimiterMore(p, texts);
    }
  }

  lemma OneDelimiterMore(p: nat, texts: seq<Ustr>)
    requires p > 0 && p % 2 == 0
    ensures [[END_OF_BLOCK]] + (Delimiters((p - 1) / 2) + texts) == Delimiters(p / 2) + texts
  {
    assert [[END_OF_BLOCK]] + Delimiters((p - 1) / 2) == Delimiters(p / 2);
  }

  // ---------- where it ends, and where it does not ----------

  /** The loop has not ended, and a field is open, when its index gets back to 0. */
  ghost predicate WrapsOpen(mem: Memory, n: nat, bound: nat) {
    && bound == USHORT_LIMIT <= End(mem, n, 0)
    && 0 < OpenAt(mem, n, 0, bound) < bound
  }

  /** The loop cannot be closing a field when it reaches the bound for the first time. */
  lemma GoesOnBefore(mem: Memory, n: nat, k: nat, c: Cursor, bound: nat)
    requires bound == USHORT_LIMIT <= End(mem, n, 0)
    requires k < bound && Turns(mem, n, k) == Going(c)
    ensures Turn(mem, n, c).Going?
  {
    var texts := AtWrap(mem, n, bound);
    if Turn(mem, n, c).Done? {
      OneMoreTurn(mem, n, k + 1, c);
      NotYetDone(mem, n, bound, k + 1);
    }
  }

  /** If the first unit other than 0xFFFF is NUL, an even number of 0xFFFF units is in front of it. */
  lemma EvenAtNul(mem: Memory, n: nat, p: nat, bound: nat)
    requires bound == USHORT_LIMIT <= End(mem, n, 0)
    requires p < bound && AllBlocks(mem, p) && mem.At(p) == END_OF_DATA
    ensures p % 2 == 0
  {
    FirstWalk(mem, n, p);
    if p % 2 == 1 {
      TurnAtEnd(mem, n, Turns(mem, n, p).cursor);
      GoesOnBefore(mem, n, p, Turns(mem, n, p).cursor, bound);
    }
  }

  lemma EndsAtNul(mem: Memory, n: nat, p: nat, bound: nat) returns (k: nat)
    requires WrapsOpen(mem, n, bound)
    requires p < bound && AllBlocks(mem, p) && mem.At(p) == END_OF_DATA
    ensures k < 2 * bound
    ensures Turns(mem, n, k) == Done(Delimiters(p / 2) + Reverse(KeptAll(FieldsTo(mem, n, 0, bound))))
  {
    var texts := AtWrap(mem, n, bound);
    EvenAtNul(mem, n, p, bound);
    SecondPassEnds(mem, n, p, bound, OpenAt(mem, n, 0, bound), texts);
    k := bound + p + 1;
  }

  lemma SecondPassEnds(mem: Memory, n: nat, p: nat, bound: nat, start: ushort, texts: seq<Ustr>)
    requires bound == USHORT_LIMIT && Turns(mem, n, bound) == Going(Cursor(0, start, texts)) && start > 0
    requires p < bound && p <= n && p % 2 == 0 && AllBlocks(mem, p) && mem.At(p) == END_OF_DATA
    ensures Turns(mem, n, bound + p + 1) == Done(Delimiters(p / 2) + ([OpenField(mem, start)] + texts))
  {
    var made := [OpenField(mem, start)] + texts;
    if p == 0 {
      TurnAtEnd(mem, n, Cursor(0, start, texts));
      OneMoreTurn(mem, n, bound + 1, Cursor(0, start, texts));
      assert Delimiters(0) + made == made;
    } else {
      SecondWalk(mem, n, p, bound, start, texts);
      LastStep(mem, n, p, made);
      OneMoreTurn(mem, n, bound + p + 1, SecondCursor(p, made));
    }
  }

  lemma LastStep(mem: Memory, n: nat, p: nat, texts: seq<Ustr>)
    requires 0 < p < USHORT_LIMIT && p % 2 == 0 && mem.At(p - 1) == END_OF_BLOCK && mem.At(p) == END_OF_DATA
    ensures Turn(mem, n, SecondCursor(p, texts)) == Done(Delimiters(p / 2) + texts)
  {
    TurnAtEnd(mem, n, SecondCursor(p, texts));
    assert Slice(mem, p - 1, p) == [END_OF_BLOCK];
    OneDelimiterMore(p, texts);
  }

  /** Within the first 65535 units there is one other than 0xFFFF, or the loop stands between two fields at the wrap. */
  lemma OtherInCount(mem: Memory, n: nat, bound: nat)
    requires WrapsOpen(mem, n, bound)
    ensures FirstOther(mem, 0, bound) < n && FirstOther(mem, 0, bound) < bound
  {
    var p, last := FirstOther(mem, 0, bound), bound - 1;
    if p >= last {
      var texts := AtWrap(mem, n, bound);
      FirstWalk(mem, n, last);
      var c := Turns(mem, n, last).cursor;
      GoesOnBefore(mem, n, last, c, bound);
      OneMoreTurn(mem, n, bound, c);
    }
  }

  /** Where the first unit other than 0xFFFF is no separator, both passes close a field at the next stop. */
  lemma MeetsAtStop(mem: Memory, n: nat, p: nat, i: nat, bound: nat)
    requires WrapsOpen(mem, n, bound) && p < n && AllBlocks(mem, p)
    requires p < i < bound && i == NextStop(mem, n, p)
    ensures Again(mem, n, i + 1, bound + i + 1)
  {
    FirstCloses(mem, n, p, i, bound);
    SecondCloses(mem, n, p, i, bound);
  }

  lemma FirstCloses(mem: Memory, n: nat, p: nat, i: nat, bound: nat)
    requires WrapsOpen(mem, n, bound) && p < n && AllBlocks(mem, p)
    requires p < i < bound && i == NextStop(mem, n, p)
    ensures Stands(mem, n, i + 1, Next(i), Next(i)) && i < n && mem.At(i) == END_OF_BLOCK
  {
    FirstWalk(mem, n, p);
    var c := Turns(mem, n, p).cursor;
    var d := Cursor(i, c.sindex, c.texts);
    Scan(mem, n, p, p, i, c.sindex, c.texts);
    GoesOnBefore(mem, n, i, d, bound);
    ClosesField(mem, n, i, d);
  }

  lemma SecondCloses(mem: Memory, n: nat, p: nat, i: nat, bound: nat)
    requires WrapsOpen(mem, n, bound) && p < n && AllBlocks(mem, p)
    requires p < i < bound && i == NextStop(mem, n, p) && i < n && mem.At(i) == END_OF_BLOCK
    ensures Stands(mem, n, bound + i + 1, Next(i), Next(i))
  {
    var start := OpenAt(mem, n, 0, bound);
    var texts := AtWrap(mem, n, bound);
    if p == 0 {
      OpensBehind(mem, n, i, bound);
      ScanAndClose(mem, n, bound, Cursor(0, start, texts), i);
    } else {
      ClosesBehindBlocks(mem, n, p, i, bound, start, texts);
    }
  }

  lemma ClosesBehindBlocks(
      mem: Memory, n: nat, p: nat, i: nat, bound: nat, start: ushort, texts: seq<Ustr>)
    requires bound == USHORT_LIMIT && Turns(mem, n, bound) == Going(Cursor(0, start, texts)) && start > 0
    requires 0 < p < i < bound && i < n && AllBlocks(mem, p) && Quiet(mem, n, p, i) && mem.At(i) == END_OF_BLOCK
    ensures Stands(mem, n, bound + i + 1, Next(i), Next(i))
  {
    var c := SecondCursor(p, [OpenField(mem, start)] + texts);
    SecondWalk(mem, n, p, bound, start, texts);
    ScanAndClose(mem, n, bound + p, c, i);
  }

  lemma OpensBehind(mem: Memory, n: nat, i: nat, bound: nat)
    requires 0 < i == NextStop(mem, n, 0) && i < n && i < bound && mem.At(i) == END_OF_BLOCK
    ensures OpenAt(mem, n, 0, bound) > i
  {
    assert i == NextStop(mem, n, 1);
  }

  lemma ScanAndClose(mem: Memory, n: nat, k: nat, c: Cursor, i: ushort)
    requires Turns(mem, n, k) == Going(c) && c.index <= i != c.sindex && Quiet(mem, n, c.index, i)
    requires i < n && mem.At(i) == END_OF_BLOCK
    ensures Stands(mem, n, k + (i - c.index) + 1, Next(i), Next(i))
  {
    Scan(mem, n, k, c.index, i, c.sindex, c.texts);
    ClosesField(mem, n, k + (i - c.index), Cursor(i, c.sindex, c.texts));
  }

  lemma ClosesField(mem: Memory, n: nat, k: nat, c: Cursor)
    requires Turns(mem, n, k) == Going(c) && c.index != c.sindex
    requires c.index < n && mem.At(c.index) == END_OF_BLOCK
    ensures Stands(mem, n, k + 1, Next(c.index), Next(c.index))
  {
    OneMoreTurn(mem, n, k + 1, c);
  }

  /** Where no stop follows it in front of the bound, at least two units 0xFFFF precede it. */
  lemma OpenBehindBlocks(mem: Memory, n: nat, p: nat, bound: nat)
    requires WrapsOpen(mem, n, bound) && p < n && p < bound && AllBlocks(mem, p)
    requires NextStop(mem, n, p) >= bound
    ensures p >= 2
  {
    var texts := AtWrap(mem, n, bound);
    FirstWalk(mem, n, p);
    PastBound(mem, n, p, p, bound, Turns(mem, n, p).cursor);
  }

  /** The second pass then wraps as well, and closes a field at unit 0 for the second time. */
  lemma MeetsAtOne(mem: Memory, n: nat, p: nat, bound: nat)
    requires WrapsOpen(mem, n, bound) && p < n && 2 <= p < bound && AllBlocks(mem, p)
    requires NextStop(mem, n, p) >= bound
    ensures Again(mem, n, bound + 1, 2 * bound + 1)
  {
    var start := OpenAt(mem, n, 0, bound);
    var texts := AtWrap(mem, n, bound);
    SecondStart(mem, n, bound, start, texts);
    ThirdAtOne(mem, n, p, bound, start, texts);
  }

  lemma ThirdAtOne(mem: Memory, n: nat, p: nat, bound: nat, start: ushort, texts: seq<Ustr>)
    requires bound == USHORT_LIMIT && Turns(mem, n, bound) == Going(Cursor(0, start, texts)) && start > 0
    requires 2 <= p < bound && p < n && AllBlocks(mem, p) && NextStop(mem, n, p) >= bound
    ensures Stands(mem, n, 2 * bound + 1, 1, 1)
  {
    SecondWalk(mem, n, p, bound, start, texts);
    ThirdStart(mem, n, bound + p, p, bound, SecondCursor(p, [OpenField(mem, start)] + texts));
  }

  lemma ThirdStart(mem: Memory, n: nat, k: nat, p: nat, bound: nat, c: Cursor)
    requires bound == USHORT_LIMIT && p < bound && Turns(mem, n, k) == Going(c) && c.index == p && c.sindex > 0
    requires NextStop(mem, n, p) >= bound && 0 < n && mem.At(0) == END_OF_BLOCK
    ensures Stands(mem, n, k + (bound - p) + 1, 1, 1)
  {
    PastBound(mem, n, k, p, bound, c);
    ClosesField(mem, n, k + (bound - p), Cursor(0, c.sindex, c.texts));
  }

  lemma PastBound(mem: Memory, n: nat, k: nat, p: nat, bound: nat, c: Cursor)
    requires bound == USHORT_LIMIT && p < bound && Turns(mem, n, k) == Going(c) && c.index == p
    requires NextStop(mem, n, p) >= bound
    ensures Turns(mem, n, k + (bound - p)) == Going(Cursor(0, c.sindex, c.texts))
  {
    var last := bound - 1;
    assert Quiet(mem, n, p, last) && !Stops(mem, n, last);
    Scan(mem, n, k, p, last, c.sindex, c.texts);
    OneMoreTurn(mem, n, k + (bound - p), Cursor(last, c.sindex, c.texts));
  }

  lemma NeverEnds(mem: Memory, n: nat, bound: nat, k: nat)
    requires bound == USHORT_LIMIT && !Ends(mem, n)
    ensures Turns(mem, n, k).Going?
  {
    var start := OpenAt(mem, n, 0, bound);
    if start == 0 || start == bound {
      var texts := AtWrap(mem, n, bound);
      CycleNeverEnds(mem, n, 0, bound, k);
    } else {
      OtherInCount(mem, n, bound);
      var p := FirstOther(mem, 0, bound);
      var i := NextStop(mem, n, p);
      if i < bound {
        MeetsAtStop(mem, n, p, i, bound);
        CycleNeverEnds(mem, n, i + 1, bound + i + 1, k);
      } else {
        OpenBehindBlocks(mem, n, p, bound);
        MeetsAtOne(mem, n, p, bound);
        CycleNeverEnds(mem, n, bound + 1, 2 * bound + 1, k);
      }
    }
  }

  /** On the memory it ends on, the loop makes fewer than 2^17 turns. */
  lemma LoopEnds(mem: Memory, n: nat) returns (k: nat)
    requires Ends(mem, n)
    ensures k < 2 * USHORT_LIMIT && Turns(mem, n, k) == Done(Delivered(mem, n))
  {
    if End(mem, n, 0) < USHORT_LIMIT {
      LoopReadsFields(mem, n);
      k := End(mem, n, 0) + 1;
    } else {
      k := EndsAtNul(mem, n, FirstOther(mem, 0, USHORT_LIMIT), USHORT_LIMIT);
    }
  }

  /** The loop ends within 131071 turns, on exactly this memory. */
  lemma EndsIff(mem: Memory, n: nat, k: nat)
    requires k >= 2 * USHORT_LIMIT - 1
    ensures Turns(mem, n, k).Done? <==> Ends(mem, n)
  {
    if Ends(mem, n) {
      var m := LoopEnds(mem, n);
      DoneStays(mem, n, m, k);
    } else {
      NeverEnds(mem, n, USHORT_LIMIT, k);
    }
  }

  /** What the loop hands over, if anything, as a function of memory. */
  lemma DeliversIff(mem: Memory, n: nat, texts: seq<Ustr>)
    ensures Delivers(mem, n, texts) <==> Ends(mem, n) && texts == Delivered(mem, n)
  {
    if Ends(mem, n) {
      var k := LoopEnds(mem, n);
      assert Delivers(mem, n, Delivered(mem, n));
      if Delivers(mem, n, texts) {
        DeliversOnce(mem, n, texts, Delivered(mem, n));
      }
    } else if Delivers(mem, n, texts) {
      var k: nat :| Turns(mem, n, k) == Done(texts);
      NeverEnds(mem, n, USHORT_LIMIT, k);
    }
  }
}
