/**
 * The loop of CommunicationSetWhiteList, turn by turn. Its counters are USHORTs, which wrap around, and it compares
 * a unit index with a byte count.
 */
module WhiteListLoop {
  import opened Units

  /** What the driver finds at ptr[i], inside the message or behind it. */
  datatype Memory = Memory(read: nat -> unit) {
    function At(i: nat): unit {
      read(i)
    }
  }

  function Slice(mem: Memory, lo: nat, hi: nat): (s: seq<unit>)
    requires lo <= hi
    ensures |s| == hi - lo && forall i :: 0 <= i < hi - lo ==> s[i] == mem.At(lo + i)
  {
    seq<unit>(hi - lo, i requires 0 <= i < hi - lo => mem.At(lo + i))
  }

  // ---------- the loop ----------

  type ushort = n: int | 0 <= n < USHORT_LIMIT

  /** The two counters of the loop, and the list built so far, head first. */
  datatype Cursor = Cursor(index: ushort, sindex: ushort, texts: seq<Ustr>)

  datatype Outcome =
    | Going(cursor: Cursor)
    | Done(texts: seq<Ustr>)

  /** index + 1, in a USHORT. */
  function Next(index: ushort): (next: ushort)
    ensures next == if index + 1 == USHORT_LIMIT then 0 else index + 1
  {
    (index + 1) % USHORT_LIMIT
  }

  /** index - sindex, in a USHORT. */
  function Length(index: ushort, sindex: ushort): (len: ushort)
    ensures len == if sindex <= index then index - sindex else index - sindex + USHORT_LIMIT
  {
    (index - sindex) % USHORT_LIMIT
  }

  /** How many of len units an entry gets: their size in bytes goes through a USHORT. */
  function Copied(len: nat): (k: nat)
    ensures k <= 32767 && (len <= 32767 ==> k == len)
  {
    2 * len % USHORT_LIMIT / 2
  }

  /** The loop has reached the end of a field, if there is one. */
  predicate Stops(mem: Memory, n: nat, index: nat) {
    index >= n || IsSeparator(mem.At(index))
  }

  /** One turn of the loop: both counters, and the length they give, are USHORTs. */
  function Turn(mem: Memory, n: nat, c: Cursor): Outcome {
    var len, next := Length(c.index, c.sindex), Next(c.index);
    if Stops(mem, n, c.index) && len > 0 then
      var texts := [Slice(mem, c.sindex, c.sindex + Copied(len))] + c.texts;
      if c.index < n && mem.At(c.index) == END_OF_BLOCK then Going(Cursor(next, next, texts)) else Done(texts)
    else
      Going(Cursor(next, c.sindex, c.texts))
  }

  /** The state after k turns; a loop that has ended stays as it is. */
  function Turns(mem: Memory, n: nat, k: nat): Outcome {
    if k == 0 then Going(Cursor(0, 0, []))
    else
      match Turns(mem, n, k - 1)
      case Going(c) => Turn(mem, n, c)
      case Done(texts) => Done(texts)
  }

  /** The loop ends, and hands this list to the callback. */
  ghost predicate Delivers(mem: Memory, n: nat, texts: seq<Ustr>) {
    exists k: nat :: Turns(mem, n, k) == Done(texts)
  }

  lemma {:induction false} DoneStays(mem: Memory, n: nat, k: nat, m: nat)
    requires k <= m && Turns(mem, n, k).Done?
    ensures Turns(mem, n, m) == Turns(mem, n, k)
  {
    if k == m {
    } else {
      DoneStays(mem, n, k, m - 1);
    }
  }

  lemma DeliversOnce(mem: Memory, n: nat, a: seq<Ustr>, b: seq<Ustr>)
    requires Delivers(mem, n, a) && Delivers(mem, n, b)
    ensures a == b
  {
    var k: nat :| Turns(mem, n, k) == Done(a);
    var m: nat :| Turns(mem, n, m) == Done(b);
    if k <= m {
      DoneStays(mem, n, k, m);
    } else {
      DoneStays(mem, n, m, k);
    }
  }

  lemma OneMoreTurn(mem: Memory, n: nat, k: nat, c: Cursor)
    requires k > 0 && Turns(mem, n, k - 1) == Going(c)
    ensures Turns(mem, n, k) == Turn(mem, n, c)
  {
  }

  /** The first unit behind all those that one turn looks at or copies. */
  function Touched(mem: Memory, n: nat, c: Cursor): nat {
    var looked := if c.index < n then c.index + 1 else 0;
    var len := Length(c.index, c.sindex);
    var copied := if Stops(mem, n, c.index) && len > 0 then c.sindex + Copied(len) else 0;
    if looked < copied then copied else looked
  }

  // ---------- from stop to stop ----------

  /** Between lo and hi the parser sees no stop. */
  ghost predicate Quiet(mem: Memory, n: nat, lo: nat, hi: nat) {
    && (lo < hi ==> hi <= n)
    && forall i :: lo <= i < hi ==> !IsSeparator(mem.At(i))
  }

  lemma TurnAtEnd(mem: Memory, n: nat, c: Cursor)
    requires (c.index >= n || mem.At(c.index) == END_OF_DATA) && c.index != c.sindex
    ensures Turn(mem, n, c) == Done([Slice(mem, c.sindex, c.sindex + Copied(Length(c.index, c.sindex)))] + c.texts)
  {
  }

  /** With no NUL in reach of a USHORT index, and the count out of its reach, the loop never ends. */
  lemma {:induction false} NoNulNeverEnds(mem: Memory, n: nat, k: nat)
    requires n >= USHORT_LIMIT && forall i: nat :: i < USHORT_LIMIT ==> mem.At(i) != END_OF_DATA
    ensures Turns(mem, n, k).Going?
  {
    if k == 0 {
    } else {
      NoNulNeverEnds(mem, n, k - 1);
    }
  }

  /** Between two stops the index just moves on. */
  lemma {:induction false} Scan(mem: Memory, n: nat, k: nat, i: ushort, j: ushort, s: ushort, texts: seq<Ustr>)
    requires Turns(mem, n, k) == Going(Cursor(i, s, texts)) && i <= j && Quiet(mem, n, i, j)
    ensures Turns(mem, n, k + (j - i)) == Going(Cursor(j, s, texts))
    decreases j - i
  {
    if i == j {
    } else {
      assert !Stops(mem, n, i);
      OneMoreTurn(mem, n, k + 1, Cursor(i, s, texts));
      Scan(mem, n, k + 1, i + 1, j, s, texts);
    }
  }

  /** After a turns and after b turns the loop goes on with the same counters. */
  ghost predicate Again(mem: Memory, n: nat, a: nat, b: nat) {
    && Turns(mem, n, a).Going? && Turns(mem, n, b).Going?
    && Turns(mem, n, a).cursor.index == Turns(mem, n, b).cursor.index
    && Turns(mem, n, a).cursor.sindex == Turns(mem, n, b).cursor.sindex
  }

  datatype Counters = Counters(index: ushort, sindex: ushort)

  /** What a turn does to the counters does not depend on the list. */
  function Steer(mem: Memory, n: nat, c: Counters): Option<Counters> {
    if !Stops(mem, n, c.index) || c.index == c.sindex then Some(Counters(Next(c.index), c.sindex))
    else if c.index < n && mem.At(c.index) == END_OF_BLOCK then Some(Counters(Next(c.index), Next(c.index)))
    else None
  }

  /** The counters after k turns, None once the loop has ended. */
  function Steers(mem: Memory, n: nat, k: nat): Option<Counters> {
    if k == 0 then Some(Counters(0, 0))
    else
      match Steers(mem, n, k - 1)
      case Some(c) => Steer(mem, n, c)
      case None => None
  }

  lemma {:induction false} TurnsSteer(mem: Memory, n: nat, k: nat)
    ensures Steers(mem, n, k) ==
            match Turns(mem, n, k) { case Going(c) => Some(Counters(c.index, c.sindex)) case Done(_) => None }
  {
    if k == 0 {
    } else {
      TurnsSteer(mem, n, k - 1);
    }
  }

  lemma {:induction false} SteersAlike(mem: Memory, n: nat, a: nat, b: nat, j: nat)
    requires Steers(mem, n, a) == Steers(mem, n, b)
    ensures Steers(mem, n, a + j) == Steers(mem, n, b + j)
  {
    if j == 0 {
    } else {
      SteersAlike(mem, n, a, b, j - 1);
    }
  }

  lemma {:induction false} SteersOn(mem: Memory, n: nat, k: nat, b: nat)
    requires k <= b && Steers(mem, n, b).Some?
    ensures Steers(mem, n, k).Some?
  {
    if k == b {
    } else {
      SteersOn(mem, n, k, b - 1);
    }
  }

  lemma {:induction false} SteersForEver(mem: Memory, n: nat, a: nat, b: nat, k: nat)
    requires a < b && Steers(mem, n, a) == Steers(mem, n, b) && Steers(mem, n, b).Some?
    ensures Steers(mem, n, k).Some?
    decreases k
  {
    if k <= b {
      SteersOn(mem, n, k, b);
    } else {
      SteersForEver(mem, n, a, b, a + (k - b));
      SteersAlike(mem, n, a, b, k - b);
    }
  }

  /** A loop that comes back to the same two counters never ends. */
  lemma CycleNeverEnds(mem: Memory, n: nat, a: nat, b: nat, k: nat)
    requires a < b && Again(mem, n, a, b)
    ensures Turns(mem, n, k).Going?
  {
    TurnsSteer(mem, n, a);
    TurnsSteer(mem, n, b);
    TurnsSteer(mem, n, k);
    SteersForEver(mem, n, a, b, k);
  }

  /** The entries made so far. */
  function Entries(o: Outcome): seq<Ustr> {
    match o
    case Going(c) => c.texts
    case Done(texts) => texts
  }

  /** Entries are only ever added. */
  lemma {:induction false} EntriesGrow(mem: Memory, n: nat, k: nat, m: nat)
    requires k <= m
    ensures |Entries(Turns(mem, n, k))| <= |Entries(Turns(mem, n, m))|
  {
    if k == m {
    } else {
      EntriesGrow(mem, n, k, m - 1);
    }
  }

  lemma GoOnAtBlock(mem: Memory, n: nat, k: nat, c: Cursor, field: Ustr)
    requires Turns(mem, n, k) == Going(c)
    requires c.index < n && mem.At(c.index) == END_OF_BLOCK && c.index != c.sindex
    requires field == Slice(mem, c.sindex, c.sindex + Copied(Length(c.index, c.sindex)))
    ensures Turns(mem, n, k + 1) == Going(Cursor(Next(c.index), Next(c.index), [field] + c.texts))
  {
    OneMoreTurn(mem, n, k + 1, c);
  }

  lemma NotYetDone(mem: Memory, n: nat, k: nat, m: nat)
    requires Turns(mem, n, k).Going? && Turns(mem, n, m).Done?
    ensures k < m
  {
    if m <= k {
      DoneStays(mem, n, m, k);
    }
  }

  // ---------- how long it runs ----------

  lemma {:induction false} BelowCount(s: set<nat>, n: nat)
    requires forall x :: x in s ==> x < n
    ensures |s| <= n
  {
    if n == 0 {
      assert s == {};
    } else {
      BelowCount(s - {n - 1}, n - 1);
    }
  }

  /** A field began at this unit within the first k turns. */
  ghost predicate BeganAt(mem: Memory, n: nat, k: nat, start: nat) {
    exists j :: 0 <= j <= k && Turns(mem, n, j).Going? &&
      Turns(mem, n, j).cursor.index == start == Turns(mem, n, j).cursor.sindex
  }

  /** In a loop that ends, no two fields begin at the same unit. */
  lemma {:induction false} FieldsBegun(mem: Memory, n: nat, k: nat, m: nat) returns (starts: set<nat>)
    requires Turns(mem, n, m).Done? && Turns(mem, n, k).Going?
    ensures |starts| == |Turns(mem, n, k).cursor.texts|
    ensures forall start :: start in starts ==> start < USHORT_LIMIT && BeganAt(mem, n, k, start)
  {
    if k == 0 {
      starts := {};
    } else {
      var before := Turns(mem, n, k - 1).cursor;
      var after := Turns(mem, n, k).cursor;
      OneMoreTurn(mem, n, k, before);
      starts := FieldsBegun(mem, n, k - 1, m);
      if after.texts != before.texts {
        if after.sindex in starts {
          var j :| 0 <= j <= k - 1 && Turns(mem, n, j).Going? &&
            Turns(mem, n, j).cursor.index == after.sindex == Turns(mem, n, j).cursor.sindex;
          CycleNeverEnds(mem, n, j, k, m);
        }
        starts := starts + {after.sindex};
      }
    }
  }

  /** A loop that ends hands over at least one entry and at most 65537. */
  lemma EntriesBounded(mem: Memory, n: nat, m: nat)
    requires Turns(mem, n, m).Done?
    ensures 1 <= |Turns(mem, n, m).texts| <= USHORT_LIMIT + 1
    decreases m
  {
    match Turns(mem, n, m - 1)
    case Done(texts) => EntriesBounded(mem, n, m - 1);
    case Going(c) =>
      OneMoreTurn(mem, n, m, c);
      var starts := FieldsBegun(mem, n, m - 1, m);
      BelowCount(starts, USHORT_LIMIT);
  }
}
