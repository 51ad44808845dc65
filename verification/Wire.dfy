/**
 * The wire format of the report queue, on values: little-endian code units, items joined by 0xFFFF and closed
 * by 0x0000, the greedy prefix a poll takes, and what the client makes of the bytes it gets.
 */
module Wire {
  import opened Units

  // ---------- bytes ----------

  function Low(u: unit): byte { u % 256 }

  function High(u: unit): byte { u / 256 }

  /** Little-endian bytes of a sequence of code units. */
  function Bytes(s: seq<unit>): (r: seq<byte>)
    ensures |r| == 2 * |s|
  {
    if s == [] then [] else Bytes(s[..|s| - 1]) + [Low(s[|s| - 1]), High(s[|s| - 1])]
  }

  function UnitAt(data: seq<byte>, index: nat): unit
    requires index + 1 < |data|
  {
    var low: int, high: int := data[index], data[index + 1];
    low + 256 * high
  }

  /** The whole units at the start of the data; an odd last byte is not one. */
  function UnitsOf(data: seq<byte>): (r: seq<unit>)
    ensures |r| == |data| / 2
  {
    if |data| < 2 then [] else [UnitAt(data, 0)] + UnitsOf(data[2..])
  }

  /** The less significant byte of each unit comes first. */
  lemma {:induction false} BytesAt(s: seq<unit>, i: nat)
    requires i < |s|
    ensures Bytes(s)[2 * i] == s[i] % 0x100 && Bytes(s)[2 * i + 1] == s[i] / 0x100
  {
    if i == |s| - 1 {
    } else {
      BytesAt(s[..|s| - 1], i);
    }
  }

  lemma {:induction false} UnitsOfAt(data: seq<byte>, i: nat)
    requires 2 * i + 1 < |data|
    ensures UnitsOf(data)[i] == UnitAt(data, 2 * i) == data[2 * i] as int + 0x100 * data[2 * i + 1] as int
  {
    if i == 0 {
    } else {
      UnitsOfAt(data[2..], i - 1);
    }
  }

  lemma BytesRoundTrip(s: seq<unit>)
    ensures UnitsOf(Bytes(s)) == s
  {
    forall i | 0 <= i < |s|
      ensures UnitsOf(Bytes(s))[i] == s[i]
    {
      UnitsOfAt(Bytes(s), i);
      BytesAt(s, i);
    }
  }

  lemma {:induction false} BytesAppend(a: seq<unit>, b: seq<unit>)
    ensures Bytes(a + b) == Bytes(a) + Bytes(b)
  {
    if b == [] {
      assert a + b == a;
    } else {
      assert (a + b)[..|a + b| - 1] == a + b[..|b| - 1];
      BytesAppend(a, b[..|b| - 1]);
    }
  }

  // ---------- joining and cutting ----------

  /** The items with 0xFFFF between neighbours. */
  function Join(items: seq<seq<unit>>): seq<unit> {
    if items == [] then []
    else if |items| == 1 then items[0]
    else items[0] + [END_OF_BLOCK] + Join(items[1..])
  }

  /** The pieces that end in a separator; sb is what has been read of the first one. */
  function Cut(s: seq<unit>, sb: seq<unit>): seq<seq<unit>>
    decreases s
  {
    if s == [] then []
    else if IsSeparator(s[0]) then [sb] + Cut(s[1..], [])
    else Cut(s[1..], sb + [s[0]])
  }

  predicate NoSeparator(s: seq<unit>) {
    forall i :: 0 <= i < |s| ==> !IsSeparator(s[i])
  }

  lemma {:induction false} CutPlainRun(item: seq<unit>, rest: seq<unit>, sb: seq<unit>)
    requires NoSeparator(item)
    ensures Cut(item + rest, sb) == Cut(rest, sb + item)
    decreases item
  {
    if item == [] {
      assert item + rest == rest && sb + item == sb;
    } else {
      assert (item + rest)[1..] == item[1..] + rest;
      CutPlainRun(item[1..], rest, sb + [item[0]]);
      assert sb + [item[0]] + item[1..] == sb + item;
    }
  }

  /** Cutting undoes joining. */
  lemma {:induction false} CutJoin(items: seq<seq<unit>>)
    requires items != [] && forall i :: 0 <= i < |items| ==> NoSeparator(items[i])
    ensures Cut(Join(items) + [END_OF_DATA], []) == items
  {
    var rest := if |items| == 1 then [END_OF_DATA] else [END_OF_BLOCK] + Join(items[1..]) + [END_OF_DATA];
    assert Join(items) + [END_OF_DATA] == items[0] + rest;
    CutPlainRun(items[0], rest, []);
    assert [] + items[0] == items[0];
    if |items| > 1 {
      assert rest[1..] == Join(items[1..]) + [END_OF_DATA];
      CutJoin(items[1..]);
      assert items == [items[0]] + items[1..];
    } else {
      assert rest[1..] == [];
      assert Cut(rest, items[0]) == [items[0]];
    }
  }

  /** No piece ever contains a separator. */
  lemma {:induction false} PiecesArePlain(s: seq<unit>, sb: seq<unit>, bad: iset<unit>)
    requires NoSeparator(sb)
    requires forall i :: 0 <= i < |sb| ==> sb[i] !in bad
    requires forall i :: 0 <= i < |s| ==> s[i] !in bad
    ensures forall p :: 0 <= p < |Cut(s, sb)| ==> NoSeparator(Cut(s, sb)[p])
    ensures forall p, i :: 0 <= p < |Cut(s, sb)| && 0 <= i < |Cut(s, sb)[p]| ==> Cut(s, sb)[p][i] !in bad
    decreases s
  {
    if s == [] {
    } else {
      if IsSeparator(s[0]) {
        PiecesArePlain(s[1..], [], bad);
      } else {
        PiecesArePlain(s[1..], sb + [s[0]], bad);
      }
    }
  }

  function DropLeadingEmpties(items: seq<Ustr>): (r: seq<Ustr>)
    ensures |r| <= |items|
    ensures r != [] ==> r[0] != []
    ensures r == items <==> items == [] || items[0] != []
  {
    if items != [] && items[0] == [] then DropLeadingEmpties(items[1..]) else items
  }

  // ---------- the drain ----------

  /** Room for the item under the guard of the drain loop: a ULONG sum, to which a 64-bit sizeof is added. */
  predicate Admits(written: nat, item: Ustr, bufferSize: nat) {
    (written + 2 * |item|) % ULONG_LIMIT + 2 < bufferSize
  }

  /** The guard where sizeof has 32 bits too, as in the Win32 build: there the whole sum wraps. */
  predicate AdmitsOnWin32(written: nat, item: Ustr, bufferSize: nat) {
    (written + 2 * |item| + 2) % ULONG_LIMIT < bufferSize
  }

  /** Bytes written once the item is stored, its delimiter included. */
  function After(written: nat, item: Ustr): nat {
    (if written > 0 then written + 2 else 0) + 2 * |item|
  }

  /** How many items one drain takes from the head of the queue. */
  function Taken(queue: seq<Ustr>, written: nat, bufferSize: nat): (k: nat)
    ensures k <= |queue|
    decreases queue
  {
    if queue == [] || !Admits(written, queue[0], bufferSize) then 0
    else 1 + Taken(queue[1..], After(written, queue[0]), bufferSize)
  }

  /** The units stored for the items, the terminator not included. */
  function Emitted(items: seq<Ustr>, written: nat): seq<unit>
    decreases items
  {
    if items == [] then []
    else (if written > 0 then [END_OF_BLOCK] else []) + items[0] + Emitted(items[1..], After(written, items[0]))
  }

  lemma {:induction false} EmittedAfterOutput(items: seq<Ustr>, written: nat)
    requires written > 0
    ensures Emitted(items, written) == if items == [] then [] else [END_OF_BLOCK] + Join(items)
    decreases items
  {
    if items == [] {
    } else {
      EmittedAfterOutput(items[1..], After(written, items[0]));
    }
  }

  /** The drained items come out joined by 0xFFFF, leading empty ones leaving no trace. */
  lemma {:induction false} EmittedIsJoin(items: seq<Ustr>)
    ensures Emitted(items, 0) == Join(DropLeadingEmpties(items))
  {
    if items == [] {
    } else {
      var rest := Emitted(items[1..], After(0, items[0]));
      assert Emitted(items, 0) == items[0] + rest;
      if items[0] == [] {
        EmittedIsJoin(items[1..]);
        assert items[0] + rest == rest;
      } else {
        EmittedAfterOutput(items[1..], After(0, items[0]));
        if |items| == 1 {
          assert items[0] + rest == items[0];
        } else {
          assert items[0] + rest == items[0] + [END_OF_BLOCK] + Join(items[1..]);
        }
      }
    }
  }

  lemma {:induction false} EmittedSnoc(items: seq<Ustr>, item: Ustr, written: nat)
    requires written % 2 == 0
    ensures var w := written + 2 * |Emitted(items, written)|;
            Emitted(items + [item], written) ==
            Emitted(items, written) + (if w > 0 then [END_OF_BLOCK] else []) + item
    decreases items
  {
    if items == [] {
      assert items + [item] == [item] && [item][1..] == [];
    } else {
      assert (items + [item])[1..] == items[1..] + [item];
      EmittedSnoc(items[1..], item, After(written, items[0]));
    }
  }

  /** The units one drain puts into the buffer. */
  function Payload(queue: seq<Ustr>, bufferSize: nat): seq<unit> {
    Join(DropLeadingEmpties(queue[..Taken(queue, 0, bufferSize)])) + [END_OF_DATA]
  }

  /** This drain, terminator included, stays inside a buffer of this size. */
  predicate DrainFits(queue: seq<Ustr>, bufferSize: nat) {
    2 * |Payload(queue, bufferSize)| <= bufferSize
  }

  /** The output only grows while a drain goes on. */
  lemma {:induction false} EmittedGrows(items: seq<Ustr>, written: nat, i: nat)
    requires i <= |items|
    ensures |Emitted(items[..i], written)| <= |Emitted(items, written)|
    decreases items
  {
    if i == 0 {
    } else {
      assert items[..i][1..] == items[1..][..i - 1];
      EmittedGrows(items[1..], After(written, items[0]), i - 1);
    }
  }

  /** The largest size for which the 32-bit sum in the guard never wraps while there is room. */
  const LARGEST_BUFFER := 0xFFFF_0002

  /** For every queue, the drain stays inside a buffer of this size. */
  ghost predicate NeverOverruns(bufferSize: nat) {
    forall queue: seq<Ustr> :: DrainFits(queue, bufferSize)
  }

  predicate RoomForEveryDrain(bufferSize: nat) {
    (bufferSize % 2 == 0 && 2 <= bufferSize <= LARGEST_BUFFER) || bufferSize == 3
  }

  /** The loop keeps two bytes in reserve: with an even size, the strict guard leaves room for the delimiter. */
  lemma {:induction false} ReserveKept(queue: seq<Ustr>, written: nat, bufferSize: nat)
    requires RoomForEveryDrain(bufferSize)
    requires written % 2 == 0 && written + 2 <= bufferSize
    requires bufferSize == 3 ==> written == 0
    ensures written + 2 * |Emitted(queue[..Taken(queue, written, bufferSize)], written)| + 2 <= bufferSize
    decreases queue
  {
    var k := Taken(queue, written, bufferSize);
    if k > 0 {
      assert queue[..k][1..] == queue[1..][..k - 1];
      ReserveKept(queue[1..], After(written, queue[0]), bufferSize);
    } else {
      assert queue[..k] == [];
    }
  }

  lemma PayloadFits(queue: seq<Ustr>, bufferSize: nat)
    requires RoomForEveryDrain(bufferSize)
    ensures DrainFits(queue, bufferSize)
  {
    ReserveKept(queue, 0, bufferSize);
    EmittedIsJoin(queue[..Taken(queue, 0, bufferSize)]);
  }

  function Empties(n: nat): (s: seq<Ustr>)
    ensures |s| == n
  {
    if n == 0 then [] else [[]] + Empties(n - 1)
  }

  /** While there is room, an empty item costs one delimiter. */
  lemma {:induction false} EmptiesTaken(n: nat, rest: seq<Ustr>, written: nat, bufferSize: nat)
    requires 0 < written && written + 2 * n < bufferSize < ULONG_LIMIT
    ensures Taken(Empties(n) + rest, written, bufferSize) == n + Taken(rest, written + 2 * n, bufferSize)
  {
    if n == 0 {
      assert Empties(0) + rest == rest;
    } else {
      EmptiesFirst(n, rest);
      EmptyTaken(Empties(n) + rest, written, bufferSize);
      EmptiesTaken(n - 1, rest, written + 2, bufferSize);
    }
  }

  lemma EmptyTaken(queue: seq<Ustr>, written: nat, bufferSize: nat)
    requires queue != [] && queue[0] == [] && 0 < written && written + 2 < bufferSize < ULONG_LIMIT
    ensures Taken(queue, written, bufferSize) == 1 + Taken(queue[1..], written + 2, bufferSize)
  {
  }

  lemma {:induction false} EmptiesEmitted(n: nat, rest: seq<Ustr>, written: nat)
    requires 0 < written
    ensures |Emitted(Empties(n) + rest, written)| == n + |Emitted(rest, written + 2 * n)|
  {
    if n == 0 {
      assert Empties(0) + rest == rest;
    } else {
      EmptiesFirst(n, rest);
      EmptiesEmitted(n - 1, rest, written + 2);
    }
  }

  lemma EmptiesFirst(n: nat, rest: seq<Ustr>)
    requires n > 0
    ensures var queue := Empties(n) + rest; queue[0] == [] && queue[1..] == Empties(n - 1) + rest
  {
  }

  /** One letter, then empty items, then the rest. */
  function OverrunQueue(n: nat, rest: seq<Ustr>): seq<Ustr> {
    [[1]] + (Empties(n) + rest)
  }

  /** If all of the rest is taken behind n empty items, the whole queue is. */
  lemma OverrunTaken(n: nat, rest: seq<Ustr>, bufferSize: nat)
    requires 5 <= bufferSize < ULONG_LIMIT && 2 + 2 * n < bufferSize
    requires Taken(rest, 2 + 2 * n, bufferSize) == |rest|
    requires 2 * (1 + n + |Emitted(rest, 2 + 2 * n)|) + 2 > bufferSize
    ensures !DrainFits(OverrunQueue(n, rest), bufferSize)
  {
    var queue := OverrunQueue(n, rest);
    assert queue[1..] == Empties(n) + rest;
    EmptiesTaken(n, rest, 2, bufferSize);
    EmptiesEmitted(n, rest, 2);
    assert queue[..|queue|] == queue;
    EmittedIsJoin(queue);
  }

  /** Some queue overruns every odd buffer of five bytes or more. */
  lemma OddSizeOverruns(bufferSize: nat)
    requires bufferSize % 2 == 1 && 5 <= bufferSize < ULONG_LIMIT
    ensures !NeverOverruns(bufferSize)
  {
    OverrunTaken((bufferSize - 3) / 2, [], bufferSize);
  }

  /** The longest item, stored behind so much that the sum in the guard is 0. */
  lemma HugeSizeOverruns(bufferSize: nat)
    requires LARGEST_BUFFER < bufferSize < ULONG_LIMIT
    ensures !NeverOverruns(bufferSize)
  {
    var n := (LARGEST_BUFFER - 2) / 2;
    var longest: Ustr := seq(32767, _ => 1);
    assert Admits(2 + 2 * n, longest, bufferSize);
    assert [longest][1..] == [];
    assert Taken([longest], 2 + 2 * n, bufferSize) == 1;
    OverrunTaken(n, [longest], bufferSize);
  }

  lemma EmptyQueuePayload(bufferSize: nat)
    ensures Payload([], bufferSize) == [END_OF_DATA]
  {
    var none: seq<Ustr> := [];
    assert none[..0] == none;
  }

  /**
   * For a buffer of any ULONG size: the drain stays inside it for every queue exactly when the size is even,
   * at least 2 and at most 0xFFFF0002, or is 3.
   */
  lemma NeverOverrunsIff(bufferSize: nat)
    requires bufferSize < ULONG_LIMIT
    ensures NeverOverruns(bufferSize) <==> RoomForEveryDrain(bufferSize)
  {
    if RoomForEveryDrain(bufferSize) {
      forall queue: seq<Ustr>
        ensures DrainFits(queue, bufferSize)
      {
        PayloadFits(queue, bufferSize);
      }
    } else if bufferSize > LARGEST_BUFFER {
      HugeSizeOverruns(bufferSize);
    } else if bufferSize >= 5 {
      OddSizeOverruns(bufferSize);
    } else {
      EmptyQueuePayload(bufferSize);
      assert !DrainFits([], bufferSize);
    }
  }

  // ---------- greedy maximality ----------

  /** Bytes written when the drain stops, the terminator not counted. */
  function Stored(queue: seq<Ustr>, bufferSize: nat): nat {
    2 * |Emitted(queue[..Taken(queue, 0, bufferSize)], 0)|
  }

  lemma {:induction false} StopsAtGuard(queue: seq<Ustr>, written: nat, bufferSize: nat)
    requires written % 2 == 0
    ensures var k := Taken(queue, written, bufferSize);
            k < |queue| ==>
              !Admits(written + 2 * |Emitted(queue[..k], written)|, queue[k], bufferSize)
    decreases queue
  {
    var k := Taken(queue, written, bufferSize);
    if k > 0 {
      assert queue[..k][1..] == queue[1..][..k - 1];
      StopsAtGuard(queue[1..], After(written, queue[0]), bufferSize);
    } else {
      assert queue[..k] == [];
    }
  }

  /**
   * What the strict guard means for an even buffer, of which two bytes are always left: once something is stored,
   * an item is taken exactly when delimiter, item and terminator fit; before that, exactly when item, terminator
   * and one more unit fit.
   */
  lemma GuardIsExact(written: nat, item: Ustr, bufferSize: nat)
    requires bufferSize % 2 == 0 && 2 <= bufferSize <= LARGEST_BUFFER
    requires written % 2 == 0 && written + 2 <= bufferSize
    ensures Admits(written, item, bufferSize) <==>
            After(written, item) + 2 + (if written > 0 then 0 else 2) <= bufferSize
  {
  }

  /** What the drain has written, the Win32 build decides the same way exactly for buffers of at most 0xFFFF0000. */
  lemma SameGuardOnWin32Iff(bufferSize: nat)
    requires bufferSize % 2 == 0 && 2 <= bufferSize < ULONG_LIMIT
    ensures (forall written: nat, item: Ustr :: written % 2 == 0 && written + 2 <= bufferSize ==>
               (AdmitsOnWin32(written, item, bufferSize) <==> Admits(written, item, bufferSize)))
            <==> bufferSize <= 0xFFFF_0000
  {
    if bufferSize > 0xFFFF_0000 {
      var longest: Ustr := seq(32767, _ => 1);
      assert AdmitsOnWin32(0xFFFF_0000, longest, bufferSize) && !Admits(0xFFFF_0000, longest, bufferSize);
    }
  }

  /**
   * A drain into an even buffer that leaves an item behind could not have stored it: with something stored,
   * delimiter, item and terminator would exceed the buffer; with nothing stored, item, terminator and one unit.
   */
  lemma GreedyMaximality(queue: seq<Ustr>, bufferSize: nat)
    requires bufferSize % 2 == 0 && 2 <= bufferSize <= LARGEST_BUFFER
    requires Taken(queue, 0, bufferSize) < |queue|
    ensures var next := queue[Taken(queue, 0, bufferSize)];
            var w := Stored(queue, bufferSize);
            bufferSize < (if w > 0 then w + 2 else 2) + 2 * |next| + 2
  {
    StopsAtGuard(queue, 0, bufferSize);
    ReserveKept(queue, 0, bufferSize);
    GuardIsExact(Stored(queue, bufferSize), queue[Taken(queue, 0, bufferSize)], bufferSize);
  }

  // ---------- the client ----------

  /** What Encoding.Unicode.GetChars makes of the two bytes of one unit. */
  type CharDecoder = unit -> unit

  predicate IsSurrogate(u: unit) {
    0xD800 <= u < 0xE000
  }

  /** The units whose upper six bits are 110110 or 110111. */
  lemma SurrogatesByBits(u: unit)
    ensures IsSurrogate(u) <==> u / 0x400 == 0x36 || u / 0x400 == 0x37
  {
  }

  /** A lone unit decodes to itself unless it is half of a surrogate pair, and never to such a half. */
  ghost predicate DecodesUnitwise(lib: CharDecoder) {
    && (forall u: unit :: !IsSurrogate(u) ==> lib(u) == u)
    && (forall u: unit :: !IsSurrogate(lib(u)))
  }

  function Decoded(lib: CharDecoder, s: seq<unit>): (r: seq<unit>)
    ensures |r| == |s| && forall i :: 0 <= i < |s| ==> r[i] == lib(s[i])
  {
    seq(|s|, i requires 0 <= i < |s| => lib(s[i]))
  }

  /** GetReportedItems after the call returned: None is the exception for half a unit at the end. */
  function Client(lib: CharDecoder, data: seq<byte>): Option<seq<seq<unit>>> {
    if |data| <= 2 then Some([])
    else if |data| % 2 == 1 then None
    else Some(Cut(Decoded(lib, UnitsOf(data)), []))
  }

  /** The loop of GetReportedItems. */
  method GetReportedItems(lib: CharDecoder, data: seq<byte>) returns (result: Option<seq<seq<unit>>>)
    ensures result == Client(lib, data)
  {
    var items: seq<seq<unit>> := [];
    if |data| > 2 {
      var index := 0;
      var sb: seq<unit> := [];
      ghost var all := Decoded(lib, UnitsOf(data));
      ghost var k := 0;
      while index < |data|
        invariant index == 2 * k <= |data|
        invariant items + Cut(all[k..], sb) == Cut(all, [])
      {
        if index + 2 > |data| {
          return None;
        }
        var ch := lib(UnitAt(data, index));
        UnitsOfAt(data, k);
        ghost var rest := all[k..];
        assert rest[0] == ch && rest[1..] == all[k + 1..];
        k := k + 1;
        if ch == END_OF_BLOCK || ch == END_OF_DATA {
          items := items + [sb];
          index := index + 2;
          sb := [];
          continue;
        }
        index := index + 2;
        sb := sb + [ch];
      }
      assert all[k..] == [] && items + [] == items;
    }
    return Some(items);
  }

  function Separators(s: seq<unit>): nat {
    if s == [] then 0 else (if s[0] == 0x0000 || s[0] == 0xFFFF then 1 else 0) + Separators(s[1..])
  }

  lemma {:induction false} PiecesCounted(s: seq<unit>, sb: seq<unit>)
    ensures |Cut(s, sb)| == Separators(s)
    decreases s
  {
    if s == [] {
    } else if IsSeparator(s[0]) {
      PiecesCounted(s[1..], []);
    } else {
      PiecesCounted(s[1..], sb + [s[0]]);
    }
  }

  /** Two bytes or fewer hold no name; beyond, an odd number throws, and each separator ends one name. */
  lemma ClientOutcome(lib: CharDecoder, data: seq<byte>)
    ensures |data| <= 2 ==> Client(lib, data) == Some([])
    ensures Client(lib, data).None? <==> |data| > 2 && |data| % 2 == 1
    ensures |data| > 2 && |data| % 2 == 0 ==>
              |Client(lib, data).value| == Separators(Decoded(lib, UnitsOf(data)))
  {
    PiecesCounted(Decoded(lib, UnitsOf(data)), []);
  }

  /** Free of separators and of surrogate halves. */
  predicate Clean(s: seq<unit>) {
    forall i :: 0 <= i < |s| ==> !IsSeparator(s[i]) && !IsSurrogate(s[i])
  }

  predicate AllClean(items: seq<seq<unit>>) {
    forall i :: 0 <= i < |items| ==> Clean(items[i])
  }

  /** The bytes a drain returns for these items. */
  function Message(items: seq<Ustr>): seq<byte> {
    Bytes(Join(DropLeadingEmpties(items)) + [END_OF_DATA])
  }

  lemma {:induction false} JoinHasNoSurrogate(items: seq<seq<unit>>)
    requires AllClean(items)
    ensures forall i :: 0 <= i < |Join(items)| ==> !IsSurrogate(Join(items)[i])
  {
    if |items| <= 1 {
    } else {
      JoinHasNoSurrogate(items[1..]);
    }
  }

  lemma {:induction false} DropKeepsClean(items: seq<Ustr>)
    requires AllClean(items)
    ensures AllClean(DropLeadingEmpties(items))
  {
    if items == [] {
    } else {
      DropKeepsClean(items[1..]);
    }
  }

  /** What the client reads back from clean items: all of them, but for the empty ones that come first. */
  lemma ClientReadsClean(lib: CharDecoder, items: seq<Ustr>)
    requires DecodesUnitwise(lib) && AllClean(items)
    ensures Client(lib, Message(items)) == Some(DropLeadingEmpties(items))
  {
    var kept := DropLeadingEmpties(items);
    var s := Join(kept) + [END_OF_DATA];
    BytesRoundTrip(s);
    DropKeepsClean(items);
    JoinHasNoSurrogate(kept);
    assert Decoded(lib, s) == s;
    if kept != [] {
      CutJoin(kept);
    }
  }

  /**
   * The client gets exactly the drained items, in order, if and only if the first of them is not empty and
   * none contains a separator or a surrogate half.
   */
  lemma ClientReadsBackIff(lib: CharDecoder, items: seq<Ustr>)
    requires DecodesUnitwise(lib)
    ensures Client(lib, Message(items)) == Some(items) <==>
            (items == [] || items[0] != []) && AllClean(items)
  {
    if AllClean(items) {
      ClientReadsClean(lib, items);
    } else {
      PiecesArePlain(Decoded(lib, UnitsOf(Message(items))), [], iset u: unit | IsSurrogate(u));
    }
  }
}
