/** What becomes of a whitelist on its way from the client's encoder through the driver's loop. */
module WhiteListRoundTrip {
  import opened Units
  import opened Wire
  import opened WhiteListLoop
  import opened WhiteListFields
  import opened WhiteListWrap
  import opened PortMessages
  import opened WhiteLists

  /** At least one name, none empty or longer than a UNICODE_STRING, and no inner separator. */
  predicate WellSpelled(names: seq<seq<unit>>) {
    && names != []
    && forall k :: 0 <= k < |names| ==>
         && 1 <= |names[k]| <= 32767
         && forall i :: 1 <= i < |names[k]| ==> !IsSeparator(names[k][i])
  }

  /** Names that come through: well spelled, and together short enough for a USHORT index. */
  predicate Transmissible(names: seq<seq<unit>>) {
    WellSpelled(names) && |Join(names)| < USHORT_LIMIT
  }

  lemma PayloadBehindCommand(raw: RawMemory, names: seq<seq<unit>>)
    requires HoldsMessage(raw, Encoded(names))
    ensures var payload := Join(names) + [END_OF_DATA];
            forall i :: 0 <= i < |payload| ==> BehindCommand(raw).At(i) == payload[i]
  {
    var payload := Join(names) + [END_OF_DATA];
    var message := Encoded(names);
    forall i: nat | i < |payload|
      ensures BehindCommand(raw).At(i) == payload[i]
    {
      BytesAt(payload, i);
      assert message[4 + 2 * i] == Bytes(payload)[2 * i] && message[5 + 2 * i] == Bytes(payload)[2 * i + 1];
    }
  }

  /** Names joined in memory and closed by a NUL inside the count are laid out as fields. */
  lemma {:induction false} JoinedNamesAreLaidOut(mem: Memory, n: nat, s: nat, names: seq<seq<unit>>)
    requires names != [] && s + |Join(names)| < n
    requires forall k :: 0 <= k < |names| ==>
               names[k] != [] && forall i :: 1 <= i < |names[k]| ==> !IsSeparator(names[k][i])
    requires Slice(mem, s, s + |Join(names)| + 1) == Join(names) + [END_OF_DATA]
    ensures LaidOut(mem, n, s, names)
    decreases names
  {
    var t := s + |names[0]|;
    if |names| == 1 {
      SliceSplit(mem, s, names[0], END_OF_DATA, []);
    } else {
      var rest := Join(names[1..]) + [END_OF_DATA];
      assert Join(names) + [END_OF_DATA] == names[0] + [END_OF_BLOCK] + rest;
      SliceSplit(mem, s, names[0], END_OF_BLOCK, rest);
      JoinedNamesAreLaidOut(mem, n, t + 1, names[1..]);
    }
  }

  lemma SliceSplit(mem: Memory, s: nat, a: seq<unit>, u: unit, b: seq<unit>)
    requires Slice(mem, s, s + |a| + 1 + |b|) == a + [u] + b
    ensures Slice(mem, s, s + |a|) == a && mem.At(s + |a|) == u
    ensures Slice(mem, s + |a| + 1, s + |a| + 1 + |b|) == b
  {
    var whole := Slice(mem, s, s + |a| + 1 + |b|);
    assert whole[|a|] == mem.At(s + |a|);
    forall i | 0 <= i < |a|
      ensures mem.At(s + i) == a[i]
    {
      assert whole[i] == mem.At(s + i);
    }
    forall i | 0 <= i < |b|
      ensures mem.At(s + |a| + 1 + i) == b[i]
    {
      assert whole[|a| + 1 + i] == mem.At(s + (|a| + 1 + i));
    }
  }

  /** The loop ends, and hands these names to the callback in reverse. */
  ghost predicate Received(mem: Memory, n: nat, names: seq<seq<unit>>) {
    exists texts: seq<Ustr> :: Delivers(mem, n, texts) && texts == Reverse(names)
  }

  lemma EncodedIsLaidOut(raw: RawMemory, names: seq<seq<unit>>, n: nat)
    requires WellSpelled(names) && HoldsMessage(raw, Encoded(names)) && |Encoded(names)| == 4 + n
    ensures LaidOut(BehindCommand(raw), n, 0, names)
  {
    var mem := BehindCommand(raw);
    PayloadBehindCommand(raw, names);
    assert Slice(mem, 0, |Join(names)| + 1) == Join(names) + [END_OF_DATA];
    JoinedNamesAreLaidOut(mem, n, 0, names);
  }

  lemma LaidOutNamesParse(mem: Memory, n: nat, names: seq<seq<unit>>)
    requires WellSpelled(names) && LaidOut(mem, n, 0, names)
    ensures Fields(mem, n, 0) == names && Parse(mem, n) == Reverse(names) && End(mem, n, 0) == |Join(names)|
  {
    LaidOutIff(mem, n, names);
    FieldsConsume(mem, n, 0);
    assert KeptAll(names) == names;
    ReversesMatch(KeptAll(names), names);
  }

  /** The message selects the parser, whose loop ends and hands these names to the callback in reverse. */
  ghost predicate ReceivedFrom(raw: RawMemory, size: nat, names: seq<seq<unit>>) {
    var branch := Dispatch(raw, size);
    branch.WhiteListBranch? && Received(branch.ptr, branch.inputBufferSize, names)
  }

  lemma MessageSelectsParser(raw: RawMemory, data: seq<byte>, names: seq<seq<unit>>)
    requires IsWhiteListMessage(data, names) && HoldsMessage(raw, data)
    ensures data == Encoded(names)
    ensures Dispatch(raw, |data|) == WhiteListBranch(BehindCommand(raw), |data| - 4)
  {
    MessageIsEncoded(data, names);
    assert raw.At(0) == data[0] && raw.At(1) == data[1] && raw.At(2) == data[2] && raw.At(3) == data[3];
  }

  /** The driver reads back the list in reverse, and looks at no unit outside the message. */
  lemma RoundTrip(raw: RawMemory, data: seq<byte>, names: seq<seq<unit>>)
    requires Transmissible(names) && IsWhiteListMessage(data, names) && HoldsMessage(raw, data)
    ensures ReceivedFrom(raw, |data|, names)
    ensures var branch := Dispatch(raw, |data|); 4 + 2 * Reach(branch.ptr, branch.inputBufferSize) <= |data|
  {
    var n := |data| - 4;
    MessageSelectsParser(raw, data, names);
    EncodedIsLaidOut(raw, names, n);
    LaidOutNamesParse(BehindCommand(raw), n, names);
    LoopReadsFields(BehindCommand(raw), n);
  }

  /** Reversal is the same for strings and for plain unit sequences. */
  lemma ReversesMatch(a: seq<Ustr>, b: seq<seq<unit>>)
    ensures Reverse(a) == Reverse(b) <==> a == b
  {
    if |a| == |b| {
      forall k | 0 <= k < |a|
        ensures Reverse(a)[k] == a[|a| - 1 - k] && Reverse(b)[k] == b[|b| - 1 - k]
      {
        ReverseAt(a, k);
        ReverseAt(b, k);
      }
      forall k | 0 <= k < |a|
        ensures a[k] == Reverse(a)[|a| - 1 - k] && b[k] == Reverse(b)[|b| - 1 - k]
      {
        ReverseAt(a, |a| - 1 - k);
        ReverseAt(b, |b| - 1 - k);
      }
    }
  }

  /** With nothing but zeros from unit p on, the parse ends there, or at once if it starts later. */
  lemma {:induction false} ZeroTailEnd(mem: Memory, n: nat, s: nat, p: nat)
    requires s <= n && forall i: nat :: p <= i ==> mem.At(i) == END_OF_DATA
    ensures End(mem, n, s) <= (if s < p then p else s) + 1
    decreases n - s
  {
    var t := NextStop(mem, n, s + 1);
    var q := if s < p then p else s;
    assert mem.At(q + 1) == END_OF_DATA;
    assert t <= q + 1;
    if t < n && mem.At(t) == END_OF_BLOCK {
      assert t < p;
      ZeroTailEnd(mem, n, t + 1, p);
    }
  }

  /** Truncation drops at least 32768 units of any field it touches. */
  lemma {:induction false} KeptIsShorter(fields: seq<seq<unit>>)
    ensures |Join(KeptAll(fields))| <= |Join(fields)|
    ensures (exists k :: 0 <= k < |fields| && |fields[k]| > 32767) ==>
              |Join(KeptAll(fields))| + 32768 <= |Join(fields)|
  {
    if fields == [] {
    } else {
      var rest := fields[1..];
      assert fields == [fields[0]] + rest;
      KeptAllCons(fields[0], rest);
      KeptIsShorter(rest);
      assert KeptAll(fields)[1..] == KeptAll(rest);
    }
  }

  /** Whatever follows the message in memory, the driver receives these names. */
  ghost predicate ComesThrough(names: seq<seq<unit>>) {
    forall raw: RawMemory, data: seq<byte> :: IsWhiteListMessage(data, names) && HoldsMessage(raw, data) ==>
      ReceivedFrom(raw, |data|, names)
  }

  /** Zeros behind the message. */
  function ZeroPadded(message: seq<byte>): RawMemory {
    RawMemory((i: nat) => if i < |message| then message[i] else 0)
  }

  lemma PaddedBehindNames(names: seq<seq<unit>>, i: nat)
    requires |Join(names)| <= i
    ensures BehindCommand(ZeroPadded(Encoded(names))).At(i) == END_OF_DATA
  {
    var raw := ZeroPadded(Encoded(names));
    if i == |Join(names)| {
      PayloadBehindCommand(raw, names);
      assert BehindCommand(raw).At(i) == (Join(names) + [END_OF_DATA])[i];
    }
  }

  lemma PaddedParse(names: seq<seq<unit>>, mem: Memory, n: nat)
    requires ComesThrough(names) && |Encoded(names)| == 4 + n
    requires mem == BehindCommand(ZeroPadded(Encoded(names)))
    ensures Received(mem, n, names)
  {
    var raw := ZeroPadded(Encoded(names));
    assert HoldsMessage(raw, Encoded(names));
    EncodedIsMessage(names);
    assert ReceivedFrom(raw, |Encoded(names)|, names);
    MessageSelectsParser(raw, Encoded(names), names);
  }

  /** If the parse of a list with zeros behind it ends before the counters wrap, the list was transmissible. */
  lemma UnwrappedIsTransmissible(names: seq<seq<unit>>, mem: Memory, n: nat)
    requires Received(mem, n, names) && End(mem, n, 0) < USHORT_LIMIT
    requires forall i: nat :: |Join(names)| <= i ==> mem.At(i) == END_OF_DATA
    ensures Transmissible(names)
  {
    LoopReadsFields(mem, n);
    var texts :| Delivers(mem, n, texts) && texts == Reverse(names);
    DeliversOnce(mem, n, texts, Parse(mem, n));
    ZeroTailParse(mem, n, names);
  }

  /** With nothing but zeros behind the names, no field can have lost units. */
  lemma ZeroTailParse(mem: Memory, n: nat, names: seq<seq<unit>>)
    requires Parse(mem, n) == Reverse(names) && End(mem, n, 0) < USHORT_LIMIT
    requires forall i: nat :: |Join(names)| <= i ==> mem.At(i) == END_OF_DATA
    ensures Transmissible(names)
  {
    var fields := Fields(mem, n, 0);
    ReversesMatch(KeptAll(fields), names);
    ZeroTailEnd(mem, n, 0, |Join(names)|);
    FieldsConsume(mem, n, 0);
    KeptIsShorter(fields);
    assert KeptAll(fields) == fields;
    ParserOnAnyMemory(mem, n);
  }

  // ---------- when the counters wrap ----------

  predicate NoNul(names: seq<seq<unit>>) {
    forall k, i :: 0 <= k < |names| && 0 <= i < |names[k]| ==> names[k][i] != END_OF_DATA
  }

  lemma {:induction false} JoinHasNoNul(names: seq<seq<unit>>)
    requires NoNul(names)
    ensures END_OF_DATA !in Join(names)
  {
    if |names| > 1 {
      JoinHasNoNul(names[1..]);
    } else {
      assert names != [] ==> END_OF_DATA !in names[0];
    }
  }

  /** On names without NUL that join to 65536 units or more the loop never ends, whatever follows them. */
  lemma TooLongNeverEnds(raw: RawMemory, data: seq<byte>, names: seq<seq<unit>>)
    requires IsWhiteListMessage(data, names) && HoldsMessage(raw, data)
    requires NoNul(names) && |Join(names)| >= USHORT_LIMIT
    ensures Dispatch(raw, |data|) == WhiteListBranch(BehindCommand(raw), |data| - 4)
    ensures !Ends(BehindCommand(raw), |data| - 4)
  {
    var mem, n := BehindCommand(raw), |data| - 4;
    MessageSelectsParser(raw, data, names);
    NamesAreNotNul(raw, names);
    if Ends(mem, n) {
      var k := LoopEnds(mem, n);
      NoNulNeverEnds(mem, n, k);
    }
  }

  lemma NamesAreNotNul(raw: RawMemory, names: seq<seq<unit>>)
    requires HoldsMessage(raw, Encoded(names)) && NoNul(names)
    ensures forall i: nat :: i < |Join(names)| ==> BehindCommand(raw).At(i) != END_OF_DATA
    ensures BehindCommand(raw).At(|Join(names)|) == END_OF_DATA
  {
    PayloadBehindCommand(raw, names);
    JoinHasNoNul(names);
    var payload := Join(names) + [END_OF_DATA];
    forall i: nat | i < |Join(names)|
      ensures BehindCommand(raw).At(i) != END_OF_DATA
    {
      assert payload[i] in Join(names) && BehindCommand(raw).At(i) == payload[i];
    }
    assert payload[|Join(names)|] == END_OF_DATA;
  }

  /**
   * With j names 0xFFFF in front and j more at the end, and a NUL behind the ones in front, what the loop makes of
   * the units behind the first 65536 is what it makes of unit 0 and the next ones.
   */
  predicate WrapsIntoPlace(names: seq<seq<unit>>, j: nat) {
    && |names| > 2 * j && |Join(names)| == USHORT_LIMIT + 2 * j
    && names[..j] == Delimiters(j) && names[|names| - j..] == Delimiters(j)
    && names[j] != [] && names[j][0] == END_OF_DATA
  }

  /** The lists that come through. */
  ghost predicate Receivable(names: seq<seq<unit>>) {
    Transmissible(names) || (WellSpelled(names) && exists j: nat :: WrapsIntoPlace(names, j))
  }

  /** Names 0xFFFF in front of a list, joined: so many units 0xFFFF twice over. */
  lemma {:induction false} JoinLeading(names: seq<seq<unit>>, j: nat)
    requires j < |names| && names[..j] == Delimiters(j)
    ensures |Join(names)| >= 2 * j + |names[j]|
    ensures forall i :: 0 <= i < 2 * j ==> Join(names)[i] == END_OF_BLOCK
    ensures names[j] != [] ==> Join(names)[2 * j] == names[j][0]
    ensures names[j] == [] && j + 1 < |names| ==> |Join(names)| > 2 * j && Join(names)[2 * j] == END_OF_BLOCK
  {
    if j == 0 {
    } else {
      assert names[0] == names[..j][0] && names[1..][..j - 1] == names[..j][1..];
      assert names[1..][..j - 1] == Delimiters(j - 1);
      JoinLeading(names[1..], j - 1);
      assert Join(names) == [END_OF_BLOCK, END_OF_BLOCK] + Join(names[1..]);
    }
  }

  /** Names 0xFFFF at the end of a list, joined. */
  lemma {:induction false} JoinTrailing(front: seq<seq<unit>>, j: nat)
    requires front != []
    ensures |Join(front + Delimiters(j))| == |Join(front)| + 2 * j
  {
    if j == 0 {
      assert front + Delimiters(0) == front;
    } else {
      JoinTrailing(front, j - 1);
      JoinSnoc(front + Delimiters(j - 1), [END_OF_BLOCK]);
      assert front + Delimiters(j) == front + Delimiters(j - 1) + [[END_OF_BLOCK]];
    }
  }

  lemma {:induction false} ReverseAppend(a: seq<Ustr>, b: seq<Ustr>)
    ensures Reverse(a + b) == Reverse(b) + Reverse(a)
  {
    if a == [] {
      assert a + b == b;
    } else {
      assert (a + b)[1..] == a[1..] + b;
      ReverseAppend(a[1..], b);
    }
  }

  lemma {:induction false} ReverseDelimiters(k: nat)
    ensures Reverse(Delimiters(k)) == Delimiters(k)
  {
    if k == 0 {
    } else {
      assert Delimiters(k)[1..] == Delimiters(k - 1);
      ReverseDelimiters(k - 1);
      assert Delimiters(k - 1) + [[END_OF_BLOCK]] == Delimiters(k);
    }
  }

  /** The list delivered behind the wrap, in the order of the message. */
  lemma DeliveredInOrder(mem: Memory, n: nat, names: seq<seq<unit>>)
    requires End(mem, n, 0) >= USHORT_LIMIT
    ensures Delivered(mem, n) == Reverse(names) <==>
            names == KeptAll(FieldsTo(mem, n, 0, USHORT_LIMIT)) + Delimiters(FirstOther(mem, 0, USHORT_LIMIT) / 2)
  {
    var kept, k := KeptAll(FieldsTo(mem, n, 0, USHORT_LIMIT)), FirstOther(mem, 0, USHORT_LIMIT) / 2;
    ReverseAppend(kept, Delimiters(k));
    ReverseDelimiters(k);
    ReversesMatch(kept + Delimiters(k), names);
  }

  lemma FirstName(mem: Memory, n: nat, s: nat, names: seq<seq<unit>>)
    requires LaidOut(mem, n, s, names)
    ensures var t := s + |names[0]|;
            && t > s && NextStop(mem, n, s + 1) == t && names[0] == Slice(mem, s, t)
            && (|names| > 1 ==> t < n && mem.At(t) == END_OF_BLOCK && LaidOut(mem, n, t + 1, names[1..]))
  {
    QuietField(mem, n, s, names[0]);
    StopIsUnique(mem, n, s + 1, s + |names[0]|);
  }

  lemma JoinFirst(names: seq<seq<unit>>, a: nat)
    requires 1 < a <= |names|
    ensures |Join(names[..a])| == |names[0]| + 1 + |Join(names[1..][..a - 1])|
    ensures names[..a] == [names[0]] + names[1..][..a - 1]
  {
    assert names[..a][1..] == names[1..][..a - 1];
  }

  /** Names laid out in memory, the first a of them up to the bound. */
  ghost predicate InFront(mem: Memory, n: nat, s: nat, names: seq<seq<unit>>, a: nat, bound: nat) {
    && s <= n && LaidOut(mem, n, s, names) && 1 <= a <= |names|
    && s + |Join(names[..a])| == bound
  }

  lemma InFrontNext(mem: Memory, n: nat, s: nat, names: seq<seq<unit>>, a: nat, bound: nat)
    requires InFront(mem, n, s, names, a, bound) && a > 1
    ensures var t := s + |names[0]|;
            && InFront(mem, n, t + 1, names[1..], a - 1, bound) && t > s
            && FieldsTo(mem, n, s, bound) == [names[0]] + FieldsTo(mem, n, t + 1, bound)
            && OpenAt(mem, n, s, bound) == OpenAt(mem, n, t + 1, bound)
  {
    FirstName(mem, n, s, names);
    JoinFirst(names, a);
    OneInFront(mem, n, s, s + |names[0]|, bound);
  }

  lemma {:induction false} NamesInFront(mem: Memory, n: nat, s: nat, names: seq<seq<unit>>, a: nat, bound: nat)
    requires InFront(mem, n, s, names, a, bound)
    ensures FieldsTo(mem, n, s, bound) == names[..a]
    ensures OpenAt(mem, n, s, bound) < bound && (a > 1 ==> OpenAt(mem, n, s, bound) > s)
    decreases a
  {
    if a == 1 {
      FirstName(mem, n, s, names);
      assert names[..1] == [names[0]];
      LastInFront(mem, n, s, bound);
    } else {
      InFrontNext(mem, n, s, names, a, bound);
      NamesInFront(mem, n, s + |names[0]| + 1, names[1..], a - 1, bound);
      assert names[..a] == [names[0]] + names[1..][..a - 1];
    }
  }

  lemma LastInFront(mem: Memory, n: nat, s: nat, bound: nat)
    requires s < bound <= NextStop(mem, n, s + 1) && s <= n
    ensures FieldsTo(mem, n, s, bound) == [Slice(mem, s, bound)] && OpenAt(mem, n, s, bound) == s
  {
  }

  lemma OneInFront(mem: Memory, n: nat, s: nat, t: nat, bound: nat)
    requires s < t < n && t < bound && t == NextStop(mem, n, s + 1) && mem.At(t) == END_OF_BLOCK
    ensures FieldsTo(mem, n, s, bound) == [Slice(mem, s, t)] + FieldsTo(mem, n, t + 1, bound)
    ensures OpenAt(mem, n, s, bound) == OpenAt(mem, n, t + 1, bound)
  {
  }

  lemma {:induction false} FirstOtherIs(mem: Memory, i: nat, p: nat, bound: nat)
    requires i <= p < bound && mem.At(p) != END_OF_BLOCK
    requires forall k :: i <= k < p ==> mem.At(k) == END_OF_BLOCK
    ensures FirstOther(mem, i, bound) == p
    decreases p - i
  {
    if i == p {
    } else {
      FirstOtherIs(mem, i + 1, p, bound);
    }
  }

  /** The names of such a list that fill the units in front of the wrap. */
  lemma PlacedNames(names: seq<seq<unit>>, j: nat)
    requires WellSpelled(names) && WrapsIntoPlace(names, j)
    ensures var front := names[..|names| - j];
            && |front| > 1 && |Join(front)| == USHORT_LIMIT && 2 * j < USHORT_LIMIT
            && names == KeptAll(front) + Delimiters(j)
  {
    var front := names[..|names| - j];
    var first := names[0];
    assert |front| == 1 ==> |Join(front)| == |first|;
    assert names == front + names[|names| - j..] == front + Delimiters(j);
    JoinTrailing(front, j);
    assert front[..j] == names[..j];
    JoinLeading(front, j);
    assert KeptAll(front) == front;
  }

  /** Such a list is delivered, from memory that holds it. */
  lemma PlacedIsReceived(raw: RawMemory, names: seq<seq<unit>>, n: nat, j: nat)
    requires WellSpelled(names) && WrapsIntoPlace(names, j)
    requires HoldsMessage(raw, Encoded(names)) && |Encoded(names)| == 4 + n
    ensures Received(BehindCommand(raw), n, names)
  {
    EncodedIsLaidOut(raw, names, n);
    PlacedNames(names, j);
    PlacedFirstOther(raw, names, j);
    PlacedIsDelivered(BehindCommand(raw), n, names, j);
  }

  lemma PlacedIsDelivered(mem: Memory, n: nat, names: seq<seq<unit>>, j: nat)
    requires WellSpelled(names) && WrapsIntoPlace(names, j) && LaidOut(mem, n, 0, names)
    requires 2 * j < USHORT_LIMIT && FirstOther(mem, 0, USHORT_LIMIT) == 2 * j && mem.At(2 * j) == END_OF_DATA
    ensures Received(mem, n, names)
  {
    PlacedNames(names, j);
    LaidOutNamesParse(mem, n, names);
    NamesInFront(mem, n, 0, names, |names| - j, USHORT_LIMIT);
    DeliveredInOrder(mem, n, names);
    DeliversIff(mem, n, Delivered(mem, n));
  }

  lemma PlacedFirstOther(raw: RawMemory, names: seq<seq<unit>>, j: nat)
    requires WrapsIntoPlace(names, j) && HoldsMessage(raw, Encoded(names)) && 2 * j < USHORT_LIMIT
    ensures FirstOther(BehindCommand(raw), 0, USHORT_LIMIT) == 2 * j
    ensures BehindCommand(raw).At(2 * j) == END_OF_DATA
  {
    PayloadBehindCommand(raw, names);
    JoinLeading(names, j);
    var mem, payload := BehindCommand(raw), Join(names) + [END_OF_DATA];
    forall k | 0 <= k <= 2 * j
      ensures mem.At(k) == Join(names)[k]
    {
      assert payload[k] == Join(names)[k];
    }
    FirstOtherIs(mem, 0, 2 * j, USHORT_LIMIT);
  }

  // ---------- and only they come through ----------

  /** What the fields in front of the bound are: fields, together all units in front of it. */
  lemma {:induction false} FieldsInFront(mem: Memory, n: nat, s: nat, bound: nat)
    requires s <= n && s < bound <= End(mem, n, s) && OpenAt(mem, n, s, bound) < bound
    ensures var fields := FieldsTo(mem, n, s, bound);
            && fields != [] && Join(fields) == Slice(mem, s, bound)
            && (forall k :: 0 <= k < |fields| ==> fields[k] != [])
            && (forall k, i :: 0 <= k < |fields| && 1 <= i < |fields[k]| ==> !IsSeparator(fields[k][i]))
    decreases n - s
  {
    var t := NextStop(mem, n, s + 1);
    var fields := FieldsTo(mem, n, s, bound);
    if t < n && t < bound && mem.At(t) == END_OF_BLOCK {
      FieldsInFront(mem, n, t + 1, bound);
      SliceIsField(mem, n, s, t);
      SliceAround(mem, s, t, bound);
      assert fields[1..] == FieldsTo(mem, n, t + 1, bound);
    } else {
      assert t >= bound;
      QuietShorter(mem, n, s + 1, bound, t);
      SliceIsField(mem, n, s, bound);
    }
  }

  lemma QuietShorter(mem: Memory, n: nat, lo: nat, hi: nat, t: nat)
    requires lo <= hi <= t && Quiet(mem, n, lo, t)
    ensures Quiet(mem, n, lo, hi)
  {
  }

  /** Units 0xFFFF at the start, two by two, are a field and a delimiter. */
  lemma {:induction false} LeadingFields(mem: Memory, n: nat, s: nat, j: nat, bound: nat)
    requires s <= n && s + 2 * j < bound && s + 2 * j <= n
    requires forall i :: s <= i < s + 2 * j ==> mem.At(i) == END_OF_BLOCK
    ensures var fields := FieldsTo(mem, n, s, bound);
            && |fields| > j && fields[..j] == Delimiters(j)
            && fields[j] != [] && fields[j][0] == mem.At(s + 2 * j)
    decreases j
  {
    var fields := FieldsTo(mem, n, s, bound);
    if j == 0 {
    } else {
      assert NextStop(mem, n, s + 1) == s + 1;
      assert Slice(mem, s, s + 1) == [END_OF_BLOCK];
      LeadingFields(mem, n, s + 2, j - 1, bound);
      var rest := FieldsTo(mem, n, s + 2, bound);
      assert fields == [[END_OF_BLOCK]] + rest;
      assert fields[..j] == [[END_OF_BLOCK]] + rest[..j - 1] == Delimiters(j);
    }
  }

  /** The j names behind the front ones are no room for a 0xFFFF at unit 2 * j, unless name j is empty. */
  lemma NameBehindLeading(kept: seq<seq<unit>>, names: seq<seq<unit>>, j: nat)
    requires names == kept + Delimiters(j) && j > 0 && |kept| > j && kept[..j] == Delimiters(j)
    requires 2 * j < |Join(names)| ==> Join(names)[2 * j] != END_OF_BLOCK
    ensures |Join(kept)| > 2 * j
  {
    assert names[..j] == kept[..j] && names[j] == kept[j];
    JoinLeading(names, j);
    JoinLeading(kept, j);
  }

  /** No field in front of the wrap can have lost units when the names come out as they were sent. */
  lemma NothingTruncated(fields: seq<seq<unit>>, names: seq<seq<unit>>, j: nat)
    requires names == KeptAll(fields) + Delimiters(j) && |Join(fields)| == USHORT_LIMIT
    requires |Join(names)| >= USHORT_LIMIT - 1
    requires |fields| > j && fields[..j] == Delimiters(j)
    requires 2 * j < |Join(names)| ==> Join(names)[2 * j] != END_OF_BLOCK
    ensures KeptAll(fields) == fields
  {
    KeptIsShorter(fields);
    JoinTrailing(KeptAll(fields), j);
    KeptDelimiters(fields, j);
    if j > 0 {
      NameBehindLeading(KeptAll(fields), names, j);
    }
    assert forall k :: 0 <= k < |fields| ==> |fields[k]| <= 32767;
  }

  lemma KeptDelimiters(fields: seq<seq<unit>>, j: nat)
    requires j <= |fields| && fields[..j] == Delimiters(j)
    ensures KeptAll(fields)[..j] == Delimiters(j)
  {
    forall i | 0 <= i < j
      ensures KeptAll(fields)[i] == [END_OF_BLOCK]
    {
      assert fields[i] == fields[..j][i];
    }
  }

  lemma FieldsWrapIntoPlace(fields: seq<seq<unit>>, names: seq<seq<unit>>, j: nat)
    requires names == KeptAll(fields) + Delimiters(j) && KeptAll(fields) == fields
    requires |Join(fields)| == USHORT_LIMIT && forall k :: 0 <= k < |fields| ==> fields[k] != []
    requires forall k, i :: 0 <= k < |fields| && 1 <= i < |fields[k]| ==> !IsSeparator(fields[k][i])
    requires |fields| > j && fields[..j] == Delimiters(j) && fields[j][0] == END_OF_DATA
    ensures WellSpelled(names) && WrapsIntoPlace(names, j)
  {
    JoinTrailing(fields, j);
    assert names[..j] == fields[..j] && names[|names| - j..] == Delimiters(j);
    forall k | 0 <= k < |names|
      ensures 1 <= |names[k]| <= 32767 && forall i :: 1 <= i < |names[k]| ==> !IsSeparator(names[k][i])
    {
      assert names[k] == if k < |fields| then fields[k] else [END_OF_BLOCK];
      assert k < |fields| ==> |KeptAll(fields)[k]| <= 32767;
    }
  }

  /** If the loop goes on past the wrap and still delivers the names, with zeros behind them, they wrap into place. */
  lemma WrappedIsPlaced(names: seq<seq<unit>>, mem: Memory, n: nat, bound: nat)
    requires Received(mem, n, names) && bound == USHORT_LIMIT <= End(mem, n, 0)
    requires forall i: nat :: i < |Join(names)| ==> mem.At(i) == Join(names)[i]
    requires forall i: nat :: |Join(names)| <= i ==> mem.At(i) == END_OF_DATA
    ensures WellSpelled(names) && WrapsIntoPlace(names, FirstOther(mem, 0, bound) / 2)
  {
    var texts :| Delivers(mem, n, texts) && texts == Reverse(names);
    DeliversIff(mem, n, texts);
    DeliveredInOrder(mem, n, names);
    var p := FirstOther(mem, 0, bound);
    var fields, j := FieldsTo(mem, n, 0, bound), p / 2;
    EvenAtNul(mem, n, p, bound);
    FieldsInFront(mem, n, 0, bound);
    LeadingFields(mem, n, 0, j, bound);
    ZeroTailEnd(mem, n, 0, |Join(names)|);
    NothingTruncated(fields, names, j);
    FieldsWrapIntoPlace(fields, names, j);
  }

  lemma OnlyReceivableComesThrough(names: seq<seq<unit>>)
    requires ComesThrough(names)
    ensures Receivable(names)
  {
    var raw, n := ZeroPadded(Encoded(names)), |Encoded(names)| - 4;
    var mem := BehindCommand(raw);
    forall i: nat | |Join(names)| <= i
      ensures mem.At(i) == END_OF_DATA
    {
      PaddedBehindNames(names, i);
    }
    PaddedParse(names, mem, n);
    if End(mem, n, 0) < USHORT_LIMIT {
      UnwrappedIsTransmissible(names, mem, n);
    } else {
      PayloadBehindCommand(raw, names);
      forall i: nat | i < |Join(names)|
        ensures mem.At(i) == Join(names)[i]
      {
        assert (Join(names) + [END_OF_DATA])[i] == Join(names)[i];
      }
      WrappedIsPlaced(names, mem, n, USHORT_LIMIT);
    }
  }

  /**
   * For every list: it comes through, whatever follows it in memory, if and only if it is not empty, each name has
   * 1 to 32767 units with no separator behind the first, and all of them joined have fewer than 65536 units or
   * wrap into place.
   */
  lemma RoundTripIff(names: seq<seq<unit>>)
    ensures ComesThrough(names) <==> Receivable(names)
  {
    if Receivable(names) {
      forall raw: RawMemory, data: seq<byte> | IsWhiteListMessage(data, names) && HoldsMessage(raw, data)
        ensures ReceivedFrom(raw, |data|, names)
      {
        MessageSelectsParser(raw, data, names);
        if Transmissible(names) {
          RoundTrip(raw, data, names);
        } else {
          var j: nat :| WrapsIntoPlace(names, j);
          PlacedIsReceived(raw, names, |data| - 4, j);
        }
      }
    } else if ComesThrough(names) {
      OnlyReceivableComesThrough(names);
    }
  }

  /** Well-spelled names of exactly 65536 units come through if and only if the first of these units is NUL. */
  lemma AtTheLimitIff(names: seq<seq<unit>>)
    requires WellSpelled(names) && |Join(names)| == USHORT_LIMIT
    ensures ComesThrough(names) <==> names[0][0] == END_OF_DATA
  {
    RoundTripIff(names);
    PlacedAtLimitIff(names);
  }

  lemma PlacedAtLimitIff(names: seq<seq<unit>>)
    requires WellSpelled(names) && |Join(names)| == USHORT_LIMIT
    ensures Receivable(names) <==> names[0][0] == END_OF_DATA
  {
    if names[0][0] == END_OF_DATA {
      assert names[..0] == Delimiters(0) && names[|names|..] == Delimiters(0);
      assert WrapsIntoPlace(names, 0);
    }
    if Receivable(names) {
      var j: nat :| WrapsIntoPlace(names, j);
      assert j == 0;
    }
  }

  // ---------- some lists ----------

  lemma JoinThree(a: seq<unit>, b: seq<unit>, c: seq<unit>)
    ensures Join([a, b, c]) == a + [END_OF_BLOCK] + (b + [END_OF_BLOCK] + c)
  {
    var all, rest := [a, b, c], [b, c];
    assert all[1..] == rest && rest[1..] == [c];
    assert Join(rest) == b + [END_OF_BLOCK] + Join([c]);
  }

  /** Three names that come through though they have 65536 units when joined. */
  lemma LongListComesThrough()
    ensures var names: seq<seq<unit>> := [[0] + seq(32766, _ => 97), seq(32766, _ => 98), [99]];
            |Join(names)| == USHORT_LIMIT && ComesThrough(names) && !Transmissible(names)
  {
    var names: seq<seq<unit>> := [[0] + seq(32766, _ => 97), seq(32766, _ => 98), [99]];
    JoinThree(names[0], names[1], names[2]);
    AtTheLimitIff(names);
  }

  /** With 0xFFFF in front and at the end even four names of 65538 units. */
  lemma LongerListComesThrough()
    ensures var names: seq<seq<unit>> := [[0xFFFF], [0] + seq(32766, _ => 97), seq(32766, _ => 98), [0xFFFF]];
            |Join(names)| == USHORT_LIMIT + 2 && ComesThrough(names)
  {
    var names: seq<seq<unit>> := [[0xFFFF], [0] + seq(32766, _ => 97), seq(32766, _ => 98), [0xFFFF]];
    JoinThree(names[1], names[2], names[3]);
    assert names[1..] == [names[1], names[2], names[3]];
    assert names[..1] == Delimiters(1) && names[3..] == Delimiters(1);
    assert WrapsIntoPlace(names, 1);
    RoundTripIff(names);
  }

  /** Three names on which the loop never ends, whatever follows them: there is no NUL for it to stop at. */
  lemma LongListNeverEnds(raw: RawMemory, data: seq<byte>)
    requires var names: seq<seq<unit>> := [seq(32767, _ => 97), seq(32766, _ => 98), [99]];
             IsWhiteListMessage(data, names) && HoldsMessage(raw, data)
    ensures !Ends(BehindCommand(raw), |data| - 4)
  {
    var names: seq<seq<unit>> := [seq(32767, _ => 97), seq(32766, _ => 98), [99]];
    JoinThree(names[0], names[1], names[2]);
    TooLongNeverEnds(raw, data, names);
  }

  // ---------- the two encoders ----------

  lemma {:induction false} DroppedIsShorter(items: seq<Ustr>)
    ensures |Join(DropLeadingEmpties(items))| <= |Join(items)|
  {
    if items != [] && items[0] == [] {
      DroppedIsShorter(items[1..]);
    }
  }

  /**
   * Given a buffer large enough, the driver and the client write the same payload for a list if and only if it
   * has at most one item or starts with one that is not empty.
   */
  lemma EncodersAgreeIff(items: seq<Ustr>, bufferSize: nat)
    requires Taken(items, 0, bufferSize) == |items|
    ensures Encoded(items)[4..] == Bytes(Payload(items, bufferSize)) <==>
            |items| <= 1 || items[0] != []
  {
    assert items[..|items|] == items;
    var kept := DropLeadingEmpties(items);
    var client, driver := Join(items) + [END_OF_DATA], Join(kept) + [END_OF_DATA];
    if |items| > 1 && items[0] == [] {
      DroppedIsShorter(items[1..]);
      assert |driver| < |client|;
    } else if items == [[]] {
      assert kept == [];
      assert Join(items) == Join(kept);
    }
  }
}
