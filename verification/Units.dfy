/** Code units, counted strings and the separator alphabet shared by the driver and its client. */
module Units {

  datatype Option<+T> = None | Some(value: T)

  /** A WCHAR / .NET char: one UTF-16 code unit. */
  type unit = n: int | 0 <= n < 0x1_0000

  type byte = n: int | 0 <= n < 0x100

  /** A UNICODE_STRING. Its Length field counts bytes in a USHORT, so it holds at most 32767 units. */
  type Ustr = s: seq<unit> | |s| <= 32767

  /** First value an unsigned 32-bit ULONG cannot hold. */
  const ULONG_LIMIT := 0x1_0000_0000

  /** First value an unsigned 16-bit USHORT cannot hold. */
  const USHORT_LIMIT := 0x1_0000

  const END_OF_BLOCK: unit := 0xFFFF

  const END_OF_DATA: unit := 0x0000

  predicate IsSeparator(u: unit) {
    u == END_OF_BLOCK || u == END_OF_DATA
  }

  function Reverse<T>(s: seq<T>): (r: seq<T>)
    ensures |r| == |s|
  {
    if s == [] then [] else Reverse(s[1..]) + [s[0]]
  }

  lemma {:induction false} ReverseAt<T>(s: seq<T>, k: nat)
    requires k < |s|
    ensures Reverse(s)[k] == s[|s| - 1 - k]
  {
    if k == |s| - 1 {
    } else {
      ReverseAt(s[1..], k);
    }
  }

  lemma {:induction false} ReverseMembers<T>(s: seq<T>, x: T)
    ensures x in Reverse(s) <==> x in s
  {
    if s == [] {
    } else {
      assert s == [s[0]] + s[1..];
      ReverseMembers(s[1..], x);
    }
  }

  lemma {:induction false} ReverseSnoc<T>(s: seq<T>, x: T)
    ensures Reverse(s + [x]) == [x] + Reverse(s)
  {
    if s == [] {
      assert s + [x] == [x];
    } else {
      assert (s + [x])[1..] == s[1..] + [x];
      ReverseSnoc(s[1..], x);
    }
  }

  lemma {:induction false} ReverseTwice<T>(s: seq<T>)
    ensures Reverse(Reverse(s)) == s
  {
    if s == [] {
    } else {
      ReverseSnoc(Reverse(s[1..]), s[0]);
      ReverseTwice(s[1..]);
    }
  }
}
