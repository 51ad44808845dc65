/** The numerals that name registry values: int.ToString("D5") and int.Parse. */
module Decimal {
  import opened Units

  const INT32_MIN := -0x8000_0000

  const INT32_MAX := 0x7FFF_FFFF

  /** Unchecked 32-bit arithmetic. */
  function Wrap32(i: int): (r: int)
    ensures INT32_MIN <= r <= INT32_MAX
    ensures INT32_MIN <= i <= INT32_MAX ==> r == i
  {
    (i - INT32_MIN) % 0x1_0000_0000 + INT32_MIN
  }

  lemma WrapTwice(i: int, j: int)
    ensures Wrap32(Wrap32(i) + j) == Wrap32(i + j)
  {
  }

  // ---------- printing ----------

  function DigitChar(d: nat): char
    requires d < 10
  {
    '0' + d as char
  }

  function Digits(n: nat): (s: string)
    ensures s != []
  {
    if n < 10 then [DigitChar(n)] else Digits(n / 10) + [DigitChar(n % 10)]
  }

  function Pad5(s: string): (r: string)
    ensures |s| <= |r| && 5 <= |r|
    decreases 5 - |s|
  {
    if |s| >= 5 then s else Pad5("0" + s)
  }

  /** ToString("D5"). */
  function PrintD5(i: int): string {
    if i < 0 then "-" + Pad5(Digits(-i)) else Pad5(Digits(i))
  }

  // ---------- parsing ----------

  predicate IsDigit(c: char) {
    '0' <= c <= '9'
  }

  predicate AllDigits(s: string) {
    forall i :: 0 <= i < |s| ==> IsDigit(s[i])
  }

  predicate IsWhite(c: char) {
    c == ' ' || '\t' <= c <= '\r'
  }

  function TrimStart(s: string): string {
    if s != [] && IsWhite(s[0]) then TrimStart(s[1..]) else s
  }

  function TrimEnd(s: string): string {
    if s != [] && IsWhite(s[|s| - 1]) then TrimEnd(s[..|s| - 1]) else s
  }

  function Value(s: string): int
    requires AllDigits(s)
  {
    if s == [] then 0 else 10 * Value(s[..|s| - 1]) + (s[|s| - 1] as int - '0' as int)
  }

  function ParseMagnitude(s: string): Option<int> {
    if s != [] && AllDigits(s) then Some(Value(s)) else None
  }

  function ParseSigned(s: string): Option<int> {
    if s != [] && s[0] == '-' then
      match ParseMagnitude(s[1..])
      case Some(v) => Some(-v)
      case None => None
    else if s != [] && s[0] == '+' then ParseMagnitude(s[1..])
    else ParseMagnitude(s)
  }

  /** int.Parse: white space around, one leading sign, decimal digits; None stands for its exceptions. */
  function ParseInt(s: string): Option<int> {
    match ParseSigned(TrimEnd(TrimStart(s)))
    case Some(v) => if INT32_MIN <= v <= INT32_MAX then Some(v) else None
    case None => None
  }

  lemma ParsedInRange(s: string)
    requires ParseInt(s).Some?
    ensures INT32_MIN <= ParseInt(s).value <= INT32_MAX
  {
  }

  // ---------- what is a number ----------

  predicate AllWhite(s: string) {
    forall i :: 0 <= i < |s| ==> s[i] == ' ' || '\t' <= s[i] <= '\r'
  }

  /** The parts of a numeral: white space, at most one sign, digits, white space; and the Int32 they stand for. */
  predicate Spells(s: string, pre: string, sign: string, digits: string, post: string, v: int) {
    && s == pre + sign + digits + post
    && AllWhite(pre) && AllWhite(post) && (sign == "" || sign == "+" || sign == "-")
    && digits != "" && (forall i :: 0 <= i < |digits| ==> '0' <= digits[i] <= '9')
    && v == (if sign == "-" then -Value(digits) else Value(digits))
    && -0x8000_0000 <= v <= 0x7FFF_FFFF
  }

  ghost predicate IsNumber(s: string, v: int) {
    exists pre, sign, digits, post :: Spells(s, pre, sign, digits, post, v)
  }

  ghost predicate IsInt32(s: string) {
    exists v :: IsNumber(s, v)
  }

  lemma {:induction false} TrimStartSplits(s: string) returns (pre: string)
    ensures s == pre + TrimStart(s) && AllWhite(pre)
    ensures TrimStart(s) != "" ==> !IsWhite(TrimStart(s)[0])
  {
    if s != [] && IsWhite(s[0]) {
      pre := TrimStartSplits(s[1..]);
      pre := [s[0]] + pre;
    } else {
      pre := "";
    }
  }

  lemma {:induction false} TrimEndSplits(s: string) returns (post: string)
    ensures s == TrimEnd(s) + post && AllWhite(post)
  {
    if s != [] && IsWhite(s[|s| - 1]) {
      post := TrimEndSplits(s[..|s| - 1]);
      assert s == s[..|s| - 1] + [s[|s| - 1]];
      post := post + [s[|s| - 1]];
    } else {
      post := "";
    }
  }

  lemma {:induction false} TrimStartDrops(pre: string, rest: string)
    requires AllWhite(pre) && rest != "" && !IsWhite(rest[0])
    ensures TrimStart(pre + rest) == rest
  {
    if pre == "" {
      assert pre + rest == rest;
    } else {
      assert (pre + rest)[1..] == pre[1..] + rest;
      TrimStartDrops(pre[1..], rest);
    }
  }

  lemma {:induction false} TrimEndDrops(rest: string, post: string)
    requires AllWhite(post) && rest != "" && !IsWhite(rest[|rest| - 1])
    ensures TrimEnd(rest + post) == rest
  {
    if post == "" {
      assert rest + post == rest;
    } else {
      var s := rest + post;
      assert s[..|s| - 1] == rest + post[..|post| - 1];
      TrimEndDrops(rest, post[..|post| - 1]);
    }
  }

  lemma SignedDigits(sign: string, digits: string)
    requires (sign == "" || sign == "+" || sign == "-") && digits != "" && AllDigits(digits)
    ensures ParseSigned(sign + digits) == Some(if sign == "-" then -Value(digits) else Value(digits))
  {
    assert sign != "" ==> (sign + digits)[1..] == digits;
    assert sign == "" ==> sign + digits == digits;
  }

  lemma TrimmedCore(pre: string, core: string, post: string)
    requires AllWhite(pre) && AllWhite(post) && core != "" && !IsWhite(core[0]) && !IsWhite(core[|core| - 1])
    ensures TrimEnd(TrimStart(pre + core + post)) == core
  {
    assert pre + core + post == pre + (core + post);
    TrimStartDrops(pre, core + post);
    TrimEndDrops(core, post);
  }

  lemma SpelledIsParsed(s: string, pre: string, sign: string, digits: string, post: string, v: int)
    requires Spells(s, pre, sign, digits, post, v)
    ensures ParseInt(s) == Some(v)
  {
    var core := sign + digits;
    assert core[|core| - 1] == digits[|digits| - 1];
    assert pre + sign + digits + post == pre + core + post;
    SignedDigits(sign, digits);
    TrimmedCore(pre, core, post);
  }

  lemma SignedIsSpelled(core: string) returns (sign: string, digits: string)
    requires ParseSigned(core).Some?
    ensures core == sign + digits && (sign == "" || sign == "+" || sign == "-")
    ensures digits != "" && AllDigits(digits)
    ensures ParseSigned(core).value == if sign == "-" then -Value(digits) else Value(digits)
  {
    if core != [] && (core[0] == '-' || core[0] == '+') {
      sign, digits := [core[0]], core[1..];
    } else {
      sign, digits := "", core;
    }
  }

  lemma Assembled(s: string, pre: string, trimmed: string, core: string, post: string, sign: string, digits: string)
    requires s == pre + trimmed && trimmed == core + post && core == sign + digits
    ensures s == pre + sign + digits + post
  {
  }

  lemma CoreIsSpelled(s: string, pre: string, trimmed: string, core: string, post: string, v: int)
    requires s == pre + trimmed && trimmed == core + post && AllWhite(pre) && AllWhite(post)
    requires ParseSigned(core) == Some(v) && INT32_MIN <= v <= INT32_MAX
    ensures IsNumber(s, v)
  {
    var sign, digits := SignedIsSpelled(core);
    Assembled(s, pre, trimmed, core, post, sign, digits);
    assert Spells(s, pre, sign, digits, post, v);
  }

  lemma ParsedIsSpelled(s: string)
    requires ParseInt(s).Some?
    ensures IsNumber(s, ParseInt(s).value)
  {
    var trimmed := TrimStart(s);
    var pre := TrimStartSplits(s);
    var post := TrimEndSplits(trimmed);
    CoreIsSpelled(s, pre, trimmed, TrimEnd(trimmed), post, ParseInt(s).value);
  }

  /** int.Parse gives v exactly for the spellings of v, and throws for every other string. */
  lemma ParseIntIff(s: string, v: int)
    ensures ParseInt(s) == Some(v) <==> IsNumber(s, v)
  {
    if ParseInt(s).Some? {
      ParsedIsSpelled(s);
    }
    if IsNumber(s, v) {
      var pre, sign, digits, post :| Spells(s, pre, sign, digits, post, v);
      SpelledIsParsed(s, pre, sign, digits, post, v);
    }
  }

  // ---------- round trip ----------

  lemma {:induction false} DigitsHaveValue(n: nat)
    ensures AllDigits(Digits(n)) && Value(Digits(n)) == n
  {
    if n < 10 {
      var s := Digits(n);
      assert s[..|s| - 1] == [];
    } else {
      DigitsHaveValue(n / 10);
      var s := Digits(n);
      assert s[..|s| - 1] == Digits(n / 10);
    }
  }

  lemma {:induction false} LeadingZero(s: string)
    requires AllDigits(s)
    ensures AllDigits("0" + s) && Value("0" + s) == Value(s)
  {
    var z := "0" + s;
    if s == [] {
      assert z[..|z| - 1] == [];
    } else {
      assert z[..|z| - 1] == "0" + s[..|s| - 1];
      LeadingZero(s[..|s| - 1]);
    }
  }

  lemma {:induction false} PaddingKeepsValue(s: string)
    requires AllDigits(s)
    ensures AllDigits(Pad5(s)) && Value(Pad5(s)) == Value(s)
    decreases 5 - |s|
  {
    if |s| >= 5 {
    } else {
      LeadingZero(s);
      PaddingKeepsValue("0" + s);
    }
  }

  /** Every 32-bit integer is read back from its D5 numeral. */
  lemma ParsePrintD5(i: int)
    requires INT32_MIN <= i <= INT32_MAX
    ensures ParseInt(PrintD5(i)) == Some(i)
  {
    var n: nat := if i < 0 then -i else i;
    var sign := if i < 0 then "-" else "";
    DigitsHaveValue(n);
    PaddingKeepsValue(Digits(n));
    assert PrintD5(i) == "" + sign + Pad5(Digits(n)) + "";
    SpelledIsParsed(PrintD5(i), "", sign, Pad5(Digits(n)), "", i);
  }

  // ---------- the shape of a numeral ----------

  function Pow10(n: nat): nat {
    if n == 0 then 1 else 10 * Pow10(n - 1)
  }

  lemma {:induction false} Pow10Grows(m: nat, n: nat)
    requires m <= n
    ensures Pow10(m) <= Pow10(n)
  {
    if m == n {
    } else {
      Pow10Grows(m, n - 1);
    }
  }

  lemma {:induction false} ValueBelow(s: string)
    requires AllDigits(s)
    ensures 0 <= Value(s) < Pow10(|s|)
  {
    if s == "" {
    } else {
      ValueBelow(s[..|s| - 1]);
    }
  }

  lemma {:induction false} ValueAtLeast(s: string)
    requires s != "" && AllDigits(s) && s[0] != '0'
    ensures Value(s) >= Pow10(|s| - 1)
  {
    if |s| == 1 {
      assert s[..0] == "";
    } else {
      ValueAtLeast(s[..|s| - 1]);
    }
  }

  lemma {:induction false} SameLengthSameValue(s: string, t: string)
    requires |s| == |t| && AllDigits(s) && AllDigits(t) && Value(s) == Value(t)
    ensures s == t
  {
    if s == "" {
    } else {
      var a, b := s[..|s| - 1], t[..|t| - 1];
      SameLengthSameValue(a, b);
      assert s == a + [s[|s| - 1]] && t == b + [t[|t| - 1]];
    }
  }

  lemma ShorterIsLess(s: string, t: string)
    requires AllDigits(s) && AllDigits(t) && |s| < |t| && t[0] != '0'
    ensures Value(s) < Value(t)
  {
    ValueBelow(s);
    ValueAtLeast(t);
    Pow10Grows(|s|, |t| - 1);
  }

  lemma {:induction false} DigitsShape(n: nat)
    ensures AllDigits(Digits(n)) && Value(Digits(n)) == n
    ensures n > 0 ==> Digits(n)[0] != '0'
  {
    DigitsHaveValue(n);
    if n >= 10 {
      DigitsShape(n / 10);
    }
  }

  lemma {:induction false} PaddingAddsZeros(s: string)
    requires AllDigits(s) && (s != "" && s[0] == '0' ==> |s| <= 5)
    ensures |Pad5(s)| > 5 ==> Pad5(s)[0] != '0'
    decreases 5 - |s|
  {
    if |s| < 5 {
      PaddingAddsZeros("0" + s);
    }
  }

  predicate Padded(s: string, n: nat) {
    |s| >= 5 && AllDigits(s) && Value(s) == n && (|s| > 5 ==> s[0] != '0')
  }

  lemma PaddedIsUnique(s: string, t: string, n: nat)
    requires Padded(s, n) && Padded(t, n)
    ensures s == t
  {
    if |s| < |t| {
      ShorterIsLess(s, t);
    } else if |t| < |s| {
      ShorterIsLess(t, s);
    } else {
      SameLengthSameValue(s, t);
    }
  }

  lemma PaddedDigits(n: nat)
    ensures Padded(Pad5(Digits(n)), n)
  {
    DigitsShape(n);
    PaddingKeepsValue(Digits(n));
    PaddingAddsZeros(Digits(n));
  }

  /** A sign if need be, then at least five digits, with a zero in front only if there are exactly five. */
  predicate IsD5(s: string, i: int) {
    if i < 0 then s != "" && s[0] == '-' && Padded(s[1..], -i) else Padded(s, i)
  }

  /** ToString("D5") is the one string of this shape. */
  lemma PrintD5Iff(i: int, s: string)
    ensures s == PrintD5(i) <==> IsD5(s, i)
  {
    var n: nat := if i < 0 then -i else i;
    PaddedDigits(n);
    if IsD5(s, i) {
      var digits := if i < 0 then s[1..] else s;
      PaddedIsUnique(digits, Pad5(Digits(n)), n);
      assert i < 0 ==> s == "-" + digits;
    }
  }
}
