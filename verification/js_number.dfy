/** The JavaScript number conversions the scripts rely on: `parseInt(s, 10)` and
    the ToInt32 conversion applied by `<<`. Numbers are exact integers; NaN is
    `None`. */
module JsNumber {
  import opened Wrappers
  import opened Strings

  predicate IsDigit(c: char) {
    '0' <= c <= '9'
  }

  function DigitValue(c: char): (d: nat)
    requires IsDigit(c)
    ensures d < 10
  {
    c as int - '0' as int
  }

  function DigitChar(d: nat): (c: char)
    requires d < 10
    ensures IsDigit(c) && DigitValue(c) == d
  {
    ('0' as int + d) as char
  }

  predicate AllDigits(s: string) {
    forall k :: 0 <= k < |s| ==> IsDigit(s[k])
  }

  /** The length of the longest all-digit prefix. */
  function DigitRun(s: string): (n: nat)
    ensures n <= |s| && AllDigits(s[..n])
    ensures n < |s| ==> !IsDigit(s[n])
  {
    if |s| > 0 && IsDigit(s[0]) then
      var n := 1 + DigitRun(s[1..]);
      assert forall k :: 1 <= k < n ==> s[..n][k] == s[1..][..n - 1][k - 1];
      n
    else 0
  }

  /** The decimal value of a digit string, most significant digit first. */
  function Value(ds: string): nat
    requires AllDigits(ds)
  {
    if |ds| == 0 then 0 else Value(ds[..|ds| - 1]) * 10 + DigitValue(ds[|ds| - 1])
  }

  /** The value of the longest digit run at the start of `body`; `None` when
      there is none. */
  function Unsigned(body: string): (r: Option<nat>)
    ensures r.Some? <==> |body| > 0 && IsDigit(body[0])
  {
    var n := DigitRun(body);
    if n == 0 then None else Some(Value(body[..n]))
  }

  /** The part of `parseInt` after the white space: an optional sign, then the
      longest run of decimal digits; NaN (`None`) when that run is empty. */
  function ParseSigned(t: string): (r: Option<int>)
    ensures var body := if |t| > 0 && (t[0] == '+' || t[0] == '-') then t[1..] else t;
            && (r.Some? <==> |body| > 0 && IsDigit(body[0]))
            && (r.Some? ==> r.value == (if t[0] == '-' then -(Value(body[..DigitRun(body)]) as int) else Value(body[..DigitRun(body)])))
  {
    var signed := |t| > 0 && (t[0] == '+' || t[0] == '-');
    match Unsigned(if signed then t[1..] else t)
    case None => None
    case Some(v) =>
      var w: int := v;
      Some(if t[0] == '-' then -w else w)
  }

  /** `parseInt(s, 10)`: skip leading white space, then read a signed digit
      run; anything after the run is ignored. */
  function ParseInt(s: string): (r: Option<int>)
    ensures r == ParseSigned(TrimStart(s))
    ensures r.Some? ==> exists k :: 0 <= k < |s| && IsDigit(s[k])
  {
    var t := TrimStart(s);
    var r := ParseSigned(t);
    if r.Some? then
      var k := if |t| > 0 && (t[0] == '+' || t[0] == '-') then 1 else 0;
      assert t[k] == s[|s| - |t| + k];
      r
    else r
  }

  /** Decimal rendering of a natural number, without leading zeros. */
  function NatToString(n: nat): (s: string)
    ensures |s| > 0 && AllDigits(s)
    ensures |s| > 1 ==> s[0] != '0'
  {
    if n < 10 then [DigitChar(n)]
    else NatToString(n / 10) + [DigitChar(n % 10)]
  }

  /** `String(n)` for an integer. */
  function IntToString(n: int): (s: string) {
    if n < 0 then "-" + NatToString(-n) else NatToString(n)
  }

  lemma {:induction false} ValueOfNatToString(n: nat)
    ensures Value(NatToString(n)) == n
  {
    if n >= 10 {
      var s := NatToString(n);
      assert s[..|s| - 1] == NatToString(n / 10);
      ValueOfNatToString(n / 10);
    }
  }

  lemma DigitRunOfDigits(ds: string, tail: string)
    requires AllDigits(ds)
    requires tail == [] || !IsDigit(tail[0])
    ensures DigitRun(ds + tail) == |ds|
    decreases |ds|
  {
    if |ds| > 0 {
      assert (ds + tail)[1..] == ds[1..] + tail;
      DigitRunOfDigits(ds[1..], tail);
    } else {
      assert ds + tail == tail;
    }
  }

  lemma UnsignedOfDigits(digits: string, tail: string)
    requires |digits| > 0 && AllDigits(digits)
    requires tail == [] || !IsDigit(tail[0])
    ensures Unsigned(digits + tail) == Some(Value(digits))
  {
    var body := digits + tail;
    DigitRunOfDigits(digits, tail);
    assert body[..|digits|] == digits;
  }

  lemma ParseIntOfNatToString(m: nat, tail: string)
    requires tail == [] || !IsDigit(tail[0])
    ensures ParseInt(NatToString(m) + tail) == Some(m)
  {
    var digits := NatToString(m);
    UnsignedOfDigits(digits, tail);
    ValueOfNatToString(m);
    ParseUnsignedText(digits + tail, m);
  }

  /** Text that starts with a digit is read without a sign. */
  lemma ParseUnsignedText(s: string, m: nat)
    requires |s| > 0 && IsDigit(s[0]) && Unsigned(s) == Some(m)
    ensures ParseInt(s) == Some(m)
  {
    NoLeadingSpace(s);
  }

  /** Text that starts with `-` is read as the negated unsigned value after it. */
  lemma ParseNegativeText(s: string, m: nat)
    requires |s| > 0 && s[0] == '-' && Unsigned(s[1..]) == Some(m)
    ensures ParseInt(s) == Some(-(m as int))
  {
    NoLeadingSpace(s);
  }

  lemma NoLeadingSpace(s: string)
    requires |s| > 0 && (IsDigit(s[0]) || s[0] == '-')
    ensures TrimStart(s) == s
  {
  }

  lemma ParseIntOfNegative(m: nat, tail: string)
    requires m > 0
    requires tail == [] || !IsDigit(tail[0])
    ensures ParseInt("-" + NatToString(m) + tail) == Some(-(m as int))
  {
    var digits := NatToString(m);
    var s := "-" + digits + tail;
    assert s[0] == '-' && s[1..] == digits + tail;
    UnsignedOfDigits(digits, tail);
    ValueOfNatToString(m);
    ParseNegativeText(s, m);
  }

  /** `parseInt` reads back what `String` writes, and stops at the first
      character that is not a digit. */
  lemma ParseIntOfIntToString(n: int, tail: string)
    requires tail == [] || !IsDigit(tail[0])
    ensures ParseInt(IntToString(n) + tail) == Some(n)
  {
    if n < 0 {
      var m: nat := -n;
      assert IntToString(n) + tail == "-" + NatToString(m) + tail;
      ParseIntOfNegative(m, tail);
    } else {
      assert IntToString(n) == NatToString(n);
      ParseIntOfNatToString(n, tail);
    }
  }

  /** Leading white space is skipped up to the first other character. */
  lemma {:induction false} TrimStartSpaces(ws: string, rest: string)
    requires AllSpace(ws)
    requires rest == [] || !IsSpace(rest[0])
    ensures TrimStart(ws + rest) == rest
    decreases |ws|
  {
    if |ws| > 0 {
      assert (ws + rest)[1..] == ws[1..] + rest;
      TrimStartSpaces(ws[1..], rest);
    } else {
      assert ws + rest == rest;
    }
  }

  /** Unsigned text is read as it stands. */
  lemma ParseSignedDigits(t: string, m: nat)
    requires |t| > 0 && IsDigit(t[0]) && Unsigned(t) == Some(m)
    ensures ParseSigned(t) == Some(m)
  {
  }

  /** A sign applies to the unsigned value after it. */
  lemma ParseSignedSign(t: string, m: nat)
    requires |t| > 0 && (t[0] == '+' || t[0] == '-') && Unsigned(t[1..]) == Some(m)
    ensures ParseSigned(t) == Some(if t[0] == '-' then -(m as int) else m)
  {
  }

  /** The magnitude `m` read after the optional sign `sign`: negated after a
      minus sign, unchanged after a plus sign or none. */
  function WithSign(sign: string, m: nat): int {
    if sign == ['-'] then -(m as int) else m
  }

  /** After the white space: an optional sign, then text whose unsigned
      reading is `m`, give `m` with the sign applied. */
  lemma {:induction false} ParseSignedOfParts(sign: string, body: string, m: nat)
    requires |sign| <= 1 && (|sign| == 1 ==> sign[0] == '+' || sign[0] == '-')
    requires |body| > 0 && IsDigit(body[0]) && Unsigned(body) == Some(m)
    ensures ParseSigned(sign + body) == Some(WithSign(sign, m))
  {
    if |sign| == 0 {
      assert sign + body == body;
      ParseSignedDigits(body, m);
    } else {
      var t := sign + body;
      assert t[0] == sign[0] && t[1..] == body;
      ParseSignedSign(t, m);
    }
  }

  /** Text `s` made of white space, an optional sign, then text whose unsigned
      reading is `m`. */
  lemma {:induction false} ParseIntOfSigned(s: string, ws: string, sign: string, body: string, m: nat)
    requires s == ws + sign + body && AllSpace(ws)
    requires |sign| <= 1 && (|sign| == 1 ==> sign[0] == '+' || sign[0] == '-')
    requires |body| > 0 && IsDigit(body[0]) && Unsigned(body) == Some(m)
    ensures ParseInt(s) == Some(WithSign(sign, m))
  {
    var rest := sign + body;
    assert s == ws + rest;
    assert !IsSpace(rest[0]) by {
      if |sign| == 0 { assert rest[0] == body[0]; }
    }
    TrimStartSpaces(ws, rest);
    ParseSignedOfParts(sign, body, m);
  }

  /** `parseInt` on any text of the shape it reads: white space, an optional
      sign, a non-empty digit run (leading zeros allowed) and a tail that does
      not continue the run. The result is the signed decimal value of the run. */
  lemma {:induction false} ParseIntOfParts(ws: string, sign: string, ds: string, tail: string)
    requires AllSpace(ws)
    requires |sign| <= 1 && (|sign| == 1 ==> sign[0] == '+' || sign[0] == '-')
    requires |ds| > 0 && AllDigits(ds)
    requires tail == [] || !IsDigit(tail[0])
    ensures ParseInt(ws + sign + ds + tail) == Some(WithSign(sign, Value(ds)))
  {
    var body := ds + tail;
    assert |body| > 0 && IsDigit(body[0]) && Unsigned(body) == Some(Value(ds)) by {
      UnsignedOfDigits(ds, tail);
    }
    assert ws + sign + ds + tail == ws + sign + body;
    ParseIntOfSigned(ws + sign + ds + tail, ws, sign, body, Value(ds));
  }

  /** A plus sign: `parseInt("+5")` is 5. */
  lemma ParseIntPlusSign()
    ensures ParseInt("+5") == Some(5)
  {
    assert "" + "+" + "5" + "" == "+5";
    assert Value("5") == 5 by { assert "5"[..0] == ""; }
    assert WithSign("+", 5) == 5 by { assert "+"[0] != '-'; }
    ParseIntOfParts("", "+", "5", "");
  }

  /** Leading zeros: `parseInt("007")` is 7. */
  lemma ParseIntLeadingZeros()
    ensures ParseInt("007") == Some(7)
  {
    assert "" + "" + "007" + "" == "007";
    assert Value("007") == 7 by {
      assert "007"[..2] == "00" && "00"[..1] == "0" && "0"[..0] == "";
    }
    ParseIntOfParts("", "", "007", "");
  }

  /** White space before and text after: `parseInt("  -3x")` is -3. */
  lemma ParseIntSpaceAndTail()
    ensures ParseInt("  -3x") == Some(-3)
  {
    assert "  " + "-" + "3" + "x" == "  -3x";
    assert Value("3") == 3 by { assert "3"[..0] == ""; }
    ParseIntOfParts("  ", "-", "3", "x");
  }

  const TwoTo31: int := 0x8000_0000
  const TwoTo32: int := 0x1_0000_0000

  /** ToInt32: the 32-bit two's-complement value congruent to `x`. */
  function ToInt32(x: int): (r: int)
    ensures -TwoTo31 <= r < TwoTo31
    ensures (x - r) % TwoTo32 == 0
  {
    (x + TwoTo31) % TwoTo32 - TwoTo31
  }

  /** ToInt32 leaves 32-bit values alone and is idempotent. */
  lemma ToInt32InRange(x: int)
    requires -TwoTo31 <= x < TwoTo31
    ensures ToInt32(x) == x
  {
  }
}
