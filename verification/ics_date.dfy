/** The `parseDate` helper of `parseICS` (api/inbound-email.js): positional
    decoding of the digits of a DTSTART/DTEND value into `YYYY-MM-DD` and
    `HH:MM`, with no time-zone conversion — a loose reading of the DATE and
    DATE-TIME forms of sections 3.3.4 and 3.3.5 of RFC 5545. */
module IcsDate {

  predicate IsDigit(c: char) {
    '0' <= c <= '9'
  }

  predicate AllDigits(s: string) {
    forall k :: 0 <= k < |s| ==> IsDigit(s[k])
  }

  /** The digits of `s`, in order (`replace(/[^0-9]/g, '')`; the earlier removal
      of `T` and `Z` is subsumed, since neither is a digit). */
  function Digits(s: string): (r: string)
    ensures AllDigits(r) && |r| <= |s|
    ensures AllDigits(s) ==> r == s
  {
    if |s| == 0 then []
    else if IsDigit(s[0]) then [s[0]] + Digits(s[1..])
    else Digits(s[1..])
  }

  lemma {:induction false} DigitsAppend(a: string, b: string)
    ensures Digits(a + b) == Digits(a) + Digits(b)
  {
    if |a| > 0 {
      assert (a + b)[1..] == a[1..] + b;
      DigitsAppend(a[1..], b);
    } else {
      assert a + b == b;
    }
  }

  /** `YYYY-MM-DD`: ten characters, dashes at the fifth and eighth, digits elsewhere. */
  predicate IsDateText(d: string) {
    |d| == 10 && d[4] == '-' && d[7] == '-'
    && forall k :: 0 <= k < 10 && k != 4 && k != 7 ==> IsDigit(d[k])
  }

  /** `HH:MM`: five characters, a colon in the middle, digits elsewhere. */
  predicate IsTimeText(t: string) {
    |t| == 5 && t[2] == ':' && forall k :: 0 <= k < 5 && k != 2 ==> IsDigit(t[k])
  }

  /** A decoded value: `date` is `""` when the value is unusable, `time` is `""`
      for an all-day value. */
  datatype Decoded = Decoded(date: string, time: string)

  /** `YYYY-MM-DD` from eight digits. */
  function FormatDate(d: string): string
    requires |d| == 8
  {
    d[..4] + "-" + d[4..6] + "-" + d[6..8]
  }

  /** `HH:MM` from four digits. */
  function FormatTime(d: string): string
    requires |d| == 4
  {
    d[..2] + ":" + d[2..4]
  }

  /** `parseDate`: with fewer than eight digits both parts are empty; otherwise
      the date carries digits 1-8 with dashes after the fourth and sixth, and
      the time carries digits 9-12 with a colon after the tenth exactly when
      there are at least twelve digits. Everything else in the value is ignored. */
  function ParseDate(raw: string): (r: Decoded)
    ensures var d := Digits(raw);
      && (|d| < 8 <==> r.date == "")
      && (|d| < 8 ==> r.time == "")
      && (|d| >= 8 ==> IsDateText(r.date) && Digits(r.date) == d[..8])
      && (|d| >= 12 ==> IsTimeText(r.time) && Digits(r.time) == d[8..12])
      && (|d| < 12 ==> r.time == "")
  {
    var d := Digits(raw);
    if |d| < 8 then Decoded("", "")
    else
      DecodedDigits(d);
      var date := FormatDate(d[..8]);
      var time := if |d| >= 12 then FormatTime(d[8..12]) else "";
      Decoded(date, time)
  }

  lemma DecodedDigits(d: string)
    requires |d| >= 8 && AllDigits(d)
    ensures IsDateText(FormatDate(d[..8])) && Digits(FormatDate(d[..8])) == d[..8]
    ensures |d| >= 12 ==> IsTimeText(FormatTime(d[8..12])) && Digits(FormatTime(d[8..12])) == d[8..12]
  {
    DateShape(d[..8]);
    DigitsOfFormatDate(d[..8]);
    if |d| >= 12 {
      TimeShape(d[8..12]);
      DigitsOfFormatTime(d[8..12]);
    }
  }

  lemma DateShape(d: string)
    requires |d| == 8 && AllDigits(d)
    ensures IsDateText(FormatDate(d))
  {
    var f := FormatDate(d);
    forall k | 0 <= k < 10 && k != 4 && k != 7 ensures IsDigit(f[k]) {
      if k < 4 { assert f[k] == d[k]; }
      else if k < 7 { assert f[k] == d[k - 1]; }
      else { assert f[k] == d[k - 2]; }
    }
  }

  lemma TimeShape(d: string)
    requires |d| == 4 && AllDigits(d)
    ensures IsTimeText(FormatTime(d))
  {
    var f := FormatTime(d);
    forall k | 0 <= k < 5 && k != 2 ensures IsDigit(f[k]) {
      if k < 2 { assert f[k] == d[k]; }
      else { assert f[k] == d[k - 1]; }
    }
  }

  lemma DigitsOfFormatDate(d: string)
    requires |d| == 8 && AllDigits(d)
    ensures Digits(FormatDate(d)) == d
  {
    DigitsAppend(d[..4] + "-" + d[4..6] + "-", d[6..8]);
    DigitsAppend(d[..4] + "-" + d[4..6], "-");
    DigitsAppend(d[..4] + "-", d[4..6]);
    DigitsAppend(d[..4], "-");
    assert d[..4] + d[4..6] + d[6..8] == d;
  }

  lemma DigitsOfFormatTime(d: string)
    requires |d| == 4 && AllDigits(d)
    ensures Digits(FormatTime(d)) == d
  {
    DigitsAppend(d[..2] + ":", d[2..4]);
    DigitsAppend(d[..2], ":");
    assert d[..2] + d[2..4] == d;
  }

  /** A decoded date decodes to itself, as an all-day value: the output format
      is a fixed point of the decoder. */
  lemma ReparseDate(raw: string)
    requires ParseDate(raw).date != ""
    ensures ParseDate(ParseDate(raw).date) == Decoded(ParseDate(raw).date, "")
  {
    var d := Digits(raw);
    DigitsOfFormatDate(d[..8]);
  }

  /** The RFC 5545 DATE-TIME form `YYYYMMDDTHHMMSS`, in UTC (`Z`) or local time,
      decodes to its date and its hour and minute; the seconds are dropped. */
  lemma ParseDateTimeForm(d: string, t: string, z: string)
    requires |d| == 8 && AllDigits(d) && |t| == 6 && AllDigits(t)
    requires z == "" || z == "Z"
    ensures ParseDate(d + "T" + t + z) == Decoded(FormatDate(d), FormatTime(t[..4]))
  {
    DigitsAppend(d + "T" + t, z);
    DigitsAppend(d + "T", t);
    DigitsAppend(d, "T");
    assert Digits(z) == [];
    var all := Digits(d + "T" + t + z);
    assert all == d + t;
    assert all[..8] == d && all[8..12] == t[..4];
  }

  /** The RFC 5545 DATE form `YYYYMMDD` decodes to an all-day value. */
  lemma ParseDateForm(d: string)
    requires |d| == 8 && AllDigits(d)
    ensures ParseDate(d) == Decoded(FormatDate(d), "")
  {
    assert d[..8] == d;
  }
}
