/** The text layer of the inbound-email ICS parser (api/inbound-email.js, the
    `get` helper and the three `replace` chains of `parseICS`): line unfolding,
    property lookup and TEXT un-escaping, as the code's regular expressions
    behave — a loose approximation of sections 3.1 and 3.3.11 of RFC 5545. */
module IcsText {
  import opened Wrappers
  import opened Strings

  // ---------------------------------------------------------------------------
  // Line unfolding: `block.replace(/\r?\n[ \t]/g, '')`
  // ---------------------------------------------------------------------------

  predicate IsFoldSpace(c: char) {
    c == ' ' || c == '\t'
  }

  /** The four spellings of a line break the unfolding regex removes. */
  predicate IsFoldBreak(b: string) {
    || (|b| == 3 && b[0] == '\r' && b[1] == '\n' && IsFoldSpace(b[2]))
    || (|b| == 2 && b[0] == '\n' && IsFoldSpace(b[1]))
  }

  /** Deletes, left to right and without re-scanning, every CR LF or LF that is
      followed by a space or a tab, together with that space or tab. */
  function Unfold(s: string): (r: string)
    ensures |r| <= |s|
    ensures forall c :: c in r ==> c in s
  {
    if |s| == 0 then []
    else if |s| >= 3 && s[0] == '\r' && s[1] == '\n' && IsFoldSpace(s[2]) then Unfold(s[3..])
    else if |s| >= 2 && s[0] == '\n' && IsFoldSpace(s[1]) then Unfold(s[2..])
    else [s[0]] + Unfold(s[1..])
  }

  predicate NoLineBreak(s: string) {
    forall k :: 0 <= k < |s| ==> s[k] != '\r' && s[k] != '\n'
  }

  /** Text without CR or LF passes through unfolding unchanged and does not
      interact with what follows it. */
  lemma {:induction false} UnfoldPlainPrefix(a: string, t: string)
    requires NoLineBreak(a)
    ensures Unfold(a + t) == a + Unfold(t)
  {
    if |a| > 0 {
      assert (a + t)[1..] == a[1..] + t;
      UnfoldPlainPrefix(a[1..], t);
    } else {
      assert a + t == t;
    }
  }

  lemma UnfoldBreak(b: string, t: string)
    requires IsFoldBreak(b)
    ensures Unfold(b + t) == Unfold(t)
  {
    if |b| == 3 {
      assert (b + t)[3..] == t;
    } else {
      assert (b + t)[2..] == t;
    }
  }

  /** An LF that is not followed by a space or a tab is kept, and unfolding
      carries on right after it. */
  lemma UnfoldKeepsLF(t: string)
    requires t == [] || !IsFoldSpace(t[0])
    ensures Unfold("\n" + t) == "\n" + Unfold(t)
  {
    assert ("\n" + t)[1..] == t;
  }

  /** A CR that does not start a CR LF fold is kept, and unfolding carries on
      right after it; a following LF is then judged on its own. */
  lemma UnfoldKeepsCR(t: string)
    requires !(|t| >= 2 && t[0] == '\n' && IsFoldSpace(t[1]))
    ensures Unfold("\r" + t) == "\r" + Unfold(t)
  {
    assert ("\r" + t)[1..] == t;
  }

  /** Unfolding inverts folding (RFC 5545 section 3.1): content split into
      segments without line breaks and re-joined with any fold break unfolds
      to the concatenated content, with no separator. */
  lemma {:induction false} UnfoldInvertsFolding(segs: seq<string>, b: string)
    requires IsFoldBreak(b)
    requires forall k :: 0 <= k < |segs| ==> NoLineBreak(segs[k])
    ensures Unfold(Join(segs, b)) == Join(segs, "")
  {
    if |segs| == 1 {
      UnfoldPlainPrefix(segs[0], []);
      assert segs[0] + [] == segs[0];
    } else if |segs| > 1 {
      var head, rest := segs[0], segs[1..];
      var tail := Join(rest, b);
      assert forall k :: 0 <= k < |rest| ==> NoLineBreak(rest[k]) by {
        forall k | 0 <= k < |rest| ensures NoLineBreak(rest[k]) {
          assert rest[k] == segs[k + 1];
        }
      }
      JoinCons(segs, b);
      JoinCons(segs, "");
      UnfoldPlainPrefix(head, b + tail);
      UnfoldBreak(b, tail);
      UnfoldInvertsFolding(rest, b);
      assert "" + Join(rest, "") == Join(rest, "");
    }
  }

  lemma JoinCons(parts: seq<string>, sep: string)
    requires |parts| > 1
    ensures Join(parts, sep) == parts[0] + (sep + Join(parts[1..], sep))
  {
    assert parts[0] + sep + Join(parts[1..], sep) == parts[0] + (sep + Join(parts[1..], sep));
  }

  // ---------------------------------------------------------------------------
  // Property lookup: `(?:^|\n)KEY(?:;[^:]*)?:([^\n]*)`, flag `i`, first match
  // ---------------------------------------------------------------------------

  /** `q` is the start of a line: the start of the text or just after an LF. */
  predicate LineStart(u: string, q: int) {
    q == 0 || (0 < q <= |u| && u[q - 1] == '\n')
  }

  /** The property name occurs at `q`, compared as the `i` flag compares
      (case-insensitively on the ASCII letters). */
  predicate KeyAt(u: string, key: string, q: nat) {
    q + |key| <= |u| && forall j :: 0 <= j < |key| ==> UpperChar(u[q + j]) == UpperChar(key[j])
  }

  /** Where the value begins for a name matched at `q`: right after a `:` that
      follows the name directly, or after the first `:` following a `;` that
      follows the name (the parameter part `[^:]*` may cross line ends). */
  function ValueStart(u: string, key: string, q: nat): (r: Option<nat>)
    requires KeyAt(u, key, q)
    ensures r.Some? ==> q + |key| < r.value <= |u| && u[r.value - 1] == ':'
  {
    var n := q + |key|;
    if n < |u| && u[n] == ';' then
      match IndexOf(u, ":", n + 1)
      case Some(c) => Some(c + 1)
      case None => None
    else if n < |u| && u[n] == ':' then Some(n + 1)
    else None
  }

  /** The characters from `v` up to, not including, the next LF (`[^\n]*`). */
  function RestOfLine(u: string, v: nat): (r: string)
    requires v <= |u|
    ensures forall k :: 0 <= k < |r| ==> r[k] != '\n'
    ensures v + |r| <= |u| && u[v..v + |r|] == r
    ensures v + |r| == |u| || u[v + |r|] == '\n'
  {
    match IndexOf(u, "\n", v)
    case Some(e) =>
      assert forall k :: v <= k < e ==> u[k] != '\n' by {
        forall k | v <= k < e ensures u[k] != '\n' {
          assert !OccursAt(u, "\n", k);
          assert u[k..k + 1] == [u[k]];
        }
      }
      assert u[e..e + 1] == "\n" && u[e] == u[e..e + 1][0];
      var r := u[v..e];
      assert v + |r| == e;
      r
    case None =>
      assert forall k :: v <= k < |u| ==> u[k] != '\n' by {
        forall k | v <= k < |u| ensures u[k] != '\n' {
          assert !OccursAt(u, "\n", k);
          assert u[k..k + 1] == [u[k]];
        }
      }
      u[v..]
  }

  /** What the regular expression captures when its match sets the name at `q`. */
  function MatchAt(u: string, key: string, q: nat): Option<string> {
    if LineStart(u, q) && KeyAt(u, key, q) then
      match ValueStart(u, key, q)
      case Some(v) => Some(RestOfLine(u, v))
      case None => None
    else None
  }

  /** The regex engine's scan: the first name position at or after `q` that
      yields a match. */
  function FirstMatch(u: string, key: string, q: nat): (r: Option<nat>)
    decreases |u| + 1 - q
    ensures r.Some? ==> q <= r.value && MatchAt(u, key, r.value).Some?
    ensures r.Some? ==> forall p :: q <= p < r.value ==> MatchAt(u, key, p).None?
    ensures r.None? ==> forall p :: q <= p ==> MatchAt(u, key, p).None?
  {
    if q > |u| then None
    else if MatchAt(u, key, q).Some? then Some(q)
    else FirstMatch(u, key, q + 1)
  }

  /** The name at `q` gives the first match of the whole text. */
  predicate IsFirstMatch(u: string, key: string, q: nat) {
    MatchAt(u, key, q).Some? && forall p :: 0 <= p < q ==> MatchAt(u, key, p).None?
  }

  /** No line of the text names the property. */
  ghost predicate NoMatch(u: string, key: string) {
    forall q :: MatchAt(u, key, q).None?
  }

  /** `get(key)`. */
  function FieldValue(block: string, key: string): string {
    var u := Unfold(block);
    match FirstMatch(u, key, 0)
    case Some(q) => Trim(MatchAt(u, key, q).value)
    case None => []
  }

  /** `get(key)` is the trimmed value of the first line of the unfolded block
      that names `key`. */
  lemma FieldValueFound(block: string, key: string, q: nat)
    requires IsFirstMatch(Unfold(block), key, q)
    ensures FieldValue(block, key) == Trim(MatchAt(Unfold(block), key, q).value)
  {
    var u := Unfold(block);
    var f := FirstMatch(u, key, 0);
    if f.Some? {
      assert !(f.value < q) && !(q < f.value);
    }
  }

  /** `get(key)` is `""` when no line of the unfolded block names `key`. */
  lemma FieldValueAbsent(block: string, key: string)
    requires NoMatch(Unfold(block), key)
    ensures FieldValue(block, key) == []
  {
    assert FirstMatch(Unfold(block), key, 0).None?;
  }

  /** A block whose first line is `KEY:value`, with the next line not a
      continuation, yields that trimmed value, whatever later lines say. */
  lemma FirstLineValue(key: string, v: string, rest: string)
    requires |key| > 0 && NoLineBreak(key) && ':' !in key && ';' !in key
    requires NoLineBreak(v)
    requires rest == [] || !IsFoldSpace(rest[0])
    ensures FieldValue(key + ":" + v + "\n" + rest, key) == Trim(v)
  {
    var u := UnfoldFirstLine(key, v, rest);
    MatchFirstLine(u, key, v, Unfold(rest));
    assert FirstMatch(u, key, 0) == Some(0);
  }

  lemma UnfoldFirstLine(key: string, v: string, rest: string) returns (u: string)
    requires NoLineBreak(key) && NoLineBreak(v)
    requires rest == [] || !IsFoldSpace(rest[0])
    ensures u == Unfold(key + ":" + v + "\n" + rest)
    ensures u == key + ":" + v + "\n" + Unfold(rest)
  {
    var line := key + ":" + v;
    assert NoLineBreak(line) by {
      forall k | 0 <= k < |line| ensures line[k] != '\r' && line[k] != '\n' {
        if k < |key| { assert line[k] == key[k]; }
        else if k > |key| { assert line[k] == v[k - |key| - 1]; }
      }
    }
    assert key + ":" + v + "\n" + rest == line + ("\n" + rest);
    UnfoldPlainPrefix(line, "\n" + rest);
    assert ("\n" + rest)[1..] == rest;
    u := Unfold(key + ":" + v + "\n" + rest);
  }

  lemma MatchFirstLine(u: string, key: string, v: string, t: string)
    requires |key| > 0 && ':' !in key && ';' !in key && NoLineBreak(v)
    requires u == key + ":" + v + "\n" + t
    ensures MatchAt(u, key, 0) == Some(v)
  {
    assert KeyAt(u, key, 0) by {
      forall j | 0 <= j < |key| ensures u[j] == key[j] { }
    }
    assert u[|key|] == ':';
    assert ValueStart(u, key, 0) == Some(|key| + 1);
    var w := RestOfLine(u, |key| + 1);
    var n := |key| + 1 + |v|;
    assert u[|key| + 1..n] == v;
    assert u[n] == '\n';
    assert forall k :: |key| + 1 <= k < n ==> u[k] != '\n' by {
      forall k | |key| + 1 <= k < n ensures u[k] != '\n' {
        assert u[k] == v[k - |key| - 1];
      }
    }
    assert |w| == |v|;
  }

  // ---------------------------------------------------------------------------
  // TEXT un-escaping: the `replace` chains applied to SUMMARY, DESCRIPTION and
  // LOCATION
  // ---------------------------------------------------------------------------

  /** `replace(/\\x/g, rep)`: every backslash followed by `x`, scanning left to
      right without overlap, becomes `rep`. */
  function ReplaceEscape(s: string, x: char, rep: string): string {
    if |s| == 0 then []
    else if |s| >= 2 && s[0] == '\\' && s[1] == x then rep + ReplaceEscape(s[2..], x, rep)
    else [s[0]] + ReplaceEscape(s[1..], x, rep)
  }

  /** `replace(/\\/g, '')`: the text with its backslashes deleted and every other
      character kept, in order. */
  function DropBackslashes(s: string): (r: string)
    ensures '\\' !in r
    ensures forall c :: c in r <==> c in s && c != '\\'
    ensures '\\' !in s ==> r == s
  {
    if |s| == 0 then []
    else if s[0] == '\\' then DropBackslashes(s[1..])
    else [s[0]] + DropBackslashes(s[1..])
  }

  /** The shared chain of SUMMARY and DESCRIPTION: `\,` to `,`, `\n` to `nl`,
      then every backslash deleted. */
  function UnescapeText(s: string, nl: string): (r: string)
    ensures '\\' !in r
  {
    DropBackslashes(ReplaceEscape(ReplaceEscape(s, ',', ","), 'n', nl))
  }

  /** SUMMARY: `\n` becomes a space. */
  function UnescapeSummary(s: string): (r: string)
    ensures '\\' !in r
  {
    UnescapeText(s, " ")
  }

  /** DESCRIPTION: `\n` becomes a line feed. */
  function UnescapeDescription(s: string): (r: string)
    ensures '\\' !in r
  {
    UnescapeText(s, "\n")
  }

  /** LOCATION: `\,` to `,`, then every backslash deleted (so `\n` becomes `n`). */
  function UnescapeLocation(s: string): (r: string)
    ensures '\\' !in r
  {
    DropBackslashes(ReplaceEscape(s, ',', ","))
  }

  /** RFC 5545 section 3.3.11 TEXT escaping, the encoder the un-escaping is meant
      to invert: backslash, semicolon and comma get a backslash, a line feed
      becomes `\n`. */
  function EscapeChar(c: char): string {
    if c == '\\' then "\\\\"
    else if c == ';' then "\\;"
    else if c == ',' then "\\,"
    else if c == '\n' then "\\n"
    else [c]
  }

  function EscapeText(s: string): string {
    if |s| == 0 then [] else EscapeChar(s[0]) + EscapeText(s[1..])
  }

  /** `s` with every line feed replaced by `nl`. */
  function ReplaceNewlines(s: string, nl: string): string {
    if |s| == 0 then []
    else (if s[0] == '\n' then nl else [s[0]]) + ReplaceNewlines(s[1..], nl)
  }

  /** The escaped text after the `\,` pass. */
  function AfterCommaPass(s: string): string {
    if |s| == 0 then []
    else (if s[0] == ',' then "," else EscapeChar(s[0])) + AfterCommaPass(s[1..])
  }

  /** The escaped text after the `\,` and `\n` passes. */
  function AfterNewlinePass(s: string, nl: string): string {
    if |s| == 0 then []
    else (if s[0] == ',' then "," else if s[0] == '\n' then nl else EscapeChar(s[0]))
         + AfterNewlinePass(s[1..], nl)
  }

  /** A character other than a backslash passes through a `replace` pass. */
  lemma ReplacePlain(c: char, t: string, x: char, rep: string)
    requires c != '\\'
    ensures ReplaceEscape([c] + t, x, rep) == [c] + ReplaceEscape(t, x, rep)
  {
    assert ([c] + t)[1..] == t;
  }

  /** An escape pair whose second character is not a backslash is replaced
      when it is the one the pass looks for, and kept otherwise. */
  lemma ReplacePair(d: char, t: string, x: char, rep: string)
    requires d != '\\'
    ensures ReplaceEscape(['\\', d] + t, x, rep)
            == (if d == x then rep else ['\\', d]) + ReplaceEscape(t, x, rep)
  {
    var e := ['\\', d] + t;
    if d == x {
      assert e[2..] == t;
    } else {
      assert e[1..] == [d] + t;
      ReplacePlain(d, t, x, rep);
    }
  }

  lemma {:induction false} CommaPass(s: string)
    requires '\\' !in s
    ensures ReplaceEscape(EscapeText(s), ',', ",") == AfterCommaPass(s)
  {
    if |s| > 0 {
      var c, t := s[0], EscapeText(s[1..]);
      assert '\\' !in s[1..] by { assert forall k :: 0 <= k < |s[1..]| ==> s[1..][k] == s[k + 1]; }
      CommaPass(s[1..]);
      if c == ',' {
        ReplacePair(',', t, ',', ",");
      } else if c == ';' {
        ReplacePair(';', t, ',', ",");
      } else if c == '\n' {
        ReplacePair('n', t, ',', ",");
      } else {
        ReplacePlain(c, t, ',', ",");
      }
    }
  }

  lemma {:induction false} NewlinePass(s: string, nl: string)
    requires '\\' !in s && '\\' !in nl
    ensures ReplaceEscape(AfterCommaPass(s), 'n', nl) == AfterNewlinePass(s, nl)
  {
    if |s| > 0 {
      var c, t := s[0], AfterCommaPass(s[1..]);
      assert '\\' !in s[1..] by { assert forall k :: 0 <= k < |s[1..]| ==> s[1..][k] == s[k + 1]; }
      NewlinePass(s[1..], nl);
      if c == ';' {
        ReplacePair(';', t, 'n', nl);
      } else if c == '\n' {
        ReplacePair('n', t, 'n', nl);
      } else {
        ReplacePlain(c, t, 'n', nl);
      }
    }
  }

  lemma {:induction false} DropPass(s: string, nl: string)
    requires '\\' !in s && '\\' !in nl
    ensures DropBackslashes(AfterNewlinePass(s, nl)) == ReplaceNewlines(s, nl)
  {
    if |s| > 0 {
      var c := s[0];
      assert '\\' !in s[1..] by { assert forall k :: 0 <= k < |s[1..]| ==> s[1..][k] == s[k + 1]; }
      DropPass(s[1..], nl);
      var head := if c == ',' then "," else if c == '\n' then nl else EscapeChar(c);
      var t := AfterNewlinePass(s[1..], nl);
      DropAppend(head, t);
    }
  }

  lemma {:induction false} DropAppend(a: string, b: string)
    ensures DropBackslashes(a + b) == DropBackslashes(a) + DropBackslashes(b)
  {
    if |a| > 0 {
      assert (a + b)[1..] == a[1..] + b;
      DropAppend(a[1..], b);
    } else {
      assert a + b == b;
    }
  }
  /** Deleting backslashes one character at a time: a backslash goes, any
      other character stays, and the rest is handled independently. */
  lemma DropSnoc(s: string, c: char)
    ensures DropBackslashes(s + [c]) == DropBackslashes(s) + (if c == '\\' then [] else [c])
  {
    DropAppend(s, [c]);
    assert [c][1..] == [];
  }

  /** DESCRIPTION round trip: for text without backslashes, un-escaping undoes
      RFC 5545 escaping exactly. */
  lemma DescriptionRoundTrip(s: string)
    requires '\\' !in s
    ensures UnescapeDescription(EscapeText(s)) == s
  {
    CommaPass(s);
    NewlinePass(s, "\n");
    DropPass(s, "\n");
    NewlinesToSelf(s);
  }

  lemma {:induction false} NewlinesToSelf(s: string)
    ensures ReplaceNewlines(s, "\n") == s
  {
    if |s| > 0 {
      NewlinesToSelf(s[1..]);
      assert s == [s[0]] + s[1..];
    }
  }

  /** SUMMARY round trip: the same, except that line breaks come back as spaces. */
  lemma SummaryRoundTrip(s: string)
    requires '\\' !in s
    ensures UnescapeSummary(EscapeText(s)) == ReplaceNewlines(s, " ")
  {
    CommaPass(s);
    NewlinePass(s, " ");
    DropPass(s, " ");
  }

  /** LOCATION round trip: line breaks come back as the letter `n`, because the
      `\n` pass is missing and the backslash pass keeps the `n`. */
  lemma LocationRoundTrip(s: string)
    requires '\\' !in s
    ensures UnescapeLocation(EscapeText(s)) == ReplaceNewlines(s, "n")
  {
    CommaPass(s);
    CommaOnlyDropPass(s);
  }

  lemma {:induction false} CommaOnlyDropPass(s: string)
    requires '\\' !in s
    ensures DropBackslashes(AfterCommaPass(s)) == ReplaceNewlines(s, "n")
  {
    if |s| > 0 {
      assert '\\' !in s[1..] by { assert forall k :: 0 <= k < |s[1..]| ==> s[1..][k] == s[k + 1]; }
      CommaOnlyDropPass(s[1..]);
      var c := s[0];
      DropAppend(if c == ',' then "," else EscapeChar(c), AfterCommaPass(s[1..]));
    }
  }
}
