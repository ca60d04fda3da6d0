/** The avatar helpers of the glass UI (src/components/ui/glass-avatar.tsx):
    `getInitials` and `getColor`. Characters are Unicode scalar values. */
module Avatar {
  import opened Wrappers
  import opened Strings
  import opened JsNumber

  // ---------------------------------------------------------------------------
  // Initials
  // ---------------------------------------------------------------------------

  /** `pieces.map(n => n[0]).join("")`: the first character of every non-empty
      piece (`undefined` joins as nothing). */
  function Heads(pieces: seq<string>): (r: string)
    ensures |r| <= |pieces|
  {
    if |pieces| == 0 then []
    else (if pieces[0] != [] then [pieces[0][0]] else []) + Heads(pieces[1..])
  }

  /** `getInitials`: the first character of each space-separated piece,
      uppercased, at most two. */
  function Initials(name: string): (r: string)
    ensures |r| <= 2
  {
    Take(ToUpper(Heads(Split(name, " "))), 2)
  }

  /** Reference definition: the characters that start a word, i.e. non-space
      characters at the start of `s` (when `atStart`) or right after a space. */
  function WordStarts(s: string, atStart: bool): string {
    if |s| == 0 then []
    else (if atStart && s[0] != ' ' then [s[0]] else []) + WordStarts(s[1..], s[0] == ' ')
  }

  /** Inside a space-free run only its first character can start a word. */
  lemma {:induction false} WordStartsSpaceFree(p: string, rest: string, atStart: bool)
    requires ' ' !in p
    ensures WordStarts(p + rest, atStart) ==
            (if p != [] && atStart then [p[0]] else []) + WordStarts(rest, if p == [] then atStart else false)
    decreases |p|
  {
    if p != [] {
      assert (p + rest)[1..] == p[1..] + rest;
      WordStartsSpaceFree(p[1..], rest, false);
    } else {
      assert p + rest == rest;
    }
  }

  /** Splitting on single spaces and taking heads picks exactly the word-start
      characters: empty pieces from leading or doubled spaces contribute
      nothing. */
  lemma {:induction false} HeadsOfSplit(s: string)
    ensures Heads(Split(s, " ")) == WordStarts(s, true)
    decreases |s|
  {
    match IndexOf(s, " ", 0)
    case None =>
      assert Split(s, " ") == [s];
      NoSpaceWordStarts(s);
    case Some(i) =>
      var rest := s[i + 1..];
      assert Split(s, " ") == [s[..i]] + Split(rest, " ");
      HeadsOfSplit(rest);
      FirstSpaceSplits(s, i);
      assert s == s[..i] + " " + rest;
      SpaceWordStarts(s[..i], rest);
      assert Split(s, " ")[1..] == Split(rest, " ");
  }

  /** A name without spaces is one word. */
  lemma NoSpaceWordStarts(s: string)
    requires IndexOf(s, " ", 0).None?
    ensures Heads([s]) == WordStarts(s, true)
  {
    NoSpaceBefore(s, |s|);
    assert s[..|s|] == s;
    WordStartsSpaceFree(s, [], true);
    assert s + [] == s;
    assert [s][1..] == [];
  }

  /** At the first space, the word before it contributes its first character
      and word starts resume after the space. */
  lemma SpaceWordStarts(p: string, rest: string)
    requires ' ' !in p
    ensures WordStarts(p + " " + rest, true)
            == (if p != [] then [p[0]] else []) + WordStarts(rest, true)
  {
    assert p + " " + rest == p + (" " + rest);
    WordStartsSpaceFree(p, " " + rest, true);
    AfterSpace(rest, p == []);
  }

  /** A space ends the current word, whatever came before. */
  lemma AfterSpace(rest: string, atStart: bool)
    ensures WordStarts(" " + rest, atStart) == WordStarts(rest, true)
  {
    var sp := " " + rest;
    assert sp[1..] == rest;
    assert [] + WordStarts(rest, true) == WordStarts(rest, true);
  }

  lemma FirstSpaceSplits(s: string, i: nat)
    requires IndexOf(s, " ", 0) == Some(i)
    ensures i < |s| && s[i] == ' ' && ' ' !in s[..i]
  {
    SpaceAt(s, i);
    NoSpaceBefore(s, i);
  }

  lemma SpaceAt(s: string, i: nat)
    requires OccursAt(s, " ", i)
    ensures i < |s| && s[i] == ' '
  {
    assert s[i..i + 1][0] == s[i];
  }

  /** Where `" "` occurs nowhere before `i`, no character before `i` is a space. */
  lemma NoSpaceBefore(s: string, i: nat)
    requires i <= |s| && forall j :: 0 <= j < i ==> !OccursAt(s, " ", j)
    ensures ' ' !in s[..i]
  {
    forall k | 0 <= k < i ensures s[k] != ' ' {
      assert !OccursAt(s, " ", k);
      assert s[k..k + 1] == [s[k]];
    }
  }

  /** `getInitials` uppercases the word-start characters and keeps the first
      two; an empty name gives the empty string. */
  lemma InitialsAreWordStarts(name: string)
    ensures Initials(name) == Take(ToUpper(WordStarts(name, true)), 2)
  {
    HeadsOfSplit(name);
  }

  lemma EmptyNameNoInitials()
    ensures Initials("") == ""
  {
    InitialsAreWordStarts("");
  }

  // ---------------------------------------------------------------------------
  // Colour
  // ---------------------------------------------------------------------------

  const Colors: seq<string> := [
    "from-indigo-500 to-purple-500",
    "from-emerald-500 to-teal-500",
    "from-amber-500 to-orange-500",
    "from-rose-500 to-pink-500",
    "from-cyan-500 to-blue-500"
  ]

  /** `hash = code + ((hash << 5) - hash)`: `<<` works on the 32-bit value of
      `hash` and yields a 32-bit value; the rest is exact arithmetic. */
  function HashStep(hash: int, code: int): int {
    code + (ToInt32(ToInt32(hash) * 32) - hash)
  }

  /** The hash after the whole name, starting from 0. */
  function Hash(s: string): int {
    if |s| == 0 then 0 else HashStep(Hash(s[..|s| - 1]), s[|s| - 1] as int)
  }

  function Abs(x: int): nat {
    if x < 0 then -x else x
  }

  /** The hash moves by less than `2^31 + 0x110000` per character, so it stays
      far inside the exactly representable range for any realistic name. */
  lemma {:induction false} HashBound(s: string)
    ensures Abs(Hash(s)) <= |s| * (TwoTo31 + 0x110000)
  {
    if |s| > 0 {
      HashBound(s[..|s| - 1]);
      var h := Hash(s[..|s| - 1]);
      var sh := ToInt32(ToInt32(h) * 32);
      assert -TwoTo31 <= sh < TwoTo31;
      assert 0 <= s[|s| - 1] as int < 0x110000;
    }
  }

  /** `getColor`: hash the name character by character, then pick the colour
      at `|hash| mod 5`. */
  method GetColor(name: string) returns (color: string, hash: int)
    ensures hash == Hash(name)
    ensures color == Colors[Abs(hash) % |Colors|]
    ensures color in Colors
  {
    hash := 0;
    var i := 0;
    while i < |name|
      invariant 0 <= i <= |name|
      invariant hash == Hash(name[..i])
    {
      assert name[..i + 1][..i] == name[..i];
      hash := HashStep(hash, name[i] as int);
      i := i + 1;
    }
    assert name[..i] == name;
    color := Colors[Abs(hash) % |Colors|];
  }

  /** Reference definition: the polynomial string hash
      `s[0]*31^(n-1) + ... + s[n-1]`, in exact arithmetic. */
  function Poly(s: string): int {
    if |s| == 0 then 0 else 31 * Poly(s[..|s| - 1]) + s[|s| - 1] as int
  }

  /** `a` and `b` agree modulo 2^32. */
  predicate Congruent32(a: int, b: int) {
    (a - b) % TwoTo32 == 0
  }

  /** Each step multiplies by 31 modulo 2^32: `(h << 5) - h` is `31 h` up to
      a multiple of 2^32. */
  lemma StepCongruent(h: int, p: int, c: int)
    requires Congruent32(h, p)
    ensures Congruent32(HashStep(h, c), 31 * p + c)
  {
    var t := ToInt32(h);
    var q1 := (h - t) / TwoTo32;
    var q2 := (t * 32 - ToInt32(t * 32)) / TwoTo32;
    var q3 := (h - p) / TwoTo32;
    assert HashStep(h, c) - (31 * p + c) == TwoTo32 * (31 * q3 - 32 * q1 - q2);
  }

  /** `getColor`'s hash is the polynomial hash with base 31 taken modulo 2^32:
      the 32-bit shift loses only multiples of 2^32. This pins the hash only
      up to multiples of 2^32; the colour index `|hash| mod 5` is taken of the
      exact, unreduced value, so it is fixed by `Hash` and not by `Poly`. */
  lemma {:induction false} HashIsPolynomial(s: string)
    ensures Congruent32(Hash(s), Poly(s))
  {
    if |s| > 0 {
      HashIsPolynomial(s[..|s| - 1]);
      StepCongruent(Hash(s[..|s| - 1]), Poly(s[..|s| - 1]), s[|s| - 1] as int);
    }
  }

  /** The empty name gets the first colour. */
  lemma EmptyNameFirstColor()
    ensures Colors[Abs(Hash("")) % |Colors|] == Colors[0]
  {
  }

  /** A one-character name hashes to its character code: the shift of 0 is 0. */
  lemma SingleCharHash(c: char)
    ensures Hash([c]) == c as int
  {
    assert [c][..0] == [];
  }
}
