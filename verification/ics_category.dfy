/** The title classifier of `parseICS` (api/inbound-email.js): an ordered table
    of keyword groups tested by regular-expression search on the lowercased
    title; the first group with a hit decides, OTHER when none has one. The
    categories are the `EventCategory` values of the application's schema. */
module IcsCategory {
  import opened Strings

  datatype Category = Meeting | Deadline | Review | Social | Other

  /** JavaScript's line terminators: the characters `.` does not match. */
  predicate IsLineTerminator(c: char) {
    c == '\n' || c == '\r' || c == '\U{2028}' || c == '\U{2029}'
  }

  /** One pattern character against one text character: `.` is the wildcard,
      every other pattern character stands for itself. */
  predicate CharMatches(p: char, c: char) {
    if p == '.' then !IsLineTerminator(c) else p == c
  }

  /** The pattern matches the text at position `i`. */
  predicate PatternAt(t: string, pat: string, i: int) {
    0 <= i && i + |pat| <= |t| && forall j :: 0 <= j < |pat| ==> CharMatches(pat[j], t[i + j])
  }

  /** The pattern matches somewhere in the text (an unanchored `test`). */
  ghost predicate Occurs(t: string, pat: string) {
    exists i :: PatternAt(t, pat, i)
  }

  /** The regex engine's left-to-right search for a match at or after `from`. */
  function SearchFrom(t: string, pat: string, from: nat): (b: bool)
    decreases |t| + 1 - from
    ensures b <==> exists i :: from <= i && PatternAt(t, pat, i)
  {
    if from + |pat| > |t| then false
    else if PatternAt(t, pat, from) then true
    else SearchFrom(t, pat, from + 1)
  }

  /** An alternation `a|b|...`: some alternative occurs in the text. */
  function AnyOccurs(t: string, pats: seq<string>): (b: bool)
    ensures b <==> exists k :: 0 <= k < |pats| && Occurs(t, pats[k])
  {
    if |pats| == 0 then false
    else
      assert SearchFrom(t, pats[0], 0) <==> Occurs(t, pats[0]);
      SearchFrom(t, pats[0], 0) || AnyOccurs(t, pats[1..])
  }

  datatype Rule = Rule(category: Category, patterns: seq<string>)

  /** The four keyword groups, in the order the code tests them. */
  const Rules: seq<Rule> := [
    Rule(Meeting,  ["meeting", "sync", "standup", "call", "interview", "1:1", "one.on.one"]),
    Rule(Deadline, ["deadline", "due", "submit", "submission"]),
    Rule(Review,   ["review", "feedback", "assessment", "evaluation"]),
    Rule(Social,   ["lunch", "social", "team.day", "offsite", "party", "happy.hour"])
  ]

  /** The rule `k` fires on the lowercased title `tl`. */
  ghost predicate Fires(tl: string, k: int)
    requires 0 <= k < |Rules|
  {
    exists j :: 0 <= j < |Rules[k].patterns| && Occurs(tl, Rules[k].patterns[j])
  }

  /** The first rule at or after `k` that fires decides; OTHER when none does. */
  function FirstRule(tl: string, k: nat): (c: Category)
    requires k <= |Rules|
    decreases |Rules| - k
    ensures c == Other <==> forall m :: k <= m < |Rules| ==> !Fires(tl, m)
    ensures c != Other ==> exists m :: k <= m < |Rules| && Rules[m].category == c && Fires(tl, m)
                                       && forall m' :: k <= m' < m ==> !Fires(tl, m')
  {
    if k == |Rules| then Other
    else if AnyOccurs(tl, Rules[k].patterns) then
      assert Rules[k].category != Other && Fires(tl, k);
      Rules[k].category
    else FirstRule(tl, k + 1)
  }

  /** The category of an event title. */
  function Classify(title: string): (c: Category)
    ensures c == Other <==> forall m :: 0 <= m < |Rules| ==> !Fires(ToLower(title), m)
    ensures c != Other ==> exists m :: 0 <= m < |Rules| && Rules[m].category == c
                                       && Fires(ToLower(title), m)
                                       && forall m' :: 0 <= m' < m ==> !Fires(ToLower(title), m')
  {
    FirstRule(ToLower(title), 0)
  }

  /** Spelled in the order of the rules: a meeting word wins over every other
      group, a deadline word over review and social words, and so on. */
  lemma ClassifyPriority(title: string)
    ensures var tl := ToLower(title);
      && (Classify(title) == Meeting <==> Fires(tl, 0))
      && (Classify(title) == Deadline <==> !Fires(tl, 0) && Fires(tl, 1))
      && (Classify(title) == Review <==> !Fires(tl, 0) && !Fires(tl, 1) && Fires(tl, 2))
      && (Classify(title) == Social <==> !Fires(tl, 0) && !Fires(tl, 1) && !Fires(tl, 2) && Fires(tl, 3))
  {
  }

  /** A meeting keyword anywhere in the title makes the event a MEETING,
      whatever else the title says. */
  lemma MeetingWordWins(title: string, j: nat, i: nat)
    requires j < |Rules[0].patterns| && PatternAt(ToLower(title), Rules[0].patterns[j], i)
    ensures Classify(title) == Meeting
  {
    assert Fires(ToLower(title), 0);
  }

  /** A title mentioning both a review and a stand-up is a MEETING: the first
      group with a hit decides. */
  lemma StandupReviewIsMeeting()
    ensures Classify("Q2 Budget Review \U{2014} Standup") == Meeting
  {
    MeetingWordWins("Q2 Budget Review \U{2014} Standup", 2, 19);
  }

  /** Matching is by substring: "recall" contains "call". */
  lemma RecallIsMeeting()
    ensures Classify("Product recall") == Meeting
  {
    MeetingWordWins("Product recall", 3, 10);
  }

  /** `.` stands for any separator: "One-on-One" matches "one.on.one". */
  lemma OneOnOneIsMeeting()
    ensures Classify("One-on-One with Sam") == Meeting
  {
    MeetingWordWins("One-on-One with Sam", 6, 0);
  }
}
