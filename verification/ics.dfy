/** `parseICS` (api/inbound-email.js): the text is cut at every
    `BEGIN:VEVENT`, the piece before the first marker is discarded, and each
    remaining block independently yields at most one event record. */
module Ics {
  import opened Wrappers
  import opened Strings
  import opened IcsText
  import opened IcsDate
  import opened IcsCategory

  const EventMarker: string := "BEGIN:VEVENT"

  /** The provenance tag every record carries. */
  const CreatedBy: string := "email-inbound"

  /** The record written to the store; `None` stands for JSON `null`. */
  datatype Event = Event(
    title: string,
    description: Option<string>,
    date: string,
    endDate: Option<string>,
    startTime: Option<string>,
    endTime: Option<string>,
    category: Category,
    location: Option<string>,
    createdBy: string)

  /** `s || null`: the empty string becomes `null`. */
  function OrNull(s: string): (r: Option<string>)
    ensures r.None? <==> s == []
    ensures r.Some? ==> r.value == s
  {
    if s == [] then None else Some(s)
  }

  /** An optional text field: absent, or non-empty without backslashes. */
  predicate CleanOptional(o: Option<string>) {
    o.Some? ==> o.value != [] && '\\' !in o.value
  }

  /** The invariants of every record the parser emits. */
  predicate WellFormed(e: Event) {
    && e.title != [] && '\\' !in e.title
    && CleanOptional(e.description) && CleanOptional(e.location)
    && IsDateText(e.date)
    && (e.endDate.Some? ==> IsDateText(e.endDate.value) && e.endDate.value != e.date)
    && (e.startTime.Some? ==> IsTimeText(e.startTime.value))
    && (e.endTime.Some? ==> IsTimeText(e.endTime.value))
    && e.category == Classify(e.title)
    && e.createdBy == CreatedBy
  }

  /** The `end_date` rule: the decoded end date, only when it is non-empty and
      differs from the decoded start date; so it is never equal to `date`. */
  function EndDate(start: Decoded, end: Decoded): (r: Option<string>)
    ensures r.Some? <==> end.date != [] && end.date != start.date
    ensures r.Some? ==> r.value == end.date
  {
    if end.date != [] && end.date != start.date then Some(end.date) else None
  }

  /** One VEVENT block. It yields a record exactly when its DTSTART value is
      non-empty, its un-escaped SUMMARY is non-empty and its start date decodes;
      the record's `end_time` comes from DTEND whether or not `end_date` is set. */
  function ParseBlock(block: string): (r: Option<Event>)
    ensures var rawStart := FieldValue(block, "DTSTART");
      r.Some? <==> (rawStart != [] && UnescapeSummary(FieldValue(block, "SUMMARY")) != []
                    && ParseDate(rawStart).date != [])
    ensures r.Some? ==> WellFormed(r.value)
  {
    var rawStart := FieldValue(block, "DTSTART");
    var rawEnd := FieldValue(block, "DTEND");
    var summary := UnescapeSummary(FieldValue(block, "SUMMARY"));
    var description := UnescapeDescription(FieldValue(block, "DESCRIPTION"));
    var location := UnescapeLocation(FieldValue(block, "LOCATION"));
    if rawStart == [] || summary == [] then None
    else
      var start := ParseDate(rawStart);
      var end := if rawEnd != [] then ParseDate(rawEnd) else Decoded([], []);
      assert end == ParseDate(rawEnd);
      if start.date == [] then None
      else
        Some(Event(
          title := summary,
          description := OrNull(description),
          date := start.date,
          endDate := EndDate(start, end),
          startTime := OrNull(start.time),
          endTime := OrNull(end.time),
          category := Classify(summary),
          location := OrNull(location),
          createdBy := CreatedBy))
  }

  /** Where each field of a block's record comes from: the title from SUMMARY,
      the start date and time from DTSTART, the end time from DTEND whether or
      not `end_date` is set. */
  lemma ParseBlockFields(block: string)
    requires ParseBlock(block).Some?
    ensures var e := ParseBlock(block).value;
      var start := ParseDate(FieldValue(block, "DTSTART"));
      var end := ParseDate(FieldValue(block, "DTEND"));
      && e.title == UnescapeSummary(FieldValue(block, "SUMMARY"))
      && e.description == OrNull(UnescapeDescription(FieldValue(block, "DESCRIPTION")))
      && e.location == OrNull(UnescapeLocation(FieldValue(block, "LOCATION")))
      && e.date == start.date
      && e.startTime == OrNull(start.time)
      && e.endDate == EndDate(start, end)
      && e.endTime == OrNull(end.time)
  {
  }

  /** Each block's parse, in block order. */
  function ParseBlocks(blocks: seq<string>): (r: seq<Option<Event>>)
    ensures |r| == |blocks|
    ensures forall k :: 0 <= k < |r| ==> r[k] == ParseBlock(blocks[k])
  {
    seq(|blocks|, k requires 0 <= k < |blocks| => ParseBlock(blocks[k]))
  }

  /** The records of a list of blocks, in block order, at most one per block. */
  function EventsOf(blocks: seq<string>): (r: seq<Event>)
    ensures |r| <= |blocks|
    ensures forall k :: 0 <= k < |r| ==> WellFormed(r[k])
  {
    var parsed := ParseBlocks(blocks);
    var r := Somes(parsed);
    assert forall k :: 0 <= k < |r| ==> WellFormed(r[k]) by {
      forall k | 0 <= k < |r| ensures WellFormed(r[k]) {
        var i :| 0 <= i < |parsed| && parsed[i] == Some(r[k]);
        assert ParseBlock(blocks[i]) == Some(r[k]);
      }
    }
    r
  }

  /** The blocks of a calendar text: what follows each `BEGIN:VEVENT`. */
  function Blocks(text: string): (r: seq<string>)
    ensures forall k :: 0 <= k < |r| ==> !Contains(r[k], EventMarker)
  {
    Split(text, EventMarker)[1..]
  }

  /** `parseICS`: every record is well formed, and there are no more records
      than `BEGIN:VEVENT` markers. */
  function ParseIcs(text: string): (r: seq<Event>)
    ensures |r| <= |Split(text, EventMarker)| - 1
    ensures forall k :: 0 <= k < |r| ==> WellFormed(r[k])
  {
    EventsOf(Blocks(text))
  }

  /** Blocks are independent: the records of two runs of blocks are the
      records of each run, concatenated in order. */
  lemma EventsOfAppend(a: seq<string>, b: seq<string>)
    ensures EventsOf(a + b) == EventsOf(a) + EventsOf(b)
  {
    ParseBlocksAppend(a, b);
    SomesAppend(ParseBlocks(a), ParseBlocks(b));
  }

  lemma ParseBlocksAppend(a: seq<string>, b: seq<string>)
    ensures ParseBlocks(a + b) == ParseBlocks(a) + ParseBlocks(b)
  {
    var l, r := ParseBlocks(a + b), ParseBlocks(a) + ParseBlocks(b);
    assert |l| == |r|;
    forall k | 0 <= k < |l| ensures l[k] == r[k] {
      if k < |a| {
        assert (a + b)[k] == a[k];
      } else {
        assert (a + b)[k] == b[k - |a|];
      }
    }
  }

  /** A single block yields its record, or nothing when it does not parse. */
  lemma SingleBlock(block: string)
    ensures EventsOf([block]) == if ParseBlock(block).Some? then [ParseBlock(block).value] else []
  {
    assert ParseBlocks([block]) == [ParseBlock(block)];
    assert [ParseBlock(block)][1..] == [];
  }

  /** The number of records is the number of blocks that parse. */
  function Accepted(blocks: seq<string>): (n: nat)
    ensures n <= |blocks|
  {
    if |blocks| == 0 then 0
    else (if ParseBlock(blocks[0]).Some? then 1 else 0) + Accepted(blocks[1..])
  }

  lemma {:induction false} EventsOfCount(blocks: seq<string>)
    ensures |EventsOf(blocks)| == Accepted(blocks)
  {
    if |blocks| > 0 {
      EventsOfCount(blocks[1..]);
      assert blocks == [blocks[0]] + blocks[1..];
      EventsOfAppend([blocks[0]], blocks[1..]);
      assert ParseBlocks([blocks[0]]) == [ParseBlock(blocks[0])];
    }
  }

  lemma MarkerHasNoSelfOverlap()
    ensures NoSelfOverlap(EventMarker)
  {
    forall k | 0 < k < |EventMarker|
      ensures EventMarker[k..] != EventMarker[..|EventMarker| - k]
    {
      assert EventMarker[k..][0] != 'B';
    }
  }

  /** Text before the first `BEGIN:VEVENT` (calendar headers) has no influence
      on the result. */
  lemma PreambleIgnored(preamble: string, rest: string)
    requires !Contains(preamble, EventMarker)
    ensures ParseIcs(preamble + EventMarker + rest) == ParseIcs(EventMarker + rest)
  {
    MarkerHasNoSelfOverlap();
    SplitAfterPrefix(preamble, EventMarker, rest);
    assert !Contains([], EventMarker);
    SplitAfterPrefix([], EventMarker, rest);
    assert [] + EventMarker + rest == EventMarker + rest;
  }

  /** Text without a `BEGIN:VEVENT` marker yields no records. */
  lemma NoMarkerNoEvents(text: string)
    requires !Contains(text, EventMarker)
    ensures ParseIcs(text) == []
  {
    var parts := Split(text, EventMarker);
    if |parts| > 1 {
      assert Join(parts, EventMarker) == parts[0] + EventMarker + Join(parts[1..], EventMarker);
      assert OccursAt(text, EventMarker, |parts[0]|) by {
        assert text[|parts[0]|..|parts[0]| + |EventMarker|] == EventMarker;
      }
    }
  }

  /** Start and end DATE-TIME values on the same day give no `end_date`,
      whatever their times. */
  lemma SameDayEndHasNoEndDate(d: string, t1: string, t2: string, z: string)
    requires |d| == 8 && AllDigits(d) && |t1| == 6 && AllDigits(t1) && |t2| == 6 && AllDigits(t2)
    requires z == "" || z == "Z"
    ensures EndDate(ParseDate(d + "T" + t1 + z), ParseDate(d + "T" + t2 + z)) == None
  {
    ParseDateTimeForm(d, t1, z);
    ParseDateTimeForm(d, t2, z);
  }

  /** DATE values on different days give `end_date`, the decoded end date. */
  lemma LaterDayEndHasEndDate(d1: string, d2: string)
    requires |d1| == 8 && AllDigits(d1) && |d2| == 8 && AllDigits(d2) && d1 != d2
    ensures EndDate(ParseDate(d1), ParseDate(d2)) == Some(FormatDate(d2))
  {
    ParseDateForm(d1);
    ParseDateForm(d2);
    DigitsOfFormatDate(d1);
    DigitsOfFormatDate(d2);
  }
}
