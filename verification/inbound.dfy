/** The inbound-email webhook handler (api/inbound-email.js, `handler`): method
    and token checks, the attachment-then-body extraction chain, parsing, and
    one store write per record with imported/errors counting. The JSON body
    parse, the base64/UTF-8 decoding of attachments and the store's answers are
    inputs of the model. */
module Inbound {
  import opened Wrappers
  import opened Strings
  import opened Ics

  /** One entry of `Attachments`: `Name` and `ContentType` as strings (`""` when
      missing) and the outcome of decoding `Content`: `None` when
      `Buffer.from(..., 'base64').toString('utf-8')` throws. */
  datatype Attachment = Attachment(name: string, contentType: string, decoded: Option<string>)

  /** The fields of the webhook payload the handler reads; missing bodies are `""`. */
  datatype Payload = Payload(attachments: seq<Attachment>, textBody: string, htmlBody: string)

  /** `payload` is `None` when the body is not JSON or parses to a falsy value;
      `token` is the `token` query parameter. */
  datatype Request = Request(verb: string, token: Option<string>, payload: Option<Payload>)

  datatype Response =
    | Preflight
    | MethodNotAllowed
    | Unauthorized
    | InvalidJson
    | NoCalendarData
    | NoValidEvents
    | Imported(imported: nat, errors: nat, total: nat)

  function StatusCode(r: Response): int {
    match r
    case Preflight => 204
    case MethodNotAllowed => 405
    case Unauthorized => 401
    case InvalidJson => 400
    case _ => 200
  }

  // ---------------------------------------------------------------------------
  // Extraction chain
  // ---------------------------------------------------------------------------

  /** The attachment filter: the lowercased name ends in `.ics`, or the
      lowercased content type mentions `calendar` or `ics`. */
  predicate IsCalendarAttachment(a: Attachment) {
    || EndsWith(ToLower(a.name), ".ics")
    || Includes(ToLower(a.contentType), "calendar")
    || Includes(ToLower(a.contentType), "ics")
  }

  /** An attachment that stops the scan: it passes the filter and decodes. */
  predicate Usable(a: Attachment) {
    IsCalendarAttachment(a) && a.decoded.Some?
  }

  /** The index of the first usable attachment at or after `from`. */
  function FirstUsable(atts: seq<Attachment>, from: nat): (r: Option<nat>)
    decreases |atts| - from
    ensures r.Some? ==> from <= r.value < |atts| && Usable(atts[r.value])
    ensures r.Some? ==> forall j :: from <= j < r.value ==> !Usable(atts[j])
    ensures r.None? ==> forall j :: from <= j < |atts| ==> !Usable(atts[j])
  {
    if from >= |atts| then None
    else if Usable(atts[from]) then Some(from)
    else FirstUsable(atts, from + 1)
  }

  /** The attachment loop: the decoded text of the first attachment that passes
      the filter and decodes, even when that text is empty; attachments that
      throw while decoding are skipped. */
  function FromAttachments(atts: seq<Attachment>): (r: Option<string>)
    ensures r.None? <==> forall j :: 0 <= j < |atts| ==> !Usable(atts[j])
    ensures FirstUsable(atts, 0).Some? ==> r == atts[FirstUsable(atts, 0).value].decoded
  {
    match FirstUsable(atts, 0)
    case Some(k) => atts[k].decoded
    case None => None
  }

  /** The body fallback: `TextBody || HtmlBody`, used only when it contains a
      `BEGIN:VCALENDAR` or `BEGIN:VEVENT` marker. */
  function FromBody(p: Payload): (r: Option<string>)
    ensures var body := if p.textBody != [] then p.textBody else p.htmlBody;
            && (r.Some? <==> Contains(body, "BEGIN:VCALENDAR") || Contains(body, "BEGIN:VEVENT"))
            && (r.Some? ==> r.value == body && r.value != [])
  {
    var body := if p.textBody != [] then p.textBody else p.htmlBody;
    if Includes(body, "BEGIN:VCALENDAR") || Includes(body, "BEGIN:VEVENT") then
      assert |body| > 0 by {
        if Includes(body, "BEGIN:VCALENDAR") {
          var i :| OccursAt(body, "BEGIN:VCALENDAR", i);
        } else {
          var i :| OccursAt(body, "BEGIN:VEVENT", i);
        }
      }
      Some(body)
    else None
  }

  /** An ordered list of extraction attempts: the first one that produced a
      non-empty text wins (`if (!icsText)` treats `""` like no result). */
  function FirstText(attempts: seq<Option<string>>): (r: Option<string>)
    ensures r.Some? ==> r.value != [] && Some(r.value) in attempts
    ensures r.None? <==> forall k :: 0 <= k < |attempts| ==> attempts[k].None? || attempts[k].value == []
    ensures r.Some? ==> exists k :: 0 <= k < |attempts| && attempts[k] == r
                                    && forall j :: 0 <= j < k ==> attempts[j].None? || attempts[j].value == []
  {
    if |attempts| == 0 then None
    else if attempts[0].Some? && attempts[0].value != [] then attempts[0]
    else
      var r := FirstText(attempts[1..]);
      assert r.Some? ==> exists k :: 0 <= k < |attempts| && attempts[k] == r
                                    && forall j :: 0 <= j < k ==> attempts[j].None? || attempts[j].value == [] by {
        if r.Some? {
          var k :| 0 <= k < |attempts| - 1 && attempts[1..][k] == r
                   && forall j :: 0 <= j < k ==> attempts[1..][j].None? || attempts[1..][j].value == [];
          assert attempts[k + 1] == r;
          assert forall j :: 0 < j < k + 1 ==> attempts[j] == attempts[1..][j - 1];
        }
      }
      r
  }

  /** The calendar text of a payload, attachments first. */
  function ExtractCalendar(p: Payload): (r: Option<string>)
    ensures r.Some? ==> r.value != []
    ensures FromAttachments(p.attachments).Some? && FromAttachments(p.attachments).value != [] ==>
              r == FromAttachments(p.attachments)
    ensures FromAttachments(p.attachments).None? || FromAttachments(p.attachments).value == [] ==>
              r == FromBody(p)
  {
    var a, b := FromAttachments(p.attachments), FromBody(p);
    assert FirstText([b]) == b by { assert [b][1..] == []; }
    assert a.None? || a.value == [] ==> FirstText([a, b]) == FirstText([b]) by { assert [a, b][1..] == [b]; }
    FirstText([a, b])
  }

  /** An attachment that decodes to a non-empty text wins over the body. */
  lemma AttachmentFirst(p: Payload)
    requires FromAttachments(p.attachments).Some? && FromAttachments(p.attachments).value != []
    ensures ExtractCalendar(p) == FromAttachments(p.attachments)
  {
  }

  /** The scan stops at the first usable attachment even when it decodes to the
      empty text; then the body decides, and later attachments are never read. */
  lemma EmptyDecodeFallsBackToBody(p: Payload, k: nat)
    requires k < |p.attachments| && Usable(p.attachments[k]) && p.attachments[k].decoded == Some([])
    requires forall j :: 0 <= j < k ==> !Usable(p.attachments[j])
    ensures ExtractCalendar(p) == FromBody(p)
  {
    var f := FirstUsable(p.attachments, 0);
    assert f == Some(k) by {
      assert f.Some?;
      assert !(f.value < k) && !(k < f.value);
    }
    var attempts := [FromAttachments(p.attachments), FromBody(p)];
    assert attempts[0] == Some([]);
    assert attempts[1..] == [FromBody(p)];
    assert FirstText([FromBody(p)]) == FromBody(p) by {
      assert [FromBody(p)][1..] == [];
    }
  }

  /** With no usable attachment and no marker in the body there is nothing to
      import. */
  lemma NothingToImport(p: Payload)
    requires forall j :: 0 <= j < |p.attachments| ==> !Usable(p.attachments[j])
    requires FromBody(p).None?
    ensures ExtractCalendar(p).None?
  {
  }

  // ---------------------------------------------------------------------------
  // Handler
  // ---------------------------------------------------------------------------

  /** The token check: passes when no secret is configured (the empty secret
      counts as unset), otherwise only for a non-empty query token equal to it. */
  predicate Authorized(secret: string, token: Option<string>) {
    secret == [] || (token.Some? && token.value != [] && token.value == secret)
  }

  /** What the handler decides before writing: a response, or the records to
      write. */
  datatype Step = Respond(response: Response) | Store(events: seq<Event>)

  /** The decision part of `handler`, checks in source order: OPTIONS, method,
      token, JSON, extraction, parse. */
  function Route(req: Request, secret: string): (s: Step)
    ensures s == Respond(Preflight) <==> req.verb == "OPTIONS"
    ensures s == Respond(MethodNotAllowed) <==> req.verb != "OPTIONS" && req.verb != "POST"
    ensures s == Respond(Unauthorized) <==> req.verb == "POST" && !Authorized(secret, req.token)
    ensures s == Respond(Unauthorized) ==> secret != [] && req.token != Some(secret)
    ensures s == Respond(InvalidJson) <==>
            req.verb == "POST" && Authorized(secret, req.token) && req.payload.None?
    ensures s == Respond(NoCalendarData) <==>
            req.verb == "POST" && Authorized(secret, req.token) && req.payload.Some?
            && ExtractCalendar(req.payload.value).None?
    ensures s == Respond(NoValidEvents) <==>
            req.verb == "POST" && Authorized(secret, req.token) && req.payload.Some?
            && ExtractCalendar(req.payload.value).Some?
            && ParseIcs(ExtractCalendar(req.payload.value).value) == []
    ensures s.Store? <==>
            req.verb == "POST" && Authorized(secret, req.token) && req.payload.Some?
            && ExtractCalendar(req.payload.value).Some?
            && ParseIcs(ExtractCalendar(req.payload.value).value) != []
    ensures s.Store? ==> s.events == ParseIcs(ExtractCalendar(req.payload.value).value)
    ensures s.Store? ==> s.events != []
    ensures s.Respond? ==> !s.response.Imported?
  {
    if req.verb == "OPTIONS" then Respond(Preflight)
    else if req.verb != "POST" then Respond(MethodNotAllowed)
    else if !Authorized(secret, req.token) then Respond(Unauthorized)
    else if req.payload.None? then Respond(InvalidJson)
    else match ExtractCalendar(req.payload.value)
      case None => Respond(NoCalendarData)
      case Some(text) =>
        var events := ParseIcs(text);
        if |events| == 0 then Respond(NoValidEvents) else Store(events)
  }

  /** The store's answer to one write: an HTTP status, or a thrown `fetch`. */
  datatype StoreReply = Answered(status: int) | FetchFailed

  /** `supaRes.ok || supaRes.status === 201`: a 2xx status. */
  predicate Succeeded(r: StoreReply) {
    r.Answered? && ((200 <= r.status <= 299) || r.status == 201)
  }

  /** The number of failed writes. */
  function Failures(replies: seq<StoreReply>): (n: nat)
    ensures n <= |replies|
  {
    if |replies| == 0 then 0
    else Failures(replies[..|replies| - 1]) + (if Succeeded(replies[|replies| - 1]) then 0 else 1)
  }

  /** The write loop: each record is written once, in order; `replies[k]` is the
      store's answer to the k-th write. A failure is counted and the loop goes
      on. */
  method WriteAll(events: seq<Event>, replies: seq<StoreReply>)
    returns (imported: nat, errors: nat, written: seq<Event>)
    requires |replies| == |events|
    ensures written == events
    ensures errors == Failures(replies)
    ensures imported + errors == |events|
  {
    imported, errors, written := 0, 0, [];
    var i := 0;
    while i < |events|
      invariant 0 <= i <= |events|
      invariant written == events[..i]
      invariant errors == Failures(replies[..i])
      invariant imported + errors == i
    {
      written := written + [events[i]];
      if Succeeded(replies[i]) {
        imported := imported + 1;
      } else {
        errors := errors + 1;
      }
      assert replies[..i + 1][..i] == replies[..i];
      i := i + 1;
    }
    assert replies[..i] == replies;
    assert events[..i] == events;
  }

  /** The whole handler. A 401 or 400 happens before anything is parsed or
      written; when records are written, `imported + errors = total`, `total`
      is the number of parsed records and `errors` the number of failed writes. */
  method Handle(req: Request, secret: string, replies: seq<StoreReply>)
    returns (resp: Response, written: seq<Event>)
    requires Route(req, secret).Store? ==> |replies| == |Route(req, secret).events|
    ensures Route(req, secret).Respond? ==> resp == Route(req, secret).response && written == []
    ensures Route(req, secret).Store? ==>
      && written == Route(req, secret).events
      && resp == Imported(|written| - Failures(replies), Failures(replies), |written|)
    ensures resp.Imported? ==> resp.imported + resp.errors == resp.total == |written| > 0
  {
    resp, written := Carry(Route(req, secret), replies);
  }

  /** Carrying out a decision: answer at once, or write every record and
      report the counts. */
  method Carry(step: Step, replies: seq<StoreReply>) returns (resp: Response, written: seq<Event>)
    requires step.Store? ==> |replies| == |step.events| && step.events != []
    requires step.Respond? ==> !step.response.Imported?
    ensures step.Respond? ==> resp == step.response && written == []
    ensures step.Store? ==>
      && written == step.events
      && resp == Imported(|written| - Failures(replies), Failures(replies), |written|)
    ensures resp.Imported? ==> resp.imported + resp.errors == resp.total == |written| > 0
  {
    match step
    case Respond(r) =>
      resp, written := r, [];
    case Store(events) =>
      var imported, errors;
      imported, errors, written := WriteAll(events, replies);
      resp := Imported(imported, errors, |events|);
  }
}
