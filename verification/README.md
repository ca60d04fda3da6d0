# ProCalMent core, modelled in Dafny

This project models the decision logic of ProCalMent, a leadership team's calendar and hub app.

The main part is the **inbound-email ICS ingester** (`api/inbound-email.js`). A mail webhook posts an e-mail, and the handler proceeds in order:
- it checks the method and the webhook token;
- it takes calendar text from the first calendar attachment, or else from the mail body;
- it cuts the text into `BEGIN:VEVENT` blocks and parses each block;
- it writes one record per event to the store and reports `imported`, `errors` and `total`.

Parsing a block involves these steps:
- unfolding folded lines;
- looking up `DTSTART`, `DTEND`, `SUMMARY`, `DESCRIPTION` and `LOCATION`;
- un-escaping the TEXT values;
- decoding dates by the position of their digits;
- giving each event a category from keywords in its title.

This is a loose, regular-expression reading of RFC 5545:
- line folding, section 3.1;
- TEXT values, section 3.3.11;
- DATE and DATE-TIME values, sections 3.3.4 and 3.3.5.

The model follows the code, not the RFC.

Around the ingester sit five smaller decision procedures. Each one is modelled as well:
- **Password gate** (`api/verify-password.js`): a per-IP sliding-window rate limiter (10 attempts per 15 minutes), client-IP extraction and the handler's check order.
- **Route guards** of the leadership hub: `middleware` and the narrower `authMiddleware`. Each maps a path and the session cookie to pass, 401 or a redirect to `/sign-in`.
- **Sign-up endpoint**: its validation chain, input normalisation, and how a successful sign-up changes the user and invite tables.
- **Invite-code generator script**: argument parsing with JavaScript `parseInt`, the `LH-XXXXXXXX-XXXX` code format and the expiry arithmetic.
- **Avatar helpers**: `getInitials` and `getColor`, which uses a 32-bit shift hash.

Most members are pure functions over immutable values. The methods are `Inbound.WriteAll` and `Avatar.GetColor`, which loop, and `Inbound.Handle` and `Inbound.Carry`, which call `WriteAll`. Strings are `seq<char>`. A JSON `null` or NaN is `Option.None`.
- The in-memory attempts `Map` and the databases are values that are passed in and returned.
- The clock, UUIDs, the store's replies, attachment decoding and the bcrypt comparison are parameters.

Layout, one module per file:
- `wrappers.dfy`: `Option`, and `Somes`, which keeps the present values of a list.
- `strings.dfy`: the JavaScript string primitives the code uses. These are `trim`, `startsWith`/`endsWith`/`includes`, `indexOf`, `split`/`join` and ASCII case mapping.
- `ics_text.dfy`: unfolding, the `get(key)` field lookup and the three un-escaping chains, plus an RFC 5545 TEXT encoder used as their partner.
- `ics_date.dfy`: `parseDate`.
- `ics_category.dfy`: the keyword rules. `.` in a pattern is the regular-expression wildcard.
- `ics.dfy`: `parseICS`, the event record and its invariants.
- `inbound.dfy`: the extraction chain and the handler's routing decision, which are functions, and the methods `Handle` and `Carry` that act on the decision through the write loop `WriteAll`, a method with invariants.
- `rate_limit.dfy`: `isRateLimited`, client IP and the password handler.
- `route_guard.dfy`: both middlewares.
- `sign_up.dfy`: the sign-up `POST`.
- `js_number.dfy`: `parseInt(s, 10)`, decimal rendering and ToInt32.
- `generate_invite.dfy`: the invite script.
- `avatar.dfy`: initials, colour and the polynomial-hash reference for the colour hash.

## Model

| member | source | states |
|---|---|---|
| `Strings.Split` | api/inbound-email.js:10 | `split` with a string separator: the pieces joined with the separator give the text back, and no piece contains the separator |
| `Strings.SplitAfterPrefix` | api/inbound-email.js:10-11 | a separator-free prefix followed by the separator is cut off as the first piece, whatever follows |
| `Strings.Trim` | api/inbound-email.js:16 | `trim` removes only white space and line terminators, at both ends: the result is the infix left between two all-space runs, and it neither starts nor ends with space |
| `IcsText.UnfoldPlainPrefix` | api/inbound-email.js:14 | text without CR or LF passes through unfolding unchanged and does not affect what follows |
| `IcsText.Unfold` | api/inbound-email.js:14 | `replace(/\r?\n[ \t]/g, '')`: the result is no longer than the input and holds only characters of the input. What it deletes and keeps is stated by `IcsText.UnfoldPlainPrefix`, `IcsText.UnfoldBreak`, `IcsText.UnfoldKeepsLF`, `IcsText.UnfoldKeepsCR` and `IcsText.UnfoldInvertsFolding` |
| `IcsText.UnfoldBreak` | api/inbound-email.js:14 | each of the four fold spellings (CR LF or LF, then space or tab) is deleted without a separator |
| `IcsText.UnfoldKeepsLF` | api/inbound-email.js:14 | an LF not followed by a space or a tab is kept, and unfolding resumes right after it |
| `IcsText.UnfoldKeepsCR` | api/inbound-email.js:14 | a CR that does not start CR LF + space/tab is kept, and unfolding resumes right after it (a lone CR before a space is kept too) |
| `IcsText.UnfoldInvertsFolding` | api/inbound-email.js:14 | content cut into line-break-free segments and re-joined with one fold spelling unfolds to the segments concatenated, with no separator |
| `IcsText.RestOfLine` | api/inbound-email.js:15 | the captured value runs up to the next LF or the end of the text and contains no LF |
| `IcsText.FirstMatch` | api/inbound-email.js:15 | the lookup uses the earliest line start (start of text or right after LF) where the key matches case-insensitively with optional `;params` and a colon |
| `IcsText.FieldValueFound` | api/inbound-email.js:13-16 | `get(key)` is the trimmed value of the first matching line of the unfolded block |
| `IcsText.FieldValueAbsent` | api/inbound-email.js:16 | `get(key)` is `''` when no line of the unfolded block names the key |
| `IcsText.FirstLineValue` | api/inbound-email.js:13-16 | a block whose first line is `KEY:value` yields the trimmed value, whatever follows |
| `IcsText.DropBackslashes` | api/inbound-email.js:20-22 | the final `replace(/\\/g, '')` leaves no backslash, keeps exactly the other characters that occur, and leaves backslash-free text unchanged |
| `IcsText.DropAppend` | api/inbound-email.js:20-22 | backslash deletion works piecewise: on a concatenation it is the deletion on each part, concatenated in order |
| `IcsText.DropSnoc` | api/inbound-email.js:20-22 | one character at a time: a backslash is deleted and any other character is kept in place |
| `IcsText.ReplaceEscape` | api/inbound-email.js:20-22 | one `replace(/\\x/g, rep)` pass, scanning left to right without overlap; it has no contract of its own, and `IcsText.ReplacePlain` and `IcsText.ReplacePair` state its steps |
| `IcsText.ReplacePlain` | api/inbound-email.js:20-22 | a character other than a backslash passes through a `replace` pass unchanged |
| `IcsText.ReplacePair` | api/inbound-email.js:20-22 | a backslash pair is replaced when its second character is the one the pass looks for, and kept otherwise |
| `IcsText.UnescapeText` | api/inbound-email.js:20-21 | the `\,` pass, the `\n` pass and the backslash deletion in that order never leave a backslash; the round-trip rows state what it gives back |
| `IcsText.UnescapeSummary` | api/inbound-email.js:20 | an un-escaped title never contains a backslash |
| `IcsText.UnescapeDescription` | api/inbound-email.js:21 | an un-escaped description never contains a backslash |
| `IcsText.UnescapeLocation` | api/inbound-email.js:22 | an un-escaped location never contains a backslash |
| `IcsText.DescriptionRoundTrip` | api/inbound-email.js:21 | for backslash-free text, DESCRIPTION un-escaping inverts RFC 5545 TEXT escaping exactly |
| `IcsText.SummaryRoundTrip` | api/inbound-email.js:20 | for backslash-free text, SUMMARY un-escaping gives the text back with each line break turned into a space |
| `IcsText.LocationRoundTrip` | api/inbound-email.js:22 | for backslash-free text, LOCATION un-escaping gives the text back with each line break turned into the letter `n` |
| `IcsDate.ParseDate` | api/inbound-email.js:26-32 | with fewer than 8 digits, both date and time are empty. Otherwise the date is `YYYY-MM-DD` over digits 1-8. The time is `HH:MM` over digits 9-12 exactly when there are at least 12 digits, and empty otherwise |
| `IcsDate.ReparseDate` | api/inbound-email.js:26-32 | a decoded date decodes to itself as an all-day value |
| `IcsDate.ParseDateTimeForm` | api/inbound-email.js:27-30 | `YYYYMMDDTHHMMSS` with or without `Z` decodes to its date and hour:minute; the seconds are dropped |
| `IcsDate.ParseDateForm` | api/inbound-email.js:27-30 | `YYYYMMDD` decodes to its date with an empty time |
| `IcsCategory.SearchFrom` | api/inbound-email.js:41-44 | the substring search succeeds exactly when the pattern occurs at or after the start position; `.` matches any character except a line terminator |
| `IcsCategory.AnyOccurs` | api/inbound-email.js:41-44 | an alternation matches exactly when one of its alternatives occurs |
| `IcsCategory.FirstRule` | api/inbound-email.js:40-44 | the result is OTHER exactly when no group fires. Otherwise it is the category of the first group that fires, and no earlier group fires |
| `IcsCategory.Classify` | api/inbound-email.js:39-44 | the same first-group-wins statement, over the lowercased title |
| `IcsCategory.ClassifyPriority` | api/inbound-email.js:41-44 | the if/else-if chain spelled out: MEETING if its group fires; DEADLINE if its group fires and MEETING's does not; and so on down the chain |
| `IcsCategory.MeetingWordWins` | api/inbound-email.js:41 | a meeting keyword anywhere in the lowercased title makes the event a MEETING |
| `IcsCategory.StandupReviewIsMeeting` | api/inbound-email.js:41-43 | "Q2 Budget Review — Standup" is a MEETING, not a REVIEW |
| `IcsCategory.RecallIsMeeting` | api/inbound-email.js:41 | matching is by substring: "Product recall" is a MEETING |
| `IcsCategory.OneOnOneIsMeeting` | api/inbound-email.js:41 | `.` is a wildcard: "One-on-One with Sam" is a MEETING |
| `Ics.OrNull` | api/inbound-email.js:51-57 | `s \|\| null` is null exactly for the empty string |
| `Ics.EndDate` | api/inbound-email.js:47 | `end_date` is set exactly when the decoded end date is non-empty and differs from the start date, and it is then that end date |
| `Ics.ParseBlock` | api/inbound-email.js:18-59 | a block yields a record exactly when its DTSTART value, its un-escaped title and its decoded start date are all non-empty. Every record is well formed: non-empty backslash-free title, `YYYY-MM-DD` date, an `end_date` that differs from `date`, `HH:MM` times, category computed from the title, and `created_by = email-inbound` |
| `Ics.ParseBlockFields` | api/inbound-email.js:49-59 | each record field comes from its property: title from SUMMARY, date and start time from DTSTART, `end_time` from DTEND whether or not `end_date` is set |
| `Ics.ParseBlocks` | api/inbound-email.js:12-17 | each block is parsed on its own, in block order |
| `Ics.Blocks` | api/inbound-email.js:10-11 | the pieces after each `BEGIN:VEVENT` (the piece before the first marker is shifted off); no block contains the marker |
| `Ics.EventsOf` | api/inbound-email.js:12-61 | at most one record per block, and all of them well formed |
| `Ics.ParseIcs` | api/inbound-email.js:8-62 | `parseICS` returns well-formed records, no more than there are `BEGIN:VEVENT` markers |
| `Ics.EventsOfAppend` | api/inbound-email.js:12 | blocks are independent: the records of two runs of blocks are each run's records, concatenated in block order |
| `Ics.SingleBlock` | api/inbound-email.js:24-36 | a rejected block is dropped silently and an accepted one contributes exactly its record |
| `Ics.Accepted` | api/inbound-email.js:12-60 | counts the blocks that parse, never more than the blocks |
| `Ics.EventsOfCount` | api/inbound-email.js:12-60 | the number of records equals the number of blocks that parse |
| `Ics.PreambleIgnored` | api/inbound-email.js:10-11 | text before the first `BEGIN:VEVENT` has no influence on the result |
| `Ics.NoMarkerNoEvents` | api/inbound-email.js:10-11 | text without `BEGIN:VEVENT` yields no records |
| `Ics.SameDayEndHasNoEndDate` | api/inbound-email.js:47 | DATE-TIME start and end on the same day give no `end_date` |
| `Ics.LaterDayEndHasEndDate` | api/inbound-email.js:47 | DATE start and end on different days give the end date as `end_date` |
| `Inbound.FirstUsable` | api/inbound-email.js:113-125 | finds the first attachment that passes the name/type filter and decodes; every attachment before it fails one of the two |
| `Inbound.FromAttachments` | api/inbound-email.js:113-125 | the attachment scan yields nothing exactly when no attachment both passes the filter and decodes. Otherwise it yields the decoded text of the first attachment that does |
| `Inbound.FromBody` | api/inbound-email.js:127-134 | the body fallback is `TextBody \|\| HtmlBody`. It is used exactly when it contains `BEGIN:VCALENDAR` or `BEGIN:VEVENT`, and it is then non-empty |
| `Inbound.IsCalendarAttachment` | api/inbound-email.js:114-116 | the attachment filter: the lower-cased name ends with `.ics`, or the lower-cased content type contains `calendar` or `ics`; it has no contract of its own, and `Inbound.FirstUsable` and `Inbound.FromAttachments` state how it is used |
| `Inbound.FirstText` | api/inbound-email.js:128-136 | nothing results exactly when every attempt is missing or empty. Otherwise the result is an attempt before which every attempt is missing or empty, that is, the first non-empty one |
| `Inbound.ExtractCalendar` | api/inbound-email.js:112-136 | the calendar text is never empty; a non-empty attachment text is used, and otherwise the body fallback decides |
| `Inbound.AttachmentFirst` | api/inbound-email.js:111-128 | a non-empty decoded attachment wins over the body |
| `Inbound.EmptyDecodeFallsBackToBody` | api/inbound-email.js:117-129 | a first usable attachment that decodes to `''` stops the scan, so later attachments are never read and the body decides |
| `Inbound.NothingToImport` | api/inbound-email.js:136-139 | with no usable attachment and no marker in the body, there is no calendar text |
| `Inbound.Route` | api/inbound-email.js:83-147 | each outcome happens exactly when every earlier check passes and its own fires, in source order: OPTIONS 204; any other non-POST 405; a configured token missing or unequal in the query 401, before the body is read; an invalid or falsy payload 400; no calendar text 200 with nothing imported; zero parsed events 200. Otherwise the records to write are exactly `parseICS` of the extracted text, and there is at least one |
| `Inbound.Authorized` | api/inbound-email.js:89-96 | the token check passes when no token is configured (unset or empty), or when the query token is non-empty and equal to it; it has no contract of its own, and `Inbound.Route` states its effect |
| `Inbound.Succeeded` | api/inbound-email.js:166 | a write succeeds when the store answered with a 2xx status (`ok`) or 201; a thrown `fetch` fails; it has no contract of its own, and `Inbound.Failures` and `Inbound.WriteAll` count by it |
| `Inbound.Failures` | api/inbound-email.js:166-176 | counts the failed writes, never more than the writes |
| `Inbound.WriteAll` | api/inbound-email.js:150-177 | each record is written once, in order. `errors` is the number of failed writes (non-2xx status or thrown `fetch`) and `imported + errors` is the number of records |
| `Inbound.Handle` | api/inbound-email.js:150-180 | when records are written: `imported + errors = total` = the number of parsed events > 0. Otherwise nothing is written and the response is the routing decision |
| `Inbound.Carry` | api/inbound-email.js:150-180 | an early answer writes nothing and is never an import report. A store decision writes exactly its records and reports `imported + errors = total` = the number of records |
| `RateLimit.InWindow` | api/verify-password.js:12 | the window filter keeps exactly the timestamps with `now - t` < 15 minutes, and only those; that it keeps their order is stated by `RateLimit.InWindowAppend` |
| `RateLimit.InWindowAppend` | api/verify-password.js:12 | the filter distributes over concatenation: the recent timestamps of `x + y` are those of `x` followed by those of `y`, so the order of the list is kept |
| `RateLimit.InWindowCounts` | api/verify-password.js:12-13 | the filtered list's length is the count of recent timestamps |
| `RateLimit.Check` | api/verify-password.js:10-20 | `isRateLimited` is true exactly when at least 10 recent timestamps are stored. A limited call stores the filtered list; another call stores it with `now` appended. After the call the IP's list holds only recent timestamps, other IPs are untouched, and lists of at most 10 stay so |
| `RateLimit.FilterKeepsSuffix` | api/verify-password.js:12 | filtering keeps a recent suffix of the list in place |
| `RateLimit.StepKeepsSuffix` | api/verify-password.js:12-18 | one call inside the window keeps the earlier allowed times stored, and adds its own when allowed |
| `RateLimit.RunBound` | api/verify-password.js:12-18 | the allowed times of a run of calls inside one window stay a suffix of a list of at most 10 |
| `RateLimit.AtMostMaxPerWindow` | api/verify-password.js:3-19 | whatever their order, at most 10 calls from one IP with times inside one 15-minute window are let through |
| `RateLimit.ClientIp` | api/verify-password.js:35-38 | the client IP is never empty. It is the trimmed first comma-separated entry of `x-forwarded-for` when that is non-blank, and then contains no comma. Otherwise it is the socket address if non-empty, else `unknown` |
| `RateLimit.ForwardedFirstEntry` | api/verify-password.js:35-36 | a header `first,rest` with a comma-free, non-blank first entry yields that entry, trimmed, whatever follows |
| `RateLimit.VerifyPassword` | api/verify-password.js:27-60 | OPTIONS gives 204 and any other non-POST 405, exactly, and neither records an attempt. Every POST passes through the limiter before the body is read, and 429 is returned exactly when it is limited. For a POST that is not limited: 400 exactly when the password is missing, non-string or empty; 500 exactly when a password is given and no hash is configured; 200 with the comparison's result exactly when both are present |
| `RateLimit.LimitBeforePassword` | api/verify-password.js:40-51 | two POSTs from one address at one time leave the same state and are limited alike, whatever their passwords, so a malformed POST still uses up an attempt |
| `RouteGuard.Middleware` | leadership-hub/src/middleware.ts:7-30 | pass exactly for `/_next…`, `/favicon…`, public-prefix paths, or a non-empty cookie. Otherwise 401 for `/api…` paths and a redirect for the rest |
| `RouteGuard.IsPublic` | leadership-hub/src/middleware.ts:5-14 | a path is public when it starts with one of the four public paths; it has no contract of its own, and `RouteGuard.PublicByPrefix` states its prefix reading |
| `RouteGuard.HasSession` | leadership-hub/src/middleware.ts:19-22 | a session is a present, non-empty cookie value, never inspected; it has no contract of its own, and `RouteGuard.AnySessionValue` and `RouteGuard.EmptyCookieIsNoCookie` state its effect |
| `RouteGuard.IsGuarded` | leadership-hub/src/lib/auth/middleware.ts:14 | `authMiddleware` guards `/api…`, `/(hub)…` and exactly `/`; it has no contract of its own, and `RouteGuard.AuthMiddleware` states its effect |
| `RouteGuard.AuthMiddleware` | leadership-hub/src/lib/auth/middleware.ts:7-25 | pass exactly for public-prefix paths, paths outside `/api…`, `/(hub)…` and `/`, or a non-empty cookie. Otherwise 401 for `/api…` and a redirect for the rest |
| `RouteGuard.PublicByPrefix` | leadership-hub/src/middleware.ts:5-17 | any path extending a public path, such as `/sign-upXYZ`, passes both guards without a session |
| `RouteGuard.AnySessionValue` | leadership-hub/src/middleware.ts:19-29 | the cookie's content is not validated: every non-empty value passes both guards |
| `RouteGuard.EmptyCookieIsNoCookie` | leadership-hub/src/middleware.ts:22 | an empty cookie value is treated like a missing cookie |
| `RouteGuard.AppGuardAtLeastAsStrict` | leadership-hub/src/lib/auth/middleware.ts:10-24 | whatever `authMiddleware` stops, `middleware` stops with the same decision |
| `RouteGuard.UnguardedPageDiffers` | leadership-hub/src/lib/auth/middleware.ts:14-24 | a page such as `/dashboard` without a session passes `authMiddleware`, but `middleware` redirects it |
| `SignUp.NormalEmail` | src/app/api/auth/sign-up/route.ts:52 | the normalised address is the lower-cased input with white space removed at both ends, and only there: an infix of the lower-cased input between two all-space runs that neither starts nor ends with white space |
| `SignUp.Register` | src/app/api/auth/sign-up/route.ts:6-97 | a body that is not JSON (or is `null`) gives 500 exactly. Each later outcome happens exactly when all earlier checks pass and its own fails, in source order: a missing or empty field, a password under 8 characters, an unknown trimmed invite code, a redeemed invite, an expired invite, a taken normalised e-mail (all 400). Success happens exactly when all checks pass, and only success changes the database: it adds the user under the normalised address with the trimmed name, marks the invite redeemed by the new user and opens that user's session |
| `SignUp.MissingFieldFirst` | src/app/api/auth/sign-up/route.ts:10-15 | a missing password or invite code gives "all fields required" whatever else the request holds |
| `SignUp.ShortPasswordBeforeInvite` | src/app/api/auth/sign-up/route.ts:17-29 | a short password is reported before any invite is looked up |
| `SignUp.ExpiryIsStrict` | src/app/api/auth/sign-up/route.ts:43 | an invite expiring exactly now is accepted |
| `SignUp.NoDoubleRedeem` | src/app/api/auth/sign-up/route.ts:36-80 | after a successful sign-up, no later sign-up with the same code succeeds, surrounding white space included |
| `SignUp.EmailCaseInsensitive` | src/app/api/auth/sign-up/route.ts:51-68 | addresses equal up to ASCII case and surrounding white space cannot both sign up |
| `JsNumber.DigitRun` | leadership-hub/scripts/generate-invite.ts:26-29 | the digit run `parseInt` reads is all digits and is followed by a non-digit or the end |
| `JsNumber.ParseSigned` | leadership-hub/scripts/generate-invite.ts:26-29 | after the white space, `parseInt` is a number exactly when a digit follows the optional sign; the number is the decimal value of the longest digit run there, negated after `-` |
| `JsNumber.ParseInt` | leadership-hub/scripts/generate-invite.ts:26-29 | `parseInt(s, 10)` skips leading white space first, and a number needs a digit somewhere in `s`; its value is the one `JsNumber.ParseIntOfParts` states |
| `JsNumber.TrimStartSpaces` | leadership-hub/scripts/generate-invite.ts:26-29 | skipping white space removes exactly the leading white space |
| `JsNumber.ParseSignedDigits` | leadership-hub/scripts/generate-invite.ts:26-29 | with no sign, the number is the unsigned reading of the digits |
| `JsNumber.ParseSignedSign` | leadership-hub/scripts/generate-invite.ts:26-29 | after `+` the number is the unsigned reading, after `-` its negation |
| `JsNumber.ParseSignedOfParts` | leadership-hub/scripts/generate-invite.ts:26-29 | an optional sign followed by digits reads as the digits' value with that sign |
| `JsNumber.ParseIntOfSigned` | leadership-hub/scripts/generate-invite.ts:26-29 | white space, an optional sign and a digit-led text read as the text's unsigned value with that sign |
| `JsNumber.ParseIntOfParts` | leadership-hub/scripts/generate-invite.ts:26-29 | for any white space, optional `+`/`-`, non-empty digit run (leading zeros allowed) and a tail that does not start with a digit, `parseInt` gives the run's decimal value with the sign |
| `JsNumber.ParseIntPlusSign` | leadership-hub/scripts/generate-invite.ts:26-29 | `parseInt("+5")` is 5 |
| `JsNumber.ParseIntLeadingZeros` | leadership-hub/scripts/generate-invite.ts:26-29 | `parseInt("007")` is 7 |
| `JsNumber.ParseIntSpaceAndTail` | leadership-hub/scripts/generate-invite.ts:26-29 | `parseInt("  -3x")` is -3 |
| `JsNumber.NatToString` | leadership-hub/scripts/generate-invite.ts:26-29 | decimal rendering is non-empty, all digits and has no leading zero |
| `JsNumber.ValueOfNatToString` | leadership-hub/scripts/generate-invite.ts:26-29 | the decimal value of a rendering is the number rendered |
| `JsNumber.ParseIntOfIntToString` | leadership-hub/scripts/generate-invite.ts:26-29 | `parseInt` reads back any rendered integer, negative ones included, and stops at the first non-digit |
| `JsNumber.ToInt32` | src/components/ui/glass-avatar.tsx:24 | ToInt32 gives the signed 32-bit value congruent to its argument modulo 2^32 |
| `JsNumber.ToInt32InRange` | src/components/ui/glass-avatar.tsx:24 | ToInt32 leaves 32-bit values unchanged |
| `GenerateInvite.CountFromArgument` | leadership-hub/scripts/generate-invite.ts:24-31 | the count is the default or the parse of some argument |
| `GenerateInvite.DaysFromFlag` | leadership-hub/scripts/generate-invite.ts:24-31 | the expiry is the default or the parse of an argument right after `--days` |
| `GenerateInvite.NoNumbersNoChange` | leadership-hub/scripts/generate-invite.ts:28-29 | without `--days`, arguments that do not parse leave the settings alone |
| `GenerateInvite.LastNumberWins` | leadership-hub/scripts/generate-invite.ts:28-29 | without `--days`, the last argument that parses sets the count and the expiry keeps its value |
| `GenerateInvite.DaysTakesNext` | leadership-hub/scripts/generate-invite.ts:25-27 | `--days` with a non-empty next argument sets the expiry from it, NaN included, and consumes it |
| `GenerateInvite.UsageForm` | leadership-hub/scripts/generate-invite.ts:10-31 | `<count> --days <days>` sets both settings |
| `GenerateInvite.TrailingDaysIgnored` | leadership-hub/scripts/generate-invite.ts:25-29 | a trailing `--days` changes nothing |
| `GenerateInvite.InviteCode` | leadership-hub/scripts/generate-invite.ts:48 | every code starts with `LH-` |
| `GenerateInvite.InviteCodeOfGroups` | leadership-hub/scripts/generate-invite.ts:48 | the code is `LH-` plus the first two hyphen-separated groups, rejoined with `-` and uppercased. For a UUID that is 16 characters |
| `GenerateInvite.ExpiresAt` | leadership-hub/scripts/generate-invite.ts:53 | the expiry lies `days × 86 400 000` ms after now. It is an invalid date exactly when the days are NaN or the sum lies outside the ±8.64 × 10^15 ms range of `Date` |
| `GenerateInvite.RunCodes` | leadership-hub/scripts/generate-invite.ts:47-48 | the run's k-th code is the code of the k-th UUID |
| `GenerateInvite.FirstBlocked` | leadership-hub/scripts/generate-invite.ts:47-55 | finds the first `create` that fails, because its expiry from its own clock reading is an Invalid Date or its code is already stored or written earlier in the run; no earlier `create` fails, and nothing is found exactly when none fails |
| `GenerateInvite.Stamps` | leadership-hub/scripts/generate-invite.ts:53 | the k-th expiry is `days × 86 400 000` ms after the k-th clock reading |
| `GenerateInvite.RunWrites` | leadership-hub/scripts/generate-invite.ts:47-56 | a run of `create`s none of which fails stores each code as an unredeemed invite expiring `days` after its own clock reading, adds only those codes, and keeps every stored invite and the users |
| `GenerateInvite.AddInvites` | leadership-hub/scripts/generate-invite.ts:49-55 | given codes that are new and pairwise distinct, the k-th code gets an unredeemed invite with the k-th expiry, the table gains exactly those codes, and every stored invite keeps its value |
| `GenerateInvite.Generate` | leadership-hub/scripts/generate-invite.ts:33-57 | no admin exactly means nothing is generated. Otherwise the loop writes one code per UUID, in order, each stored unredeemed and expiring `days` after that iteration's own `Date.now()`. Stored invites and users are untouched. All `max(count, 0)` codes are written exactly when no `create` fails. Otherwise the run stops at the first failing `create`, keeping the codes written before it. It reports an invalid expiry when that write's date is an Invalid Date (NaN days, or outside the `Date` range), and a collision when its code is already taken (the unique constraint on `code`) |
| `GenerateInvite.NaNDaysStoreNothing` | leadership-hub/scripts/generate-invite.ts:47-53 | with NaN days the first `create` already fails and nothing is stored |
| `GenerateInvite.FreshInviteWindow` | leadership-hub/scripts/generate-invite.ts:53 | a generated invite is accepted by sign-up exactly until `days × 86 400 000` ms after its own clock reading, inclusive |
| `Avatar.Heads` | src/components/ui/glass-avatar.tsx:29 | one character at most per piece |
| `Avatar.Initials` | src/components/ui/glass-avatar.tsx:28-30 | at most two initials |
| `Avatar.WordStartsSpaceFree` | src/components/ui/glass-avatar.tsx:29 | inside a space-free run only its first character can start a word |
| `Avatar.HeadsOfSplit` | src/components/ui/glass-avatar.tsx:29 | the first characters of the space-separated pieces are exactly the word-start characters; empty pieces from leading or doubled spaces contribute nothing |
| `Avatar.InitialsAreWordStarts` | src/components/ui/glass-avatar.tsx:28-30 | `getInitials` is the first two word-start characters, uppercased |
| `Avatar.EmptyNameNoInitials` | src/components/ui/glass-avatar.tsx:29 | an empty name has no initials |
| `Avatar.GetColor` | src/components/ui/glass-avatar.tsx:22-26 | the colour is always one of the five gradients, the one at `\|hash\| mod 5` of the character-by-character hash |
| `Avatar.HashBound` | src/components/ui/glass-avatar.tsx:23-25 | `\|hash\|` ≤ length × (2^31 + 0x110000), which stays below 2^53, where doubles are exact, for names under about four million characters |
| `Avatar.EmptyNameFirstColor` | src/components/ui/glass-avatar.tsx:23-25 | the empty name gets the first gradient |
| `Avatar.SingleCharHash` | src/components/ui/glass-avatar.tsx:24 | a one-character name hashes to its character code |
| `Avatar.HashStep` | src/components/ui/glass-avatar.tsx:24 | one loop step `code + ((hash << 5) - hash)`, with `<<` on the 32-bit value; it has no contract of its own, and `Avatar.StepCongruent` relates it to `31·hash + code` |
| `Avatar.Hash` | src/components/ui/glass-avatar.tsx:23-24 | the hash after the whole name, from 0; it has no contract of its own: `Avatar.GetColor` computes it, `Avatar.HashBound` bounds it and `Avatar.HashIsPolynomial` relates it to the polynomial hash |
| `Avatar.StepCongruent` | src/components/ui/glass-avatar.tsx:24 | one step `code + ((hash << 5) - hash)` multiplies by 31 and adds the code, modulo 2^32 |
| `Avatar.HashIsPolynomial` | src/components/ui/glass-avatar.tsx:22-25 | the hash agrees modulo 2^32 with the polynomial hash `Σ s[i]·31^(n-1-i)` |

## Left out

- Network and storage I/O are not modelled:
  - the store's `fetch` is a list of replies (an HTTP status or a thrown call);
  - Prisma lookups are values passed in (the invite and user maps, the admin);
  - the request body stream, `console` logging and `process.exit` are not modelled.
- Attachment decoding (`Buffer.from(…, 'base64').toString('utf-8')`) is an input: `decoded` holds the text, or nothing when decoding throws.
- JSON parsing of the request bodies is an input. In the inbound handler and the password gate, nothing stands for an invalid or falsy body. In sign-up, nothing stands for invalid JSON or `null`, the bodies that make the destructuring throw (500). Any other non-object value, `0`, `false` or `""` included, destructures to missing fields and gives 400. Non-string JSON field values (a number as `password`, say) are not modelled; such fields count as missing.
- `new URL(req.url, …)` throwing on a malformed host, and the CORS headers, are not modelled.
- bcrypt: the password comparison is a function parameter. Password hashing in sign-up is not modelled.
- `Date.now()`, `new Date()` and `uuidv4()` are parameters. The script reads `Date.now()` once per `create`, so the model takes one clock reading per write. The `Date.now()` in the script's printed summary is not modelled, because it is display only.
- The script's `create` can fail in only two ways in the model: an Invalid Date, or a taken code. An Invalid Date is taken to be rejected before the store is asked, so it is reported even when the code is also taken. Other Prisma errors are not modelled.
- Sign-up failures inside the database transaction, `hashPassword` or `createSession` (which also lead to 500) are not modelled. The invite's store-assigned `id`, its `createdById` and `redeemedAt` columns and the user's `role` are not modelled either. Sign-up's update `where: { id: invite.id }` is modelled as an update of the row found by its unique code, which is the same row.
- Characters are Unicode scalar values, and case mapping covers ASCII letters only. JavaScript strings are UTF-16 and `toLowerCase`/`toUpperCase` are full Unicode mappings. Non-ASCII letters and characters outside the Basic Multilingual Plane are not modelled. This affects `.length`, `slice`, `n[0]` and `charCodeAt` on such characters.
- JavaScript numbers are modelled as exact integers. `parseInt` of a digit run longer than 15 or so digits, and counts or day numbers beyond 2^53, would round in JavaScript. The NaN check on the count is exact.
- The Next.js `config.matcher`, which keeps some paths from ever reaching `middleware`, is not modelled. Neither are the redirect URL's construction and the response objects.
- `x-forwarded-for` given as an array of header values is not modelled; the header is a single string or absent.
- The rate limiter's map lives in one function instance and is lost on a cold start. The model threads a single map through the calls.
- `IcsText.FieldValue` has no contract of its own. Its behaviour is stated by `IcsText.FieldValueFound` and `IcsText.FieldValueAbsent`, so the regular expression's existential reading is kept out of every call site.
- `Ics.ParseIcs` states well-formedness and the bound on the number of records. The exact list is characterised through `Ics.EventsOf`, `Ics.EventsOfAppend`, `Ics.SingleBlock` and `Ics.EventsOfCount`.
- `GenerateInvite.ParseArgsBy` takes the number reader as a parameter, so its lemmas hold for any reader. `GenerateInvite.ParseArgs` instantiates it with `parseInt`.
- Full RFC 5545 is not modelled: time zones, recurrence rules, VALARM and VTIMEZONE. The code does not implement them either.
- The UI components around the avatar (sizes, markup, the image branch) are not modelled.
