/** The invite-code generator (leadership-hub/scripts/generate-invite.ts,
    `main`): the argument loop, the code format and the expiry arithmetic.
    `uuidv4()` results and `Date.now()` are parameters; the database is the
    sign-up model's. */
module GenerateInvite {
  import opened Wrappers
  import opened Strings
  import opened JsNumber
  import SignUp

  /** `count` and `expiryDays`; a `days` of `None` is NaN. */
  datatype Settings = Settings(count: int, days: Option<int>)

  const Defaults := Settings(1, Some(30))

  const DayMs: int := 24 * 60 * 60 * 1000

  /** The argument loop from the head of `args`, with `parse` standing for
      `parseInt(·, 10)`: `--days` followed by a non-empty argument sets the
      expiry from it and consumes both; any other argument that `parse` reads
      sets the count. */
  function ParseArgsBy(parse: string -> Option<int>, args: seq<string>, st: Settings): (r: Settings)
    decreases |args|
  {
    if |args| == 0 then st
    else if args[0] == "--days" && |args| > 1 && args[1] != [] then
      ParseArgsBy(parse, args[2..], st.(days := parse(args[1])))
    else
      var count := parse(args[0]);
      ParseArgsBy(parse, args[1..], if count.Some? then st.(count := count.value) else st)
  }

  /** The settings `main` runs with. */
  function ParseArgs(args: seq<string>): Settings {
    ParseArgsBy(ParseInt, args, Defaults)
  }

  /** The count is the starting one or the value of some argument `parse`
      reads. */
  lemma {:induction false} CountFromArgument(parse: string -> Option<int>, args: seq<string>, st: Settings)
    ensures var r := ParseArgsBy(parse, args, st);
            r.count == st.count || exists k :: 0 <= k < |args| && parse(args[k]) == Some(r.count)
    decreases |args|
  {
    var r := ParseArgsBy(parse, args, st);
    if |args| == 0 {
    } else if args[0] == "--days" && |args| > 1 && args[1] != [] {
      CountFromArgument(parse, args[2..], st.(days := parse(args[1])));
      if r.count != st.count {
        var k :| 0 <= k < |args[2..]| && parse(args[2..][k]) == Some(r.count);
        assert parse(args[k + 2]) == Some(r.count);
      }
    } else {
      var c := parse(args[0]);
      var st' := if c.Some? then st.(count := c.value) else st;
      CountFromArgument(parse, args[1..], st');
      if r.count != st'.count {
        var k :| 0 <= k < |args[1..]| && parse(args[1..][k]) == Some(r.count);
        assert parse(args[k + 1]) == Some(r.count);
      } else if r.count != st.count {
        assert parse(args[0]) == Some(r.count);
      }
    }
  }

  /** The expiry is the starting one or the reading of an argument right
      after `--days`. */
  lemma {:induction false} DaysFromFlag(parse: string -> Option<int>, args: seq<string>, st: Settings)
    ensures var r := ParseArgsBy(parse, args, st);
            r.days == st.days
            || exists k :: 1 <= k < |args| && args[k - 1] == "--days" && r.days == parse(args[k])
    decreases |args|
  {
    var r := ParseArgsBy(parse, args, st);
    if |args| == 0 {
    } else if args[0] == "--days" && |args| > 1 && args[1] != [] {
      var st' := st.(days := parse(args[1]));
      DaysFromFlag(parse, args[2..], st');
      if r.days != st'.days {
        var k :| 1 <= k < |args[2..]| && args[2..][k - 1] == "--days" && r.days == parse(args[2..][k]);
        assert args[k + 1] == "--days" && r.days == parse(args[k + 2]);
      } else if r.days != st.days {
        assert args[0] == "--days" && r.days == parse(args[1]);
      }
    } else {
      var c := parse(args[0]);
      var st' := if c.Some? then st.(count := c.value) else st;
      DaysFromFlag(parse, args[1..], st');
      if r.days != st.days {
        var k :| 1 <= k < |args[1..]| && args[1..][k - 1] == "--days" && r.days == parse(args[1..][k]);
        assert args[k] == "--days" && r.days == parse(args[k + 1]);
      }
    }
  }

  /** Without `--days`, arguments `parse` cannot read change nothing. */
  lemma {:induction false} NoNumbersNoChange(parse: string -> Option<int>, args: seq<string>, st: Settings)
    requires "--days" !in args
    requires forall k :: 0 <= k < |args| ==> parse(args[k]).None?
    ensures ParseArgsBy(parse, args, st) == st
    decreases |args|
  {
    if |args| > 0 {
      assert forall k :: 0 <= k < |args| - 1 ==> args[1..][k] == args[k + 1];
      NoNumbersNoChange(parse, args[1..], st);
    }
  }

  /** Without `--days`, the last argument `parse` reads sets the count and the
      expiry keeps its value. */
  lemma {:induction false} LastNumberWins(parse: string -> Option<int>, args: seq<string>, st: Settings, k: nat)
    requires "--days" !in args
    requires k < |args| && parse(args[k]).Some?
    requires forall j :: k < j < |args| ==> parse(args[j]).None?
    ensures ParseArgsBy(parse, args, st) == st.(count := parse(args[k]).value)
    decreases |args|
  {
    assert forall j :: 0 <= j < |args| - 1 ==> args[1..][j] == args[j + 1];
    var st' := if parse(args[0]).Some? then st.(count := parse(args[0]).value) else st;
    if k == 0 {
      NoNumbersNoChange(parse, args[1..], st');
    } else {
      LastNumberWins(parse, args[1..], st', k - 1);
    }
  }

  /** `--days` with a non-empty value consumes it: the value sets the expiry,
      NaN included, and is never read as a count. */
  lemma DaysTakesNext(parse: string -> Option<int>, v: string, rest: seq<string>, st: Settings)
    requires v != []
    ensures ParseArgsBy(parse, ["--days", v] + rest, st) == ParseArgsBy(parse, rest, st.(days := parse(v)))
  {
    var args := ["--days", v] + rest;
    assert args[2..] == rest;
  }

  /** The documented usage `<count> --days <days>` (e.g. `3 --days 7`) sets
      both settings. */
  lemma UsageForm(c: nat, d: nat)
    ensures ParseArgs([NatToString(c), "--days", NatToString(d)]) == Settings(c, Some(d))
  {
    ParseIntOfNatToString(c, []);
    ParseIntOfNatToString(d, []);
    assert NatToString(c) + [] == NatToString(c) && NatToString(d) + [] == NatToString(d);
    var args := [NatToString(c), "--days", NatToString(d)];
    assert args[0] != "--days" by {
      assert IsDigit(args[0][0]);
    }
    assert args[1..] == ["--days", NatToString(d)];
    DaysTakesNext(ParseInt, NatToString(d), [], Settings(c, Some(30)));
    assert ["--days", NatToString(d)] + [] == ["--days", NatToString(d)];
  }

  /** A trailing `--days` is ignored: `parseInt("--days")` is NaN. */
  lemma TrailingDaysIgnored(st: Settings)
    ensures ParseArgsBy(ParseInt, ["--days"], st) == st
  {
    var t := TrimStart("--days");
    assert t == "--days";
    assert t[1..][0] == '-';
  }

  /** `uuid.split("-").slice(0, 2).join("-").toUpperCase()` after `LH-`. */
  function InviteCode(uuid: string): (code: string)
    ensures StartsWith(code, "LH-")
  {
    var groups := Split(uuid, "-");
    var kept := if |groups| <= 2 then groups else groups[..2];
    var code := "LH-" + ToUpper(Join(kept, "-"));
    assert code[..3] == "LH-";
    code
  }

  /** A code keeps the first two hyphen-separated groups, uppercased: for a
      UUID `xxxxxxxx-xxxx-…` it is `LH-` plus 13 characters. */
  lemma InviteCodeOfGroups(a: string, b: string, rest: string)
    requires '-' !in a && '-' !in b
    ensures InviteCode(a + "-" + b + "-" + rest) == "LH-" + ToUpper(a + "-" + b)
    ensures |InviteCode(a + "-" + b + "-" + rest)| == 4 + |a| + |b|
  {
    var uuid := a + "-" + b + "-" + rest;
    FirstTwoGroups(a, b, rest);
    var groups := Split(uuid, "-");
    assert |groups| > 2 && groups[..2] == [a, b];
    assert Join([a, b], "-") == a + "-" + b;
  }

  lemma FirstTwoGroups(a: string, b: string, rest: string)
    requires '-' !in a && '-' !in b
    ensures Split(a + "-" + b + "-" + rest, "-") == [a, b] + Split(rest, "-")
  {
    Regroup(a, b, rest);
    NestedGroups(a, b, rest);
  }

  lemma Regroup(a: string, b: string, rest: string)
    ensures a + "-" + b + "-" + rest == a + "-" + (b + "-" + rest)
  {
  }

  lemma NestedGroups(a: string, b: string, rest: string)
    requires '-' !in a && '-' !in b
    ensures Split(a + "-" + (b + "-" + rest), "-") == [a, b] + Split(rest, "-")
  {
    SplitHyphen(a, b + "-" + rest);
    SplitHyphen(b, rest);
  }

  lemma SplitHyphen(p: string, rest: string)
    requires '-' !in p
    ensures Split(p + "-" + rest, "-") == [p] + Split(rest, "-")
  {
    HyphenFree(p);
    SplitAfterPrefix(p, "-", rest);
  }

  lemma HyphenFree(s: string)
    requires '-' !in s
    ensures !Contains(s, "-")
  {
    forall i | 0 <= i < |s| ensures !OccursAt(s, "-", i) {
      assert s[i..i + 1] == [s[i]];
    }
  }

  /** The largest time value, in ms either side of the epoch, that a `Date`
      can hold (the TimeClip bound of ECMAScript). */
  const MaxTimeMs: int := 8_640_000_000_000_000

  /** `new Date(Date.now() + expiryDays * 86400000)`: NaN days, or a sum
      beyond the TimeClip bound, give an Invalid Date (`None`). */
  function ExpiresAt(now: int, days: Option<int>): (r: Option<int>)
    ensures r.Some? <==> days.Some? && -MaxTimeMs <= now + days.value * DayMs <= MaxTimeMs
    ensures r.Some? ==> r.value - now == days.value * DayMs
  {
    match days
    case None => None
    case Some(d) =>
      var t := now + d * DayMs;
      if -MaxTimeMs <= t <= MaxTimeMs then Some(t) else None
  }

  /** The codes of one run: one per loop iteration, each from the next UUID. */
  function RunCodes(uuids: seq<string>, count: nat): (codes: seq<string>)
    requires count <= |uuids|
    ensures |codes| == count
    ensures forall k :: 0 <= k < count ==> codes[k] == InviteCode(uuids[k])
  {
    seq(count, k requires 0 <= k < count => InviteCode(uuids[k]))
  }

  /** `code` is unique in the invite table: the k-th `create` fails when its
      code is already stored, before the run or earlier in it. */
  predicate Clashes(m: map<string, SignUp.Invite>, codes: seq<string>, k: nat)
    requires k < |codes|
  {
    codes[k] in m || codes[k] in codes[..k]
  }

  /** The k-th `create` fails: its expiry, from the k-th clock reading, is an
      Invalid Date, or its code is taken. */
  predicate Blocked(m: map<string, SignUp.Invite>, codes: seq<string>, nows: seq<int>,
                    days: Option<int>, k: nat)
    requires k < |codes| && k < |nows|
  {
    ExpiresAt(nows[k], days).None? || Clashes(m, codes, k)
  }

  /** The first write of the run, at or after `from`, that fails. */
  function FirstBlocked(m: map<string, SignUp.Invite>, codes: seq<string>, nows: seq<int>,
                        days: Option<int>, from: nat): (r: Option<nat>)
    requires |codes| <= |nows|
    decreases |codes| - from
    ensures r.Some? ==> from <= r.value < |codes| && Blocked(m, codes, nows, days, r.value)
    ensures r.Some? ==> forall j :: from <= j < r.value ==> !Blocked(m, codes, nows, days, j)
    ensures r.None? ==> forall j :: from <= j < |codes| ==> !Blocked(m, codes, nows, days, j)
  {
    if from >= |codes| then None
    else if Blocked(m, codes, nows, days, from) then Some(from)
    else FirstBlocked(m, codes, nows, days, from + 1)
  }

  /** No code of the list is stored yet, and no two are equal. */
  predicate FreshCodes(m: map<string, SignUp.Invite>, codes: seq<string>) {
    forall k :: 0 <= k < |codes| ==> !Clashes(m, codes, k)
  }

  /** The expiry timestamps of the first `k` writes, each from its own clock
      reading, when all of them are valid dates. */
  function Stamps(nows: seq<int>, days: Option<int>, k: nat): (ts: seq<int>)
    requires k <= |nows|
    requires forall j :: 0 <= j < k ==> ExpiresAt(nows[j], days).Some?
    ensures |ts| == k
    ensures forall j :: 0 <= j < k ==> ts[j] == ExpiresAt(nows[j], days).value
  {
    seq(k, j requires 0 <= j < k => ExpiresAt(nows[j], days).value)
  }

  /** None of the first `k` writes fails. */
  predicate Unblocked(m: map<string, SignUp.Invite>, codes: seq<string>, nows: seq<int>,
                      days: Option<int>, k: nat)
    requires k <= |codes| <= |nows|
  {
    forall j :: 0 <= j < k ==> !Blocked(m, codes, nows, days, j)
  }

  /** `out` is `db` after the writes of `done`, a prefix of the run `all`
      none of whose writes failed: each stored invite is unredeemed and
      expires `days` after its own clock reading; the rows already stored and
      the users are kept. */
  predicate StoredRun(db: SignUp.Db, all: seq<string>, nows: seq<int>, days: Option<int>,
                      done: seq<string>, out: SignUp.Db)
    requires |all| <= |nows|
  {
    && |done| <= |all|
    && done == all[..|done|]
    && Unblocked(db.invites, all, nows, days, |done|)
    && FreshCodes(db.invites, done)
    && (forall k :: 0 <= k < |done| ==>
          && ExpiresAt(nows[k], days).Some?
          && done[k] in out.invites
          && out.invites[done[k]] == SignUp.Invite(None, ExpiresAt(nows[k], days).value))
    && (forall c :: c in out.invites ==> c in db.invites || c in done)
    && (forall c :: c in db.invites ==> c in out.invites && out.invites[c] == db.invites[c])
    && out.users == db.users
  }

  /** The first `k` writes of a run, none of which fails. */
  function RunWrites(db: SignUp.Db, all: seq<string>, nows: seq<int>, days: Option<int>, k: nat)
    : (out: SignUp.Db)
    requires k <= |all| <= |nows|
    requires Unblocked(db.invites, all, nows, days, k)
    ensures StoredRun(db, all, nows, days, all[..k], out)
  {
    assert forall j :: 0 <= j < k ==> !Clashes(db.invites, all, j) && ExpiresAt(nows[j], days).Some? by {
      forall j | 0 <= j < k ensures !Clashes(db.invites, all, j) && ExpiresAt(nows[j], days).Some? {
        assert !Blocked(db.invites, all, nows, days, j);
      }
    }
    FirstClashFresh(db.invites, all, k);
    var ts := Stamps(nows, days, k);
    SignUp.Db(AddInvites(db.invites, all[..k], ts), db.users)
  }

  datatype Generated =
    | NoAdmin
    | InvalidExpiry(codes: seq<string>, invites: SignUp.Db)
    | Collision(codes: seq<string>, invites: SignUp.Db)
    | Codes(codes: seq<string>, invites: SignUp.Db)

  /** The generation loop: without an admin nothing happens; otherwise one
      `create` per iteration, `max(count, 0)` in all, each code from the next
      UUID and each expiry `days` after that iteration's clock reading
      `nows[k]`. The run stops at the first `create` that fails, keeping the
      invites stored before it: `InvalidExpiry` when its expiry is an Invalid
      Date (rejected before the store is asked), `Collision` when its code is
      taken. */
  function Generate(st: Settings, uuids: seq<string>, admin: Option<string>, nows: seq<int>, db: SignUp.Db)
    : (g: Generated)
    requires st.count <= |uuids| && st.count <= |nows|
    ensures admin.None? <==> g == NoAdmin
    ensures var n := if st.count > 0 then st.count else 0;
            var all := RunCodes(uuids, n);
            && (g.Codes? <==> admin.Some? && Unblocked(db.invites, all, nows, st.days, n))
            && (g.Codes? ==> |g.codes| == n)
            && (g.InvalidExpiry? ==> |g.codes| < n && ExpiresAt(nows[|g.codes|], st.days).None?)
            && (g.Collision? ==>
                  && |g.codes| < n
                  && ExpiresAt(nows[|g.codes|], st.days).Some?
                  && Clashes(db.invites, all, |g.codes|))
            && (!g.NoAdmin? ==> StoredRun(db, all, nows, st.days, g.codes, g.invites))
  {
    if admin.None? then NoAdmin
    else if st.count <= 0 then
      assert StoredRun(db, [], nows, st.days, [], db);
      Codes([], db)
    else
      var all := RunCodes(uuids, st.count);
      match FirstBlocked(db.invites, all, nows, st.days, 0)
      case None =>
        assert all[..|all|] == all;
        Codes(all, RunWrites(db, all, nows, st.days, |all|))
      case Some(k) =>
        var written := RunWrites(db, all, nows, st.days, k);
        if ExpiresAt(nows[k], st.days).None? then InvalidExpiry(all[..k], written)
        else Collision(all[..k], written)
  }

  /** With NaN days every expiry is an Invalid Date, so the first `create`
      fails and nothing is stored. */
  lemma NaNDaysStoreNothing(st: Settings, uuids: seq<string>, admin: string, nows: seq<int>, db: SignUp.Db)
    requires st.count <= |uuids| && st.count <= |nows|
    requires st.count > 0 && st.days.None?
    ensures Generate(st, uuids, Some(admin), nows, db) == InvalidExpiry([], db)
  {
    var all := RunCodes(uuids, st.count);
    assert Blocked(db.invites, all, nows, st.days, 0);
    assert FirstBlocked(db.invites, all, nows, st.days, 0) == Some(0);
    assert all[..0] == [];
  }

  /** The writes before the first failure are fresh and distinct. */
  lemma FirstClashFresh(m: map<string, SignUp.Invite>, codes: seq<string>, k: nat)
    requires k <= |codes|
    requires forall j :: 0 <= j < k ==> !Clashes(m, codes, j)
    ensures FreshCodes(m, codes[..k])
  {
    forall j | 0 <= j < k ensures !Clashes(m, codes[..k], j) {
      assert codes[..k][..j] == codes[..j];
      assert !Clashes(m, codes, j);
    }
  }

  /** The invite records written for fresh, distinct `codes`: the k-th is
      unredeemed and expires at the k-th timestamp; every stored invite is
      kept. */
  function AddInvites(m: map<string, SignUp.Invite>, codes: seq<string>, expiries: seq<int>)
    : (r: map<string, SignUp.Invite>)
    requires |codes| <= |expiries|
    requires FreshCodes(m, codes)
    decreases |codes|
    ensures forall k :: 0 <= k < |codes| ==>
              codes[k] in r && r[codes[k]] == SignUp.Invite(None, expiries[k])
    ensures forall c :: c in r <==> c in m || c in codes
    ensures forall c :: c in m ==> r[c] == m[c]
  {
    if |codes| == 0 then m
    else
      var n := |codes| - 1;
      var init := codes[..n];
      FreshPrefix(m, codes, n);
      var r0 := AddInvites(m, init, expiries);
      assert codes[n] !in r0 by {
        assert !Clashes(m, codes, n);
      }
      assert codes == init + [codes[n]];
      r0[codes[n] := SignUp.Invite(None, expiries[n])]
  }

  /** A prefix of fresh, distinct codes is fresh and distinct. */
  lemma FreshPrefix(m: map<string, SignUp.Invite>, codes: seq<string>, n: nat)
    requires FreshCodes(m, codes) && n <= |codes|
    ensures FreshCodes(m, codes[..n])
  {
    forall j | 0 <= j < n ensures !Clashes(m, codes[..n], j) {
      assert codes[..n][..j] == codes[..j];
      assert !Clashes(m, codes, j);
    }
  }

  /** An invite generated for `days` days is accepted by sign-up exactly until
      `days * 86400000` ms after it was generated, the last millisecond
      included. */
  lemma FreshInviteWindow(f: SignUp.Form, db: SignUp.Db, created: int, days: int, t: int, id: string)
    requires SignUp.Given(f.email) && SignUp.Given(f.name) && SignUp.Given(f.password)
    requires SignUp.Given(f.inviteCode)
    requires |f.password.value| >= SignUp.MinPasswordLength
    requires SignUp.NormalEmail(f.email.value) !in db.users
    requires ExpiresAt(created, Some(days)).Some?
    requires db.invites == map[Trim(f.inviteCode.value) := SignUp.Invite(None, ExpiresAt(created, Some(days)).value)]
    ensures SignUp.Register(Some(f), db, t, id).0.Created? <==> t <= created + days * DayMs
  {
  }
}
