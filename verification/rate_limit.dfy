/** The password gate (api/verify-password.js): a per-IP sliding-window rate
    limiter, client-IP extraction and the handler's check order. The in-memory
    `Map` is a value threaded through calls, `Date.now()` is a parameter and the
    bcrypt comparison is a function parameter. */
module RateLimit {
  import opened Wrappers
  import opened Strings

  const WindowMs: int := 15 * 60 * 1000
  const MaxAttempts: nat := 10

  /** IP address to the timestamps (ms) of its recorded attempts. */
  type Attempts = map<string, seq<int>>

  function Stored(a: Attempts, ip: string): seq<int> {
    if ip in a then a[ip] else []
  }

  /** Every stored list has at most `MaxAttempts` entries. */
  ghost predicate Bounded(a: Attempts) {
    forall ip :: ip in a ==> |a[ip]| <= MaxAttempts
  }

  predicate Recent(t: int, now: int) {
    now - t < WindowMs
  }

  /** `filter(t => now - t < WINDOW_MS)`: the recent timestamps, in order. */
  function InWindow(ts: seq<int>, now: int): (r: seq<int>)
    ensures |r| <= |ts|
    ensures forall k :: 0 <= k < |r| ==> Recent(r[k], now) && r[k] in ts
    ensures forall k :: 0 <= k < |ts| && Recent(ts[k], now) ==> ts[k] in r
  {
    if |ts| == 0 then []
    else
      var rest := InWindow(ts[1..], now);
      assert forall k :: 1 <= k < |ts| ==> ts[k] == ts[1..][k - 1];
      if Recent(ts[0], now) then [ts[0]] + rest else rest
  }

  /** Reference count of the recent timestamps. */
  function CountRecent(ts: seq<int>, now: int): nat {
    if |ts| == 0 then 0
    else CountRecent(ts[..|ts| - 1], now) + (if Recent(ts[|ts| - 1], now) then 1 else 0)
  }

  lemma {:induction false} InWindowAppend(x: seq<int>, y: seq<int>, now: int)
    ensures InWindow(x + y, now) == InWindow(x, now) + InWindow(y, now)
  {
    if |x| > 0 {
      assert (x + y)[1..] == x[1..] + y;
      InWindowAppend(x[1..], y, now);
    } else {
      assert x + y == y;
    }
  }

  lemma {:induction false} InWindowCounts(ts: seq<int>, now: int)
    ensures |InWindow(ts, now)| == CountRecent(ts, now)
  {
    if |ts| > 0 {
      var init := ts[..|ts| - 1];
      assert ts == init + [ts[|ts| - 1]];
      InWindowAppend(init, [ts[|ts| - 1]], now);
      InWindowCounts(init, now);
    }
  }

  /** A list whose entries are all recent passes the filter unchanged. */
  lemma {:induction false} InWindowKeepsRecent(ts: seq<int>, now: int)
    requires forall k :: 0 <= k < |ts| ==> Recent(ts[k], now)
    ensures InWindow(ts, now) == ts
  {
    if |ts| > 0 {
      InWindowKeepsRecent(ts[1..], now);
    }
  }

  datatype Verdict = Verdict(limited: bool, attempts: Attempts)

  /** `isRateLimited(ip)` at time `now`: limited exactly when at least
      `MaxAttempts` recent attempts are stored; a limited call stores the
      filtered list, any other call stores it with `now` appended. */
  function Check(a: Attempts, ip: string, now: int): (v: Verdict)
    ensures v.limited <==> CountRecent(Stored(a, ip), now) >= MaxAttempts
    ensures ip in v.attempts
    ensures v.limited ==> v.attempts[ip] == InWindow(Stored(a, ip), now)
    ensures !v.limited ==> v.attempts[ip] == InWindow(Stored(a, ip), now) + [now]
    ensures forall k :: 0 <= k < |v.attempts[ip]| ==> Recent(v.attempts[ip][k], now)
    ensures forall other :: other != ip ==>
              (other in v.attempts <==> other in a) && (other in a ==> v.attempts[other] == a[other])
    ensures Bounded(a) ==> Bounded(v.attempts)
  {
    var ts := InWindow(Stored(a, ip), now);
    InWindowCounts(Stored(a, ip), now);
    assert Recent(now, now);
    if |ts| >= MaxAttempts then Verdict(true, a[ip := ts])
    else Verdict(false, a[ip := ts + [now]])
  }

  /** A run of calls from one IP at the given times: the final state and the
      times of the calls that were let through. */
  function Run(a: Attempts, ip: string, times: seq<int>): (r: (Attempts, seq<int>))
    decreases |times|
    ensures |r.1| <= |times|
  {
    if |times| == 0 then (a, [])
    else
      var v := Check(a, ip, times[0]);
      var rest := Run(v.attempts, ip, times[1..]);
      (rest.0, (if v.limited then [] else [times[0]]) + rest.1)
  }

  predicate IsSuffix(p: seq<int>, s: seq<int>) {
    |p| <= |s| && s[|s| - |p|..] == p
  }

  /** Filtering keeps a suffix of recent timestamps in place. */
  lemma FilterKeepsSuffix(s: seq<int>, pre: seq<int>, now: int)
    requires IsSuffix(pre, s)
    requires forall k :: 0 <= k < |pre| ==> Recent(pre[k], now)
    ensures IsSuffix(pre, InWindow(s, now))
  {
    var head := s[..|s| - |pre|];
    assert s == head + pre;
    InWindowAppend(head, pre, now);
    InWindowKeepsRecent(pre, now);
    var t := InWindow(s, now);
    assert t == InWindow(head, now) + pre;
    assert t[|t| - |pre|..] == pre;
  }

  /** One call at a time inside the window keeps the earlier let-through
      times as a suffix of the stored list, and adds its own when let through. */
  lemma StepKeepsSuffix(a: Attempts, ip: string, now: int, pre: seq<int>, lo: int)
    requires IsSuffix(pre, Stored(a, ip))
    requires forall k :: 0 <= k < |pre| ==> lo <= pre[k] < lo + WindowMs
    requires lo <= now < lo + WindowMs
    ensures var v := Check(a, ip, now);
            IsSuffix(if v.limited then pre else pre + [now], Stored(v.attempts, ip))
  {
    var f := InWindow(Stored(a, ip), now);
    FilterKeepsSuffix(Stored(a, ip), pre, now);
    var v := Check(a, ip, now);
    if !v.limited {
      var t := f + [now];
      assert t[|t| - |pre| - 1..] == f[|f| - |pre|..] + [now];
    }
  }

  /** The calls let through so far stay stored as a suffix of the IP's list
      while every time lies in one window, so the list bounds their number. */
  lemma {:induction false} RunBound(a: Attempts, ip: string, times: seq<int>, pre: seq<int>, lo: int)
    requires Bounded(a)
    requires IsSuffix(pre, Stored(a, ip))
    requires forall k :: 0 <= k < |pre| ==> lo <= pre[k] < lo + WindowMs
    requires forall k :: 0 <= k < |times| ==> lo <= times[k] < lo + WindowMs
    ensures |pre| + |Run(a, ip, times).1| <= MaxAttempts
    decreases |times|
  {
    if |times| == 0 {
      assert |Stored(a, ip)| <= MaxAttempts by {
        if ip in a { }
      }
    } else {
      var now := times[0];
      var v := Check(a, ip, now);
      StepKeepsSuffix(a, ip, now, pre, lo);
      var pre' := if v.limited then pre else pre + [now];
      AllInWindow(pre, now, v.limited, lo);
      AllInWindow(times[1..], times[0], true, lo);
      RunBound(v.attempts, ip, times[1..], pre', lo);
      RunLength(a, ip, times);
    }
  }

  /** A list of in-window times, kept as it is or extended by an in-window
      time, stays in the window. */
  lemma AllInWindow(ts: seq<int>, now: int, keep: bool, lo: int)
    requires forall k :: 0 <= k < |ts| ==> lo <= ts[k] < lo + WindowMs
    requires keep || lo <= now < lo + WindowMs
    ensures var u := if keep then ts else ts + [now];
            forall k :: 0 <= k < |u| ==> lo <= u[k] < lo + WindowMs
  {
  }

  /** The first call of a run counts when it is let through. */
  lemma RunLength(a: Attempts, ip: string, times: seq<int>)
    requires |times| > 0
    ensures var v := Check(a, ip, times[0]);
            |Run(a, ip, times).1| == (if v.limited then 0 else 1) + |Run(v.attempts, ip, times[1..]).1|
  {
  }

  /** Whatever the order of the calls, at most `MaxAttempts` of those made
      within one window are let through. */
  lemma AtMostMaxPerWindow(a: Attempts, ip: string, times: seq<int>, lo: int)
    requires Bounded(a)
    requires forall k :: 0 <= k < |times| ==> lo <= times[k] < lo + WindowMs
    ensures |Run(a, ip, times).1| <= MaxAttempts
  {
    RunBound(a, ip, times, [], lo);
  }

  // ---------------------------------------------------------------------------
  // Client IP and handler
  // ---------------------------------------------------------------------------

  /** The first comma-separated entry of `x-forwarded-for`, trimmed, if that is
      non-empty; else the socket address if non-empty; else `"unknown"`. */
  function ClientIp(forwarded: Option<string>, remote: Option<string>): (ip: string)
    ensures ip != []
    ensures forwarded.Some? && Trim(Split(forwarded.value, ",")[0]) != [] ==>
              ip == Trim(Split(forwarded.value, ",")[0]) && ',' !in ip
    ensures (forwarded.None? || Trim(Split(forwarded.value, ",")[0]) == []) ==>
              ip == (if remote.Some? && remote.value != [] then remote.value else "unknown")
  {
    var first := if forwarded.Some? then Trim(Split(forwarded.value, ",")[0]) else [];
    if first != [] then
      NoCommaInTrim(Split(forwarded.value, ",")[0]);
      first
    else if remote.Some? && remote.value != [] then remote.value
    else "unknown"
  }

  lemma NoCommaInTrim(piece: string)
    requires !Contains(piece, ",")
    ensures ',' !in Trim(piece)
  {
    assert ',' !in piece by {
      forall k | 0 <= k < |piece| ensures piece[k] != ',' {
        assert piece[k..k + 1] == [piece[k]];
        assert !OccursAt(piece, ",", k);
      }
    }
    var a := TrimStart(piece);
    assert forall c :: c in a ==> c in piece;
    assert forall c :: c in TrimEnd(a) ==> c in a;
  }

  /** A header `first,rest` with a comma-free, non-blank first entry yields
      that entry, trimmed, whatever follows. */
  lemma ForwardedFirstEntry(first: string, rest: string, remote: Option<string>)
    requires ',' !in first && Trim(first) != []
    ensures ClientIp(Some(first + "," + rest), remote) == Trim(first)
  {
    assert !Contains(first, ",") by {
      forall i | 0 <= i < |first| ensures !OccursAt(first, ",", i) {
        assert first[i..i + 1] == [first[i]];
      }
    }
    SplitAfterPrefix(first, ",", rest);
  }

  /** The request fields the handler reads; `password` is `None` when the body
      or its `password` field is missing or not a string. */
  datatype PasswordRequest = PasswordRequest(
    verb: string, forwarded: Option<string>, remote: Option<string>, password: Option<string>)

  datatype PasswordReply =
    | Preflight
    | MethodNotAllowed
    | TooManyAttempts
    | PasswordRequired
    | Misconfigured
    | Checked(success: bool)

  function ReplyStatus(r: PasswordReply): int {
    match r
    case Preflight => 204
    case MethodNotAllowed => 405
    case TooManyAttempts => 429
    case PasswordRequired => 400
    case Misconfigured => 500
    case Checked(_) => 200
  }

  /** The handler: OPTIONS and other methods record nothing; every POST goes
      through the limiter before the body is looked at, so even a malformed
      POST uses up an attempt. `hash` is `""` when unset; `matches` is the
      bcrypt comparison. */
  function VerifyPassword(req: PasswordRequest, hash: string, matches: (string, string) -> bool,
                          a: Attempts, now: int): (r: (PasswordReply, Attempts))
    ensures req.verb != "POST" ==> r.1 == a
    ensures r.0 == Preflight <==> req.verb == "OPTIONS"
    ensures r.0 == MethodNotAllowed <==> req.verb != "OPTIONS" && req.verb != "POST"
    ensures req.verb == "POST" ==>
              r.1 == Check(a, ClientIp(req.forwarded, req.remote), now).attempts
    ensures r.0 == TooManyAttempts <==>
              req.verb == "POST" && Check(a, ClientIp(req.forwarded, req.remote), now).limited
    ensures r.0 == PasswordRequired <==>
              && req.verb == "POST" && !Check(a, ClientIp(req.forwarded, req.remote), now).limited
              && (req.password.None? || req.password.value == [])
    ensures r.0 == Misconfigured <==>
              && req.verb == "POST" && !Check(a, ClientIp(req.forwarded, req.remote), now).limited
              && req.password.Some? && req.password.value != [] && hash == []
    ensures r.0.Checked? <==>
              && req.verb == "POST" && !Check(a, ClientIp(req.forwarded, req.remote), now).limited
              && req.password.Some? && req.password.value != [] && hash != []
    ensures r.0.Checked? ==> r.0.success == matches(req.password.value, hash)
  {
    if req.verb == "OPTIONS" then (Preflight, a)
    else if req.verb != "POST" then (MethodNotAllowed, a)
    else
      var v := Check(a, ClientIp(req.forwarded, req.remote), now);
      if v.limited then (TooManyAttempts, v.attempts)
      else if req.password.None? || req.password.value == [] then (PasswordRequired, v.attempts)
      else if hash == [] then (Misconfigured, v.attempts)
      else (Checked(matches(req.password.value, hash)), v.attempts)
  }

  /** The limiter decides before the password is read: two POSTs from the same
      address at the same time reach the same state and are limited alike,
      whatever their passwords. */
  lemma LimitBeforePassword(r1: PasswordRequest, r2: PasswordRequest, hash: string,
                            matches: (string, string) -> bool, a: Attempts, now: int)
    requires r1.verb == r2.verb == "POST"
    requires r1.forwarded == r2.forwarded && r1.remote == r2.remote
    ensures VerifyPassword(r1, hash, matches, a, now).1 == VerifyPassword(r2, hash, matches, a, now).1
    ensures (VerifyPassword(r1, hash, matches, a, now).0 == TooManyAttempts)
            == (VerifyPassword(r2, hash, matches, a, now).0 == TooManyAttempts)
  {
  }
}
