/** The sign-up endpoint (src/app/api/auth/sign-up/route.ts, `POST`): the
    validation chain in source order, input normalisation, and the state
    change of a successful sign-up. The database is a value: invites keyed by
    code, users keyed by (normalised) email. The clock and the new user's id
    are parameters; password hashing is left out. */
module SignUp {
  import opened Wrappers
  import opened Strings

  /** The four body fields; `None` when the field is missing. */
  datatype Form = Form(email: Option<string>, name: Option<string>,
                       password: Option<string>, inviteCode: Option<string>)

  /** An invite row as sign-up reads it, keyed by its unique code. The row's
      store-assigned id is left out: the redeeming update addresses the same
      row through its code. */
  datatype Invite = Invite(redeemedBy: Option<string>, expiresAt: int)

  datatype User = User(id: string, email: string, name: string)

  datatype Db = Db(invites: map<string, Invite>, users: map<string, User>)

  datatype Outcome =
    | ServerError
    | MissingFields
    | ShortPassword
    | InvalidInvite
    | AlreadyUsed
    | Expired
    | EmailTaken
    | Created(user: User, session: string)

  function Status(o: Outcome): int {
    match o
    case ServerError => 500
    case Created(_, _) => 200
    case _ => 400
  }

  const MinPasswordLength: nat := 8

  /** A truthy string: present and non-empty. */
  predicate Given(f: Option<string>) {
    f.Some? && f.value != []
  }

  /** `invite.redeemedById` is truthy. */
  predicate Redeemed(i: Invite) {
    i.redeemedBy.Some? && i.redeemedBy.value != []
  }

  /** `email.toLowerCase().trim()`: the key of the duplicate check and the
      stored address — the lower-cased address with surrounding whitespace
      removed. */
  function NormalEmail(email: string): (r: string)
    ensures |r| <= |email|
    ensures r == [] || (!IsSpace(r[0]) && !IsSpace(r[|r| - 1]))
    ensures exists i :: SpaceAround(ToLower(email), r, i)
  {
    Trim(ToLower(email))
  }

  /** All four fields are truthy strings: the body gets past the first check. */
  predicate Complete(f: Form) {
    Given(f.email) && Given(f.name) && Given(f.password) && Given(f.inviteCode)
  }

  /** The body gets past the field and password-length checks, so its invite
      code is looked up. */
  predicate LooksUpInvite(body: Option<Form>) {
    body.Some? && Complete(body.value) && |body.value.password.value| >= MinPasswordLength
  }

  /** The trimmed invite code of a body that reaches the lookup. */
  function CodeOf(body: Option<Form>): string
    requires LooksUpInvite(body)
  {
    Trim(body.value.inviteCode.value)
  }

  /** The looked-up invite exists, is unredeemed and has not expired, so the
      email is looked up next. */
  predicate InviteUsable(body: Option<Form>, db: Db, now: int) {
    && LooksUpInvite(body)
    && CodeOf(body) in db.invites
    && !Redeemed(db.invites[CodeOf(body)])
    && now <= db.invites[CodeOf(body)].expiresAt
  }

  /** `POST` on a parsed body (`None` when `request.json()` fails): the first
      failing check decides; only a success changes the database, creating the
      user, redeeming the invite and opening a session for the new user. */
  function Register(body: Option<Form>, db: Db, now: int, newUserId: string): (r: (Outcome, Db))
    ensures !r.0.Created? ==> r.1 == db
    ensures r.0 == ServerError <==> body.None?
    ensures r.0 == MissingFields <==> body.Some? && !Complete(body.value)
    ensures r.0 == ShortPassword <==>
              body.Some? && Complete(body.value) && |body.value.password.value| < MinPasswordLength
    ensures r.0 == InvalidInvite <==> LooksUpInvite(body) && CodeOf(body) !in db.invites
    ensures r.0 == AlreadyUsed <==>
              LooksUpInvite(body) && CodeOf(body) in db.invites && Redeemed(db.invites[CodeOf(body)])
    ensures r.0 == Expired <==>
              && LooksUpInvite(body) && CodeOf(body) in db.invites
              && !Redeemed(db.invites[CodeOf(body)]) && db.invites[CodeOf(body)].expiresAt < now
    ensures r.0 == EmailTaken <==>
              InviteUsable(body, db, now) && NormalEmail(body.value.email.value) in db.users
    ensures r.0.Created? <==>
              InviteUsable(body, db, now) && NormalEmail(body.value.email.value) !in db.users
    ensures r.0.Created? ==>
              && var f := body.value;
              && var code := CodeOf(body);
              && var email := NormalEmail(f.email.value);
              && r.0.user == User(newUserId, email, Trim(f.name.value))
              && r.0.session == newUserId
              && r.1.users == db.users[email := r.0.user]
              && r.1.invites == db.invites[code := db.invites[code].(redeemedBy := Some(newUserId))]
  {
    if body.None? then (ServerError, db)
    else
      var f := body.value;
      if !Complete(f) then (MissingFields, db)
      else if |f.password.value| < MinPasswordLength then (ShortPassword, db)
      else
        var code := Trim(f.inviteCode.value);
        if code !in db.invites then (InvalidInvite, db)
        else
          var invite := db.invites[code];
          if Redeemed(invite) then (AlreadyUsed, db)
          else if invite.expiresAt < now then (Expired, db)
          else
            var email := NormalEmail(f.email.value);
            if email in db.users then (EmailTaken, db)
            else
              var user := User(newUserId, email, Trim(f.name.value));
              (Created(user, newUserId),
               Db(db.invites[code := invite.(redeemedBy := Some(newUserId))], db.users[email := user]))
  }

  /** The checks run in source order: a missing field is reported before a
      short password, which is reported before any invite is looked up. */
  lemma MissingFieldFirst(f: Form, db: Db, now: int, id: string)
    requires !Given(f.password) || !Given(f.inviteCode)
    ensures Register(Some(f), db, now, id).0 == MissingFields
  {
  }

  lemma ShortPasswordBeforeInvite(f: Form, db: Db, now: int, id: string)
    requires Given(f.email) && Given(f.name) && Given(f.inviteCode)
    requires f.password.Some? && 0 < |f.password.value| < MinPasswordLength
    ensures Register(Some(f), db, now, id).0 == ShortPassword
  {
  }

  /** An invite expiring exactly now is still accepted: expiry is strict. */
  lemma ExpiryIsStrict(f: Form, db: Db, now: int, id: string)
    requires Given(f.email) && Given(f.name) && Given(f.password) && Given(f.inviteCode)
    requires |f.password.value| >= MinPasswordLength
    requires Trim(f.inviteCode.value) in db.invites
    requires !Redeemed(db.invites[Trim(f.inviteCode.value)])
    requires db.invites[Trim(f.inviteCode.value)].expiresAt == now
    requires NormalEmail(f.email.value) !in db.users
    ensures Register(Some(f), db, now, id).0.Created?
  {
  }

  /** A redeemed invite cannot be used again: after a successful sign-up, any
      later sign-up with the same code (up to surrounding whitespace) fails. */
  lemma NoDoubleRedeem(f: Form, db: Db, now: int, id: string, g: Form, later: int, id2: string)
    requires Register(Some(f), db, now, id).0.Created?
    requires id != []
    requires g.inviteCode.Some? && f.inviteCode.Some?
    requires Trim(g.inviteCode.value) == Trim(f.inviteCode.value)
    ensures !Register(Some(g), Register(Some(f), db, now, id).1, later, id2).0.Created?
  {
  }

  /** Addresses that differ only in ASCII case or surrounding whitespace name
      one account: once one has signed up, the other is refused. */
  lemma EmailCaseInsensitive(f: Form, db: Db, now: int, id: string, g: Form, later: int, id2: string)
    requires Register(Some(f), db, now, id).0.Created?
    requires g.email.Some? && f.email.Some?
    requires NormalEmail(g.email.value) == NormalEmail(f.email.value)
    ensures !Register(Some(g), Register(Some(f), db, now, id).1, later, id2).0.Created?
  {
  }
}
