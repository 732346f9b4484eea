/**
 * server/src/routes/authRoutes.js: accounts and the password-reset token.
 *
 * bcrypt is a foreign call: a new password arrives already hashed (`passwordHash`, since
 * its salt is random) and comparison is the parameter `matches`. The reset token from
 * `nanoid(32)` arrives as `token`, and whether the mail was sent as `emailSent`. JWT
 * signing is not modelled: a successful login answers with the user columns the token
 * carries.
 */
module AuthRoutes {
  import opened Outcomes
  import opened Tables
  import opened Db
  import Text

  /** 30 minutes, in milliseconds like `Date.now()`. */
  const TOKEN_EXPIRY_MS: int := 1000 * 60 * 30

  /** A request field is present and not the empty string (JavaScript truthiness). */
  predicate Given(field: Option<string>)
  {
    field.Some? && field.value != ""
  }

  /** `getUserByEmail.get(email.toLowerCase())`. */
  function UserByEmail(t: Tables, email: string): (r: Option<nat>)
    ensures r.Some? ==> r.value < |t.users| && t.users[r.value].email == Text.Lower(email)
    ensures r.None? <==> forall i :: 0 <= i < |t.users| ==> t.users[i].email != Text.Lower(email)
  {
    FindUserByEmail(t.users, Text.Lower(email))
  }

  // ---------------------------------------------------------------- POST /signup

  function SignupOutcome(t: Tables, companyName: Option<string>, email: Option<string>, password: Option<string>,
                         passwordHash: string): (o: Outcome<()>)
    ensures o.result.Ok? || o.result == Err(MissingInput) || o.result == Err(Conflict)
    ensures o.result == Err(MissingInput) <==> !Given(companyName) || !Given(email) || !Given(password)
    ensures o.result == Err(Conflict) <==>
              Given(companyName) && Given(email) && Given(password)
              && exists i :: 0 <= i < |t.users| && t.users[i].email == Text.Lower(email.value)
    ensures o.result.Err? ==> o.tables == t
    ensures o.result.Ok? ==>
              && o.tables == t.(users := o.tables.users, nextUserId := t.nextUserId + 1)
              && o.tables.users == t.users + [User(t.nextUserId, companyName.value, Text.Lower(email.value),
                                                   passwordHash, None, None)]
              && Text.IsLowerCase(o.tables.users[|t.users|].email)
  {
    if !Given(companyName) || !Given(email) || !Given(password) then Outcome(t, Err(MissingInput))
    else if UserByEmail(t, email.value).Some? then Outcome(t, Err(Conflict))
    else
      Text.LowerIsLowerCase(email.value);
      var u := User(t.nextUserId, companyName.value, Text.Lower(email.value), passwordHash, None, None);
      Outcome(t.(users := t.users + [u], nextUserId := t.nextUserId + 1), Ok(()))
  }

  /** Signing up keeps the constraints: the stored email is lower-cased and was not yet registered. */
  lemma SignupKeepsConsistent(t: Tables, companyName: Option<string>, email: Option<string>, password: Option<string>,
                              passwordHash: string)
    requires Consistent(t)
    ensures Consistent(SignupOutcome(t, companyName, email, password, passwordHash).tables)
  {
    var o := SignupOutcome(t, companyName, email, password, passwordHash);
    if o.result.Ok? {
      Text.LowerIsLowerCase(email.value);
      InsertUserOk(t, User(t.nextUserId, companyName.value, Text.Lower(email.value), passwordHash, None, None));
    }
  }

  /** Once an address is registered, any spelling of it that lower-cases to the same text is refused. */
  lemma SignupRejectsCaseVariant(t: Tables, companyName: string, email: string, other: string, p1: string, p2: string,
                                 h1: string, h2: string)
    requires companyName != "" && email != "" && p1 != "" && p2 != "" && other != ""
    requires Text.Lower(other) == Text.Lower(email)
    requires SignupOutcome(t, Some(companyName), Some(email), Some(p1), h1).result.Ok?
    ensures var t1 := SignupOutcome(t, Some(companyName), Some(email), Some(p1), h1).tables;
      SignupOutcome(t1, Some(companyName), Some(other), Some(p2), h2).result == Err(Conflict)
  {
    var t1 := SignupOutcome(t, Some(companyName), Some(email), Some(p1), h1).tables;
    assert t1.users[|t.users|].email == Text.Lower(other);
  }

  /** POST `/signup`: 400 on a missing field, 409 when the lower-cased email is registered, else 201. */
  method Signup(db: Store, companyName: Option<string>, email: Option<string>, password: Option<string>,
                passwordHash: string) returns (r: Result<()>)
    requires db.Valid()
    modifies db
    ensures db.Valid()
    ensures var o := SignupOutcome(old(db.Snapshot()), companyName, email, password, passwordHash);
      db.Snapshot() == o.tables && r == o.result
  {
    if !Given(companyName) || !Given(email) || !Given(password) {
      return Err(MissingInput);
    }
    var existing := FindUserByEmail(db.users, Text.Lower(email.value));
    if existing.Some? {
      return Err(Conflict);
    }
    Text.LowerIsLowerCase(email.value);
    var user := User(db.nextUserId, companyName.value, Text.Lower(email.value), passwordHash, None, None);
    InsertUserOk(db.Snapshot(), user);
    db.users, db.nextUserId := db.users + [user], db.nextUserId + 1;
    r := Ok(());
  }

  // ---------------------------------------------------------------- POST /login

  /** What a successful login reports about the user (the signed token is not modelled). */
  datatype Session = Session(id: nat, email: string, companyName: string)

  /**
   * POST `/login`: 400 on a missing field; an unknown email and a wrong password both answer
   * the same 401, so the answer does not reveal which addresses are registered.
   */
  function Login(t: Tables, email: Option<string>, password: Option<string>,
                 matches: (string, string) -> bool): (r: Result<Session>)
    ensures r.Ok? || r == Err(MissingInput) || r == Err(InvalidCredentials)
    ensures r == Err(MissingInput) <==> !Given(email) || !Given(password)
    ensures r == Err(InvalidCredentials) <==>
              Given(email) && Given(password)
              && (UserByEmail(t, email.value).None?
                  || !matches(password.value, t.users[UserByEmail(t, email.value).value].passwordHash))
    ensures r.Ok? ==> exists i :: 0 <= i < |t.users| && t.users[i].email == Text.Lower(email.value)
                       && matches(password.value, t.users[i].passwordHash)
                       && r.value == Session(t.users[i].id, t.users[i].email, t.users[i].companyName)
  {
    if !Given(email) || !Given(password) then Err(MissingInput)
    else
      var k := UserByEmail(t, email.value);
      if k.None? then Err(InvalidCredentials)
      else
        var user := t.users[k.value];
        if !matches(password.value, user.passwordHash) then Err(InvalidCredentials)
        else Ok(Session(user.id, user.email, user.companyName))
  }

  /** The 401 for an address nobody registered is the very same answer as for a wrong password. */
  lemma LoginFailuresIndistinguishable(t: Tables, unknown: string, known: string, wrong: string, password: string,
                                       matches: (string, string) -> bool)
    requires unknown != "" && known != "" && wrong != "" && password != ""
    requires UserByEmail(t, unknown).None?
    requires UserByEmail(t, known).Some? && !matches(wrong, t.users[UserByEmail(t, known).value].passwordHash)
    ensures Login(t, Some(unknown), Some(password), matches) == Login(t, Some(known), Some(wrong), matches)
    ensures Status(Login(t, Some(unknown), Some(password), matches).error) == 401
  {
  }

  // ---------------------------------------------------------------- POST /request-password-reset

  /** The answers of the reset request. */
  datatype ResetReply =
    | /** "If the email exists, a reset link has been sent"; `emailSent` is reported only for a known email. */
      Notice(emailSent: Option<bool>)
    | /** No mail service is configured and sending failed: the link (token and email) is handed back. */
      LinkIssued(token: string, email: string)

  function RequestResetOutcome(t: Tables, email: Option<string>, token: string, now: int, emailSent: bool,
                               emailConfigured: bool): (o: Outcome<ResetReply>)
    ensures o.result.Ok? || o.result == Err(MissingInput)
    ensures o.result == Err(MissingInput) <==> !Given(email)
    ensures Given(email) && UserByEmail(t, email.value).None? ==> o.tables == t && o.result == Ok(Notice(None))
    ensures o.result.Err? ==> o.tables == t
    ensures Given(email) && UserByEmail(t, email.value).Some? ==>
              var k := UserByEmail(t, email.value).value;
              && o.tables == t.(users := t.users[k := t.users[k].(resetToken := Some(token),
                                                                 resetTokenExpires := Some(now + TOKEN_EXPIRY_MS))])
              && (o.result == Ok(LinkIssued(token, Text.Lower(email.value))) <==> !emailSent && !emailConfigured)
              && (o.result.value.Notice? ==> o.result.value.emailSent == Some(emailSent))
              && (emailSent || emailConfigured ==> o.result == Ok(Notice(Some(emailSent))))
  {
    if !Given(email) then Outcome(t, Err(MissingInput))
    else
      var k := UserByEmail(t, email.value);
      if k.None? then Outcome(t, Ok(Notice(None)))
      else
        var user := t.users[k.value];
        var t1 := t.(users := t.users[k.value := user.(resetToken := Some(token),
                                                       resetTokenExpires := Some(now + TOKEN_EXPIRY_MS))]);
        if !emailSent && !emailConfigured then Outcome(t1, Ok(LinkIssued(token, Text.Lower(email.value))))
        else Outcome(t1, Ok(Notice(Some(emailSent))))
  }

  lemma RequestResetKeepsConsistent(t: Tables, email: Option<string>, token: string, now: int, emailSent: bool,
                                    emailConfigured: bool)
    requires Consistent(t)
    ensures Consistent(RequestResetOutcome(t, email, token, now, emailSent, emailConfigured).tables)
  {
    if Given(email) && UserByEmail(t, email.value).Some? {
      var k := UserByEmail(t, email.value).value;
      var u := t.users[k];
      UpdateUserOk(t, k, u.(resetToken := Some(token), resetTokenExpires := Some(now + TOKEN_EXPIRY_MS)));
    }
  }

  /**
   * POST `/request-password-reset`: 400 without an email. An unknown email gets the generic
   * notice and changes nothing; a known one has its pending token replaced by a fresh one
   * that expires 30 minutes from now.
   */
  method RequestPasswordReset(db: Store, email: Option<string>, token: string, now: int, emailSent: bool,
                              emailConfigured: bool) returns (r: Result<ResetReply>)
    requires db.Valid()
    modifies db
    ensures db.Valid()
    ensures var o := RequestResetOutcome(old(db.Snapshot()), email, token, now, emailSent, emailConfigured);
      db.Snapshot() == o.tables && r == o.result
  {
    if !Given(email) {
      return Err(MissingInput);
    }
    var k := FindUserByEmail(db.users, Text.Lower(email.value));
    if k.None? {
      return Ok(Notice(None));
    }
    var user := db.users[k.value];
    var resetTokenExpires := now + TOKEN_EXPIRY_MS;
    UpdateUserOk(db.Snapshot(), k.value, user.(resetToken := Some(token), resetTokenExpires := Some(resetTokenExpires)));
    db.users := db.users[k.value := user.(resetToken := Some(token), resetTokenExpires := Some(resetTokenExpires))];
    if !emailSent && !emailConfigured {
      return Ok(LinkIssued(token, Text.Lower(email.value)));
    }
    r := Ok(Notice(Some(emailSent)));
  }

  // ---------------------------------------------------------------- POST /reset-password

  /**
   * A stored token and expiry are present (non-empty, non-zero), the token is the one sent,
   * and the clock has not passed the expiry: `now == expiry` still counts as valid.
   */
  predicate ResetAllowed(u: User, token: string, now: int)
  {
    && u.resetToken.Some? && u.resetToken.value != ""
    && u.resetTokenExpires.Some? && u.resetTokenExpires.value != 0
    && u.resetToken.value == token
    && now <= u.resetTokenExpires.value
  }

  function ResetPasswordOutcome(t: Tables, email: Option<string>, token: Option<string>, newPassword: Option<string>,
                                passwordHash: string, now: int): (o: Outcome<()>)
    ensures o.result.Ok? || o.result == Err(MissingInput) || o.result == Err(InvalidOrExpiredToken)
    ensures o.result == Err(MissingInput) <==> !Given(email) || !Given(token) || !Given(newPassword)
    ensures o.result == Err(InvalidOrExpiredToken) <==>
              Given(email) && Given(token) && Given(newPassword)
              && (UserByEmail(t, email.value).None?
                  || !ResetAllowed(t.users[UserByEmail(t, email.value).value], token.value, now))
    ensures o.result.Err? ==> o.tables == t
    ensures o.result.Ok? ==>
              var k := UserByEmail(t, email.value).value;
              o.tables == t.(users := t.users[k := t.users[k].(passwordHash := passwordHash,
                                                               resetToken := None, resetTokenExpires := None)])
  {
    if !Given(email) || !Given(token) || !Given(newPassword) then Outcome(t, Err(MissingInput))
    else
      var k := UserByEmail(t, email.value);
      if k.None? || !ResetAllowed(t.users[k.value], token.value, now) then Outcome(t, Err(InvalidOrExpiredToken))
      else
        var user := t.users[k.value];
        Outcome(t.(users := t.users[k.value := user.(passwordHash := passwordHash, resetToken := None,
                                                     resetTokenExpires := None)]), Ok(()))
  }

  lemma ResetPasswordKeepsConsistent(t: Tables, email: Option<string>, token: Option<string>, newPassword: Option<string>,
                                     passwordHash: string, now: int)
    requires Consistent(t)
    ensures Consistent(ResetPasswordOutcome(t, email, token, newPassword, passwordHash, now).tables)
  {
    var o := ResetPasswordOutcome(t, email, token, newPassword, passwordHash, now);
    if o.result.Ok? {
      var k := UserByEmail(t, email.value).value;
      var u := t.users[k];
      UpdateUserOk(t, k, u.(passwordHash := passwordHash, resetToken := None, resetTokenExpires := None));
    }
  }

  /**
   * POST `/reset-password`: 400 on a missing field, 400 "Invalid or expired token" unless
   * the stored token matches and has not expired; on success the new hash is written and
   * both token columns are cleared by the same UPDATE.
   */
  method ResetPassword(db: Store, email: Option<string>, token: Option<string>, newPassword: Option<string>,
                       passwordHash: string, now: int) returns (r: Result<()>)
    requires db.Valid()
    modifies db
    ensures db.Valid()
    ensures var o := ResetPasswordOutcome(old(db.Snapshot()), email, token, newPassword, passwordHash, now);
      db.Snapshot() == o.tables && r == o.result
  {
    if !Given(email) || !Given(token) || !Given(newPassword) {
      return Err(MissingInput);
    }
    var k := FindUserByEmail(db.users, Text.Lower(email.value));
    if k.None? {
      return Err(InvalidOrExpiredToken);
    }
    var user := db.users[k.value];
    if user.resetToken.None? || user.resetToken.value == "" || user.resetTokenExpires.None? || user.resetTokenExpires.value == 0 {
      return Err(InvalidOrExpiredToken);
    }
    if user.resetToken.value != token.value || now > user.resetTokenExpires.value {
      return Err(InvalidOrExpiredToken);
    }
    var updated := user.(passwordHash := passwordHash, resetToken := None, resetTokenExpires := None);
    UpdateUserOk(db.Snapshot(), k.value, updated);
    db.users := db.users[k.value := updated];
    r := Ok(());
  }

  // ---------------------------------------------------------------- the token's life cycle

  /** The token issued at `issued` is accepted until exactly 30 minutes later and refused from the next millisecond. */
  lemma TokenExpiresAfterThirtyMinutes(t: Tables, email: string, token: string, issued: int, emailSent: bool,
                                       emailConfigured: bool, newPassword: string, passwordHash: string)
    requires email != "" && token != "" && newPassword != "" && issued + TOKEN_EXPIRY_MS != 0
    requires Consistent(t) && UserByEmail(t, email).Some?
    ensures var t1 := RequestResetOutcome(t, Some(email), token, issued, emailSent, emailConfigured).tables;
      && ResetPasswordOutcome(t1, Some(email), Some(token), Some(newPassword), passwordHash,
                              issued + TOKEN_EXPIRY_MS).result == Ok(())
      && ResetPasswordOutcome(t1, Some(email), Some(token), Some(newPassword), passwordHash,
                              issued + TOKEN_EXPIRY_MS + 1).result == Err(InvalidOrExpiredToken)
  {
    var k := UserByEmail(t, email).value;
    var t1 := RequestResetOutcome(t, Some(email), token, issued, emailSent, emailConfigured).tables;
    assert t1.users[k].email == t.users[k].email;
    UserIndexKept(t, t1, email, k);
  }

  /** A second request replaces the first token: only the latest one can reset the password. */
  lemma OnlyLatestTokenWorks(t: Tables, email: string, first: string, second: string, now1: int, now2: int,
                             sent1: bool, sent2: bool, configured: bool, newPassword: string, passwordHash: string,
                             now: int)
    requires email != "" && newPassword != "" && first != second
    requires Consistent(t)
    ensures var t1 := RequestResetOutcome(t, Some(email), first, now1, sent1, configured).tables;
      var t2 := RequestResetOutcome(t1, Some(email), second, now2, sent2, configured).tables;
      ResetPasswordOutcome(t2, Some(email), Some(first), Some(newPassword), passwordHash, now).result.Err?
  {
    var t1 := RequestResetOutcome(t, Some(email), first, now1, sent1, configured).tables;
    var t2 := RequestResetOutcome(t1, Some(email), second, now2, sent2, configured).tables;
    if UserByEmail(t, email).Some? {
      var k := UserByEmail(t, email).value;
      UserIndexKept(t, t1, email, k);
      RequestResetKeepsConsistent(t, Some(email), first, now1, sent1, configured);
      UserIndexKept(t1, t2, email, k);
      assert t2.users[k].resetToken == Some(second);
    } else {
      assert t1 == t;
      assert t2 == t;
    }
  }

  /** A token works once: after a successful reset the same token is refused. */
  lemma TokenIsSingleUse(t: Tables, email: string, token: string, p1: string, h1: string, now1: int,
                         p2: string, h2: string, now2: int)
    requires email != "" && token != "" && p1 != "" && p2 != ""
    requires Consistent(t)
    requires ResetPasswordOutcome(t, Some(email), Some(token), Some(p1), h1, now1).result.Ok?
    ensures var t1 := ResetPasswordOutcome(t, Some(email), Some(token), Some(p1), h1, now1).tables;
      ResetPasswordOutcome(t1, Some(email), Some(token), Some(p2), h2, now2).result == Err(InvalidOrExpiredToken)
  {
    var k := UserByEmail(t, email).value;
    var t1 := ResetPasswordOutcome(t, Some(email), Some(token), Some(p1), h1, now1).tables;
    UserIndexKept(t, t1, email, k);
  }

  /**
   * Rewriting the row of the user with this email, without changing the email, keeps the
   * look-up pointing at it.
   */
  lemma UserIndexKept(t: Tables, t1: Tables, email: string, k: nat)
    requires Consistent(t) && UserByEmail(t, email) == Some(k)
    requires |t1.users| == |t.users| && t1.users[k].email == t.users[k].email
    requires forall i :: 0 <= i < |t.users| && i != k ==> t1.users[i] == t.users[i]
    ensures UserByEmail(t1, email) == Some(k)
  {
  }
}
