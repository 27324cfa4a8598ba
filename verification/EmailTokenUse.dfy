/** What each event does to an account, and that a mailed token works until it is used or its time is over. */
module EmailTokenUse {
  import opened EmailTokens
  import opened EmailTokenHistory
  import opened EmailTokenSafety
  import opened Options
  import opened Stores

  // ---- Passwords and marks ----

  /** The reset token is one of the user's and can be used. */
  predicate ResetsPasswordOf(w: Scene, token: Token, user: User) {
    && token in w.tables.reset && w.tables.reset[token].user == user
    && !w.tables.reset[token].used && w.now <= w.tables.reset[token].expires
  }

  predicate VerifiesByToken(w: Scene, token: Token, user: User) {
    && token in w.tables.verification && w.tables.verification[token].user == user
    && w.now <= w.tables.verification[token].expires
  }

  predicate VerifiesByLink(w: Scene, token: Token, user: User) {
    && token in w.tables.magic && !w.tables.magic[token].used && w.now <= w.tables.magic[token].expires
    && user in w.tables.users && w.tables.magic[token].email == w.tables.users[user].email
  }

  /** The password an account has after an event: a reset or a change sets it, and nothing else does. */
  function PasswordAfter(w: Scene, e: Event, user: User): Password
    requires user in w.tables.users
  {
    if e.ResetPassword? && ResetsPasswordOf(w, e.token, user) && e.update != Failed then e.password
    else if e.ChangePassword? && e.user == user && e.update != Failed then e.password
    else w.tables.users[user].password
  }

  /** An account is verified after an event if it was before, or the event redeemed a token of its own. */
  predicate VerifiedAfter(w: Scene, e: Event, user: User)
    requires user in w.tables.users
  {
    || w.tables.users[user].verified
    || (e.VerifyEmail? && VerifiesByToken(w, e.token, user) && e.update != Failed)
    || (e.MagicLinkVerify? && VerifiesByLink(w, e.token, user) && e.found && e.verify != Failed)
    || (e.ResetPassword? && ResetsPasswordOf(w, e.token, user) && e.update == Done && e.verify != Failed)
  }

  /** An account after an event: its password and its mark are those, and its address is what it was. */
  lemma AccountAfter(w: Scene, e: Event, user: User)
    requires Valid(w) && Possible(w, e) && user in w.tables.users
    ensures var users := Step(w, e).tables.users;
            && user in users
            && users[user] == Account(w.tables.users[user].email, PasswordAfter(w, e, user), VerifiedAfter(w, e, user))
  {
    hide RowsOk, MailOk, AcceptedOk, VerifiedOk, StepRegister, StepSendVerification, StepVerifyEmail, StepMagicLink,
         StepMagicLinkVerify, StepForgotPassword, StepResetPassword, StepChangePassword;
    match e
    case VerifyEmail(token, update, delete) => AfterVerifyEmail(w, token, update, delete, user);
    case MagicLinkVerify(token, mark, found, verify) => AfterMagicLinkVerify(w, token, mark, found, verify, user);
    case ResetPassword(token, password, update, mark, verify) =>
      AfterResetPassword(w, token, password, update, mark, verify, user);
    case _ => AfterOther(w, e, user);
  }

  lemma AfterOther(w: Scene, e: Event, user: User)
    requires Possible(w, e) && user in w.tables.users && !e.VerifyEmail? && !e.MagicLinkVerify? && !e.ResetPassword?
    ensures var users, before := Step(w, e).tables.users, w.tables.users[user];
            && user in users
            && users[user] ==
               if e.ChangePassword? && e.user == user && e.update != Failed then before.(password := e.password) else before
  {}

  lemma AfterVerifyEmail(w: Scene, token: Token, update: Outcome, delete: Outcome, user: User)
    requires user in w.tables.users
    ensures var users, before := StepVerifyEmail(w, token, update, delete).tables.users, w.tables.users[user];
            && user in users
            && users[user] == Account(before.email, before.password,
                                      before.verified || (VerifiesByToken(w, token, user) && update != Failed))
  {}

  lemma AfterMagicLinkVerify(w: Scene, token: Token, mark: Outcome, found: bool, verify: Outcome, user: User)
    requires UniqueEmails(w.tables.users) && user in w.tables.users
    ensures var users, before := StepMagicLinkVerify(w, token, mark, found, verify).tables.users, w.tables.users[user];
            && user in users
            && users[user] == Account(before.email, before.password,
                                      before.verified || (VerifiesByLink(w, token, user) && found && verify != Failed))
  {
    if VerifiesByLink(w, token, user) {
      assert user in WithEmail(w.tables.users, w.tables.magic[token].email);
    }
  }

  lemma AfterResetPassword(w: Scene, token: Token, password: Password, update: Outcome, mark: Outcome, verify: Outcome,
                           user: User)
    requires user in w.tables.users
    ensures var users, before := StepResetPassword(w, token, password, update, mark, verify).tables.users, w.tables.users[user];
            && user in users
            && users[user] == if ResetsPasswordOf(w, token, user) && update != Failed
                              then Account(before.email, password, before.verified || (update == Done && verify != Failed))
                              else before
  {}

  // ---- Mailed tokens work ----

  predicate Unused(events: seq<Event>, token: Token) {
    forall e | e in events :: !(e.MagicLinkVerify? && e.token == token) && !(e.ResetPassword? && e.token == token)
  }

  /** What is known of a token that was mailed, and its rows, are in the later scene as they were. */
  predicate TokenStays(w: Scene, v: Scene, token: Token) {
    && token in v.issued && w.now <= v.now
    && (token in w.mailed ==> token in v.mailed && v.mailed[token] == w.mailed[token])
    && (token in w.tables.reset ==> token in v.tables.reset && v.tables.reset[token] == w.tables.reset[token])
    && (token in w.tables.magic ==> token in v.tables.magic && v.tables.magic[token] == w.tables.magic[token])
  }

  /** A reset row and a link stay as they are until the token is redeemed. */
  lemma RowStays(w: Scene, e: Event, token: Token)
    requires Possible(w, e) && token in w.issued
    requires !(e.MagicLinkVerify? && e.token == token) && !(e.ResetPassword? && e.token == token)
    ensures TokenStays(w, Step(w, e), token)
  {}

  lemma TokenStaysJoin(w: Scene, u: Scene, v: Scene, token: Token)
    requires TokenStays(w, u, token) && TokenStays(u, v, token)
    ensures TokenStays(w, v, token)
  {}

  lemma {:induction false} RowsStayOn(w: Scene, events: seq<Event>, token: Token)
    requires Run(w, events).Some? && token in w.issued && Unused(events, token)
    ensures TokenStays(w, Run(w, events).value, token)
    decreases |events|
  {
    if events != [] {
      RowStays(w, events[0], token);
      var u := Step(w, events[0]);
      assert token in u.issued;
      hide Step, TokenStays;
      RowsStayOn(u, events[1..], token);
      TokenStaysJoin(w, u, Run(w, events).value, token);
    }
  }

  /** A run from an event on. */
  lemma RunOn(w: Scene, e: Event, events: seq<Event>, v: Scene)
    requires Valid(w) && Run(w, [e] + events) == Some(v)
    ensures Possible(w, e) && Run(Step(w, e), events) == Some(v)
    ensures Valid(v) && Keeps(w.tables.users, v.tables.users)
  {
    hide Valid, Keeps, Step;
    assert ([e] + events)[0] == e && ([e] + events)[1..] == events;
    RunIsValid(w, [e] + events);
  }

  /** For an hour a mailed reset token sets the password of the account it was asked for, whatever happens before. */
  lemma ResetTokenWorks(w: Scene, email: Address, token: Token, events: seq<Event>, v: Scene, user: User,
                        password: Password, mark: Outcome, verify: Outcome)
    requires Valid(w) && user in w.tables.users && w.tables.users[user].email == email
    requires Unused(events, token) && Run(w, [ForgotPassword(email, token, Done)] + events) == Some(v)
    requires v.now <= w.now + 60 * 60
    ensures var e := ResetPassword(token, password, Done, mark, verify);
            && token in v.mailed && v.mailed[token] == email && Possible(v, e)
            && user in Step(v, e).tables.users && Step(v, e).tables.users[user].password == password
            && Step(v, e).accepted == v.accepted + [Acceptance(token, Reset, email, v.now, mark != Failed)]
  {
    var e := ForgotPassword(email, token, Done);
    hide Run, Unused;
    RunOn(w, e, events, v);
    ForgottenIsMailed(w, email, token, user);
    hide Step;
    RowsStayOn(Step(w, e), events, token);
    hide Valid;
    PasswordIsSet(v, token, user, password, mark, verify);
  }

  lemma ForgottenIsMailed(w: Scene, email: Address, token: Token, user: User)
    requires UniqueEmails(w.tables.users) && Possible(w, ForgotPassword(email, token, Done))
    requires user in w.tables.users && w.tables.users[user].email == email
    ensures var u := Step(w, ForgotPassword(email, token, Done));
            && token in u.issued && token in u.mailed && u.mailed[token] == email
            && token in u.tables.reset && u.tables.reset[token] == ResetRow(user, w.now + 60 * 60, false)
  {
    assert user in WithEmail(w.tables.users, email);
  }

  lemma PasswordIsSet(w: Scene, token: Token, user: User, password: Password, mark: Outcome, verify: Outcome)
    requires token in w.mailed && ResetsPasswordOf(w, token, user) && user in w.tables.users
    ensures var e := ResetPassword(token, password, Done, mark, verify);
            && Possible(w, e) && user in Step(w, e).tables.users && Step(w, e).tables.users[user].password == password
            && Step(w, e).accepted ==
               w.accepted + [Acceptance(token, Reset, w.tables.users[user].email, w.now, mark != Failed)]
  {}

  /** For 15 minutes a mailed link yields the address it was asked for. */
  lemma MagicLinkWorks(w: Scene, email: Address, token: Token, events: seq<Event>, v: Scene, user: User,
                       mark: Outcome, found: bool, verify: Outcome)
    requires Valid(w) && user in w.tables.users && w.tables.users[user].email == email
    requires Unused(events, token) && Run(w, [MagicLink(email, token, Done)] + events) == Some(v)
    requires v.now <= w.now + 15 * 60
    ensures var e := MagicLinkVerify(token, mark, found, verify);
            && token in v.mailed && v.mailed[token] == email && Possible(v, e)
            && Step(v, e).accepted == v.accepted + [Acceptance(token, Magic, email, v.now, mark != Failed)]
  {
    var e := MagicLink(email, token, Done);
    hide Run, Unused;
    RunOn(w, e, events, v);
    LinkIsMailed(w, email, token, user);
    hide Step;
    RowsStayOn(Step(w, e), events, token);
    hide Valid;
    LinkIsAccepted(v, token, mark, found, verify);
  }

  lemma LinkIsMailed(w: Scene, email: Address, token: Token, user: User)
    requires Possible(w, MagicLink(email, token, Done))
    requires user in w.tables.users && w.tables.users[user].email == email
    ensures var u := Step(w, MagicLink(email, token, Done));
            && token in u.issued && token in u.mailed && u.mailed[token] == email
            && token in u.tables.magic && u.tables.magic[token] == MagicRow(email, w.now + 15 * 60, false)
  {
    assert user in WithEmail(w.tables.users, email);
  }

  lemma LinkIsAccepted(w: Scene, token: Token, mark: Outcome, found: bool, verify: Outcome)
    requires token in w.mailed && token in w.tables.magic
    requires !w.tables.magic[token].used && w.now <= w.tables.magic[token].expires
    ensures var e := MagicLinkVerify(token, mark, found, verify);
            && Possible(w, e)
            && Step(w, e).accepted == w.accepted + [Acceptance(token, Magic, w.tables.magic[token].email, w.now, mark != Failed)]
  {}

  // ---- Verification ----

  /** A verification row goes only when its account is verified. */
  predicate WaitsOrVerified(w: Scene, token: Token, row: VerificationRow) {
    || (token in w.tables.verification && w.tables.verification[token] == row)
    || (row.user in w.tables.users && w.tables.users[row.user].verified)
  }

  lemma WaitingStays(w: Scene, e: Event, token: Token, row: VerificationRow)
    requires Possible(w, e) && token in w.issued && row.user in w.tables.users && WaitsOrVerified(w, token, row)
    ensures var v := Step(w, e);
            && WaitsOrVerified(v, token, row) && token in v.issued && row.user in v.tables.users && w.now <= v.now
            && (token in w.mailed ==> token in v.mailed && v.mailed[token] == w.mailed[token])
  {}

  lemma {:induction false} WaitingStaysOn(w: Scene, events: seq<Event>, token: Token, row: VerificationRow)
    requires Run(w, events).Some? && token in w.issued && row.user in w.tables.users && WaitsOrVerified(w, token, row)
    ensures var v := Run(w, events).value;
            && WaitsOrVerified(v, token, row) && row.user in v.tables.users
            && (token in w.mailed ==> token in v.mailed && v.mailed[token] == w.mailed[token])
    decreases |events|
  {
    if events != [] {
      WaitingStays(w, events[0], token, row);
      hide Step, WaitsOrVerified;
      WaitingStaysOn(Step(w, events[0]), events[1..], token, row);
    }
  }

  /** For a day a mailed verification token verifies its account, unless that was verified in the meantime. */
  lemma VerificationWorks(w: Scene, user: User, token: Token, events: seq<Event>, v: Scene, delete: Outcome)
    requires Valid(w) && Run(w, [SendVerification(user, token, Done)] + events) == Some(v)
    requires v.now <= w.now + 24 * 60 * 60
    ensures var e := VerifyEmail(token, Done, delete);
            && user in w.tables.users && user in v.tables.users
            && token in v.mailed && v.mailed[token] == w.tables.users[user].email && Possible(v, e)
            && user in Step(v, e).tables.users && Step(v, e).tables.users[user].verified
            && (!v.tables.users[user].verified ==>
                  Step(v, e).accepted == v.accepted + [Acceptance(token, Verification, v.mailed[token], v.now, delete != Failed)])
  {
    var e := SendVerification(user, token, Done);
    var row := VerificationRow(user, w.now + 24 * 60 * 60);
    hide Run;
    RunOn(w, e, events, v);
    VerificationIsMailed(w, user, token);
    hide Step;
    WaitingStaysOn(Step(w, e), events, token, row);
    hide Valid;
    VerificationIsAccepted(v, token, row, delete);
  }

  lemma VerificationIsMailed(w: Scene, user: User, token: Token)
    requires Possible(w, SendVerification(user, token, Done))
    ensures var u := Step(w, SendVerification(user, token, Done));
            && token in u.issued && token in u.mailed && u.mailed[token] == w.tables.users[user].email
            && user in u.tables.users && WaitsOrVerified(u, token, VerificationRow(user, w.now + 24 * 60 * 60))
  {}

  lemma VerificationIsAccepted(w: Scene, token: Token, row: VerificationRow, delete: Outcome)
    requires token in w.mailed && row.user in w.tables.users && WaitsOrVerified(w, token, row) && w.now <= row.expires
    ensures var e := VerifyEmail(token, Done, delete);
            && Possible(w, e)
            && row.user in Step(w, e).tables.users && Step(w, e).tables.users[row.user].verified
            && (!w.tables.users[row.user].verified ==>
                  Step(w, e).accepted ==
                  w.accepted + [Acceptance(token, Verification, w.tables.users[row.user].email, w.now, delete != Failed)])
  {}
}
