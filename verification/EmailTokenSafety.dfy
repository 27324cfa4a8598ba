/** What holds in every run of the mailed tokens. */
module EmailTokenSafety {
  import opened EmailTokens
  import opened Stores

  // ---- The invariant ----

  ghost predicate UniqueEmails(users: map<User, Account>) {
    forall u, v | u in users && v in users :: users[u].email == users[v].email ==> u == v
  }

  predicate IsOrigin(issued: map<Token, Origin>, token: Token, kind: Kind, email: Address, expires: Time) {
    token in issued && issued[token].kind == kind && issued[token].email == email &&
    expires == issued[token].at + Expiry(kind)
  }

  predicate VerificationRowOk(users: map<User, Account>, issued: map<Token, Origin>, t: Token, row: VerificationRow) {
    row.user in users && IsOrigin(issued, t, Verification, users[row.user].email, row.expires)
  }

  predicate MagicRowOk(issued: map<Token, Origin>, t: Token, row: MagicRow) {
    IsOrigin(issued, t, Magic, row.email, row.expires)
  }

  predicate ResetRowOk(users: map<User, Account>, issued: map<Token, Origin>, t: Token, row: ResetRow) {
    row.user in users && IsOrigin(issued, t, Reset, users[row.user].email, row.expires)
  }

  ghost predicate RowsOk(tables: Tables, issued: map<Token, Origin>) {
    && (forall t | t in tables.verification :: VerificationRowOk(tables.users, issued, t, tables.verification[t]))
    && (forall t | t in tables.magic :: MagicRowOk(issued, t, tables.magic[t]))
    && (forall t | t in tables.reset :: ResetRowOk(tables.users, issued, t, tables.reset[t]))
  }

  ghost predicate MailOk(issued: map<Token, Origin>, mailed: map<Token, Address>, now: Time) {
    && (forall t | t in mailed :: t in issued && mailed[t] == issued[t].email)
    && (forall t | t in issued :: issued[t].at <= now)
  }

  /** The token cannot be accepted any more. */
  predicate Spent(tables: Tables, issued: map<Token, Origin>, t: Token) {
    && t in issued && t !in tables.verification
    && (t in tables.magic ==> tables.magic[t].used)
    && (t in tables.reset ==> tables.reset[t].used)
  }

  /** Accepted in time, for the address the token was issued for and mailed to. */
  predicate AcceptanceOk(w: Scene, a: Acceptance) {
    && a.token in w.mailed && w.mailed[a.token] == a.email
    && a.token in w.issued && w.issued[a.token].kind == a.kind && w.issued[a.token].email == a.email
    && w.issued[a.token].at <= a.at <= w.issued[a.token].at + Expiry(a.kind)
    && (a.spent ==> Spent(w.tables, w.issued, a.token))
  }

  ghost predicate AcceptedOk(w: Scene) {
    && (forall j | 0 <= j < |w.accepted| :: AcceptanceOk(w, w.accepted[j]))
    && (forall i, j | 0 <= i < j < |w.accepted| :: w.accepted[i].token == w.accepted[j].token ==> !w.accepted[i].spent)
  }

  ghost predicate Redeemed(w: Scene, email: Address) {
    exists j :: 0 <= j < |w.accepted| && w.accepted[j].email == email
  }

  ghost predicate VerifiedOk(w: Scene) {
    forall u | u in w.tables.users && w.tables.users[u].verified :: Redeemed(w, w.tables.users[u].email)
  }

  ghost predicate Valid(w: Scene) {
    UniqueEmails(w.tables.users) && RowsOk(w.tables, w.issued) && MailOk(w.issued, w.mailed, w.now) &&
    AcceptedOk(w) && VerifiedOk(w)
  }

  /** Accounts keep their address, and never become unverified. */
  ghost predicate Keeps(users: map<User, Account>, users': map<User, Account>) {
    forall u | u in users :: u in users' && users'[u].email == users[u].email && (users[u].verified ==> users'[u].verified)
  }

  // ---- What stays ----

  /** More tokens and mails, a later time; what is spent stays spent. */
  ghost predicate Grows(w: Scene, v: Scene) {
    && (forall t | t in w.issued :: t in v.issued && v.issued[t] == w.issued[t])
    && (forall t | t in w.mailed :: t in v.mailed && v.mailed[t] == w.mailed[t])
    && w.now <= v.now && w.accepted <= v.accepted
    && (forall t | Spent(w.tables, w.issued, t) :: Spent(v.tables, v.issued, t))
  }

  lemma AcceptedStays(w: Scene, v: Scene)
    requires AcceptedOk(w) && Grows(w, v) && v.accepted == w.accepted
    ensures AcceptedOk(v)
  {
    hide Spent;
    forall j | 0 <= j < |v.accepted|
      ensures AcceptanceOk(v, v.accepted[j])
    {
      assert AcceptanceOk(w, w.accepted[j]);
    }
  }

  /** A token that was accepted now was not spent before, so no earlier acceptance of it spent it. */
  lemma AcceptedMore(w: Scene, v: Scene, a: Acceptance)
    requires AcceptedOk(w) && Grows(w, v) && v.accepted == w.accepted + [a] && AcceptanceOk(v, a) && !Spent(w.tables, w.issued, a.token)
    ensures AcceptedOk(v)
  {
    hide Spent;
    forall j | 0 <= j < |v.accepted|
      ensures AcceptanceOk(v, v.accepted[j])
    {
      if j < |w.accepted| {
        assert AcceptanceOk(w, w.accepted[j]);
      }
    }
    forall i, j | 0 <= i < j < |v.accepted| && v.accepted[i].token == v.accepted[j].token
      ensures !v.accepted[i].spent
    {
      assert AcceptanceOk(w, w.accepted[i]);
    }
  }

  /** Every verified account was verified before, or its address was redeemed now. */
  lemma VerifiedStays(w: Scene, v: Scene)
    requires VerifiedOk(w) && w.accepted <= v.accepted
    requires forall u | u in v.tables.users && v.tables.users[u].verified ::
               || (u in w.tables.users && w.tables.users[u].verified && w.tables.users[u].email == v.tables.users[u].email)
               || Redeemed(v, v.tables.users[u].email)
    ensures VerifiedOk(v)
  {
    forall u | u in v.tables.users && v.tables.users[u].verified
      ensures Redeemed(v, v.tables.users[u].email)
    {
      if u in w.tables.users && w.tables.users[u].verified && w.tables.users[u].email == v.tables.users[u].email {
        assert Redeemed(w, w.tables.users[u].email);
        var j :| 0 <= j < |w.accepted| && w.accepted[j].email == w.tables.users[u].email;
        assert v.accepted[j] == w.accepted[j];
      }
    }
  }

  /** Tables whose rows are old ones, or justified anew, for accounts that keep their addresses. */
  lemma RowsStay(tables: Tables, issued: map<Token, Origin>, more: Tables, issued': map<Token, Origin>)
    requires RowsOk(tables, issued) && Keeps(tables.users, more.users)
    requires forall t | t in issued :: t in issued' && issued'[t] == issued[t]
    requires forall t | t in more.verification ::
               (t in tables.verification && tables.verification[t] == more.verification[t])
               || VerificationRowOk(more.users, issued', t, more.verification[t])
    requires forall t | t in more.magic ::
               (t in tables.magic && tables.magic[t].(used := more.magic[t].used) == more.magic[t])
               || MagicRowOk(issued', t, more.magic[t])
    requires forall t | t in more.reset ::
               (t in tables.reset && tables.reset[t].(used := more.reset[t].used) == more.reset[t])
               || ResetRowOk(more.users, issued', t, more.reset[t])
    ensures RowsOk(more, issued')
  {
    forall t | t in more.verification
      ensures VerificationRowOk(more.users, issued', t, more.verification[t])
    {
      if t in tables.verification && tables.verification[t] == more.verification[t] {
        assert VerificationRowOk(tables.users, issued, t, tables.verification[t]);
      }
    }
    forall t | t in more.magic
      ensures MagicRowOk(issued', t, more.magic[t])
    {
      if t in tables.magic && tables.magic[t].(used := more.magic[t].used) == more.magic[t] {
        assert MagicRowOk(issued, t, tables.magic[t]);
      }
    }
    forall t | t in more.reset
      ensures ResetRowOk(more.users, issued', t, more.reset[t])
    {
      if t in tables.reset && tables.reset[t].(used := more.reset[t].used) == more.reset[t] {
        assert ResetRowOk(tables.users, issued, t, tables.reset[t]);
      }
    }
  }

  // ---- Each step ----

  /** The tables and what was mailed after a step that accepts nothing. */
  lemma StaysValid(w: Scene, v: Scene)
    requires Valid(w) && Grows(w, v) && v.accepted == w.accepted
    requires UniqueEmails(v.tables.users) && RowsOk(v.tables, v.issued) && MailOk(v.issued, v.mailed, v.now)
    requires forall u | u in v.tables.users && v.tables.users[u].verified ::
               u in w.tables.users && w.tables.users[u].verified && w.tables.users[u].email == v.tables.users[u].email
    ensures Valid(v)
  {
    AcceptedStays(w, v);
    hide AcceptedOk, RowsOk, MailOk, Grows, UniqueEmails;
    VerifiedStays(w, v);
  }

  /** Sending a token, whose row goes into one of the tables. */
  lemma SendIsValid(w: Scene, token: Token, kind: Kind, email: Address, more: Tables, insert: Outcome)
    requires Valid(w) && token !in w.issued && more.users == w.tables.users
    requires var v := Send(w, token, kind, email, more, insert);
             && RowsOk(v.tables, v.issued)
             && forall t | Spent(w.tables, w.issued, t) :: Spent(v.tables, v.issued, t)
    ensures Valid(Send(w, token, kind, email, more, insert))
  {
    hide AcceptedOk, VerifiedOk, RowsOk, Spent;
    var v := Send(w, token, kind, email, more, insert);
    assert MailOk(v.issued, v.mailed, v.now) && Grows(w, v);
    StaysValid(w, v);
  }

  /** A new row for a new token leaves everything spent that was. */
  lemma SpentDespiteRow(tables: Tables, issued: map<Token, Origin>, more: Tables, issued': map<Token, Origin>, token: Token)
    requires token !in issued && forall t | t in issued :: t in issued'
    requires forall t | t in more.verification && t != token :: t in tables.verification
    requires forall t | t in more.magic && t != token :: t in tables.magic && more.magic[t] == tables.magic[t]
    requires forall t | t in more.reset && t != token :: t in tables.reset && more.reset[t] == tables.reset[t]
    ensures forall t | Spent(tables, issued, t) :: Spent(more, issued', t)
  {}

  /** Whether the new row was written or not, all rows are justified and nothing spent is spent no more. */
  ghost predicate Fits(w: Scene, token: Token, kind: Kind, email: Address, more: Tables) {
    var issued := w.issued[token := Origin(kind, email, w.now)];
    && RowsOk(w.tables, issued) && RowsOk(more, issued)
    && (forall t | Spent(w.tables, w.issued, t) :: Spent(w.tables, issued, t) && Spent(more, issued, t))
  }

  lemma SendFits(w: Scene, token: Token, kind: Kind, email: Address, more: Tables, insert: Outcome)
    requires Valid(w) && token !in w.issued && more.users == w.tables.users && Fits(w, token, kind, email, more)
    ensures Valid(Send(w, token, kind, email, more, insert))
  {
    hide Valid, RowsOk, Spent;
    SendIsValid(w, token, kind, email, more, insert);
  }

  lemma VerificationFits(w: Scene, user: User, token: Token)
    requires RowsOk(w.tables, w.issued) && token !in w.issued && user in w.tables.users
    ensures var row := VerificationRow(user, w.now + Expiry(Verification));
            Fits(w, token, Verification, w.tables.users[user].email,
                 w.tables.(verification := w.tables.verification[token := row]))
  {
    var row := VerificationRow(user, w.now + Expiry(Verification));
    var more := w.tables.(verification := w.tables.verification[token := row]);
    var issued := w.issued[token := Origin(Verification, w.tables.users[user].email, w.now)];
    RowsStay(w.tables, w.issued, w.tables, issued);
    RowsStay(w.tables, w.issued, more, issued);
    hide RowsOk;
    SpentDespiteRow(w.tables, w.issued, more, issued, token);
  }

  lemma SendVerificationIsValid(w: Scene, user: User, token: Token, insert: Outcome)
    requires Valid(w) && token !in w.issued && user in w.tables.users
    ensures Valid(StepSendVerification(w, user, token, insert))
  {
    hide RowsOk, MailOk, AcceptedOk, VerifiedOk, UniqueEmails, Fits, Send;
    VerificationFits(w, user, token);
    hide Valid;
    var row := VerificationRow(user, w.now + Expiry(Verification));
    var more := w.tables.(verification := w.tables.verification[token := row]);
    SendFits(w, token, Verification, w.tables.users[user].email, more, insert);
  }

  lemma MagicFits(w: Scene, email: Address, token: Token)
    requires RowsOk(w.tables, w.issued) && token !in w.issued
    ensures var row := MagicRow(email, w.now + Expiry(Magic), false);
            Fits(w, token, Magic, email, w.tables.(magic := w.tables.magic[token := row]))
  {
    var more := w.tables.(magic := w.tables.magic[token := MagicRow(email, w.now + Expiry(Magic), false)]);
    var issued := w.issued[token := Origin(Magic, email, w.now)];
    RowsStay(w.tables, w.issued, w.tables, issued);
    RowsStay(w.tables, w.issued, more, issued);
    hide RowsOk;
    SpentDespiteRow(w.tables, w.issued, more, issued, token);
  }

  lemma MagicLinkIsValid(w: Scene, email: Address, token: Token, insert: Outcome)
    requires Valid(w) && token !in w.issued
    ensures Valid(StepMagicLink(w, email, token, insert))
  {
    hide RowsOk, MailOk, AcceptedOk, VerifiedOk, UniqueEmails, Fits, Send;
    MagicFits(w, email, token);
    hide Valid;
    var row := MagicRow(email, w.now + Expiry(Magic), false);
    SendFits(w, token, Magic, email, w.tables.(magic := w.tables.magic[token := row]), insert);
  }

  lemma ForgotPasswordIsValid(w: Scene, email: Address, token: Token, insert: Outcome)
    requires Valid(w) && token !in w.issued
    ensures Valid(StepForgotPassword(w, email, token, insert))
  {
    hide AcceptedOk, VerifiedOk, MailOk;
    var v := StepForgotPassword(w, email, token, insert);
    if WithEmail(w.tables.users, email) != {} {
      var user :| user in WithEmail(w.tables.users, email) &&
        v == SendReset(w, user, email, token, insert);
      SendResetIsValid(w, user, email, token, insert);
    }
  }

  function SendReset(w: Scene, user: User, email: Address, token: Token, insert: Outcome): Scene {
    var row := ResetRow(user, w.now + Expiry(Reset), false);
    Send(w, token, Reset, email, w.tables.(reset := w.tables.reset[token := row]), insert)
  }

  lemma ResetFits(w: Scene, user: User, email: Address, token: Token)
    requires RowsOk(w.tables, w.issued) && token !in w.issued && user in WithEmail(w.tables.users, email)
    ensures var row := ResetRow(user, w.now + Expiry(Reset), false);
            Fits(w, token, Reset, email, w.tables.(reset := w.tables.reset[token := row]))
  {
    var more := w.tables.(reset := w.tables.reset[token := ResetRow(user, w.now + Expiry(Reset), false)]);
    var issued := w.issued[token := Origin(Reset, email, w.now)];
    RowsStay(w.tables, w.issued, w.tables, issued);
    RowsStay(w.tables, w.issued, more, issued);
    hide RowsOk;
    SpentDespiteRow(w.tables, w.issued, more, issued, token);
  }

  lemma SendResetIsValid(w: Scene, user: User, email: Address, token: Token, insert: Outcome)
    requires Valid(w) && token !in w.issued && user in WithEmail(w.tables.users, email)
    ensures Valid(SendReset(w, user, email, token, insert))
  {
    hide RowsOk, MailOk, AcceptedOk, VerifiedOk, UniqueEmails, Fits, Send;
    ResetFits(w, user, email, token);
    hide Valid;
    var row := ResetRow(user, w.now + Expiry(Reset), false);
    SendFits(w, token, Reset, email, w.tables.(reset := w.tables.reset[token := row]), insert);
  }

  lemma RegisterIsValid(w: Scene, user: User, email: Address, password: Password, usernameTaken: bool, insert: Outcome)
    requires Valid(w) && user !in w.tables.users
    ensures var v := StepRegister(w, user, email, password, usernameTaken, insert);
            Valid(v) && Keeps(w.tables.users, v.tables.users)
  {
    hide AcceptedOk, VerifiedOk, MailOk, RowsOk;
    var v := StepRegister(w, user, email, password, usernameTaken, insert);
    NewEmail(w.tables.users, email);
    RowsStay(w.tables, w.issued, v.tables, v.issued);
    StaysValid(w, v);
  }

  lemma ChangePasswordIsValid(w: Scene, user: User, password: Password, update: Outcome)
    requires Valid(w)
    ensures var v := StepChangePassword(w, user, password, update); Valid(v) && Keeps(w.tables.users, v.tables.users)
  {
    hide AcceptedOk, VerifiedOk, MailOk, RowsOk;
    var v := StepChangePassword(w, user, password, update);
    RowsStay(w.tables, w.issued, v.tables, v.issued);
    StaysValid(w, v);
  }

  lemma TickIsValid(w: Scene, seconds: nat)
    requires Valid(w)
    ensures Valid(w.(now := w.now + seconds))
  {
    hide AcceptedOk, VerifiedOk, RowsOk;
    StaysValid(w, w.(now := w.now + seconds));
  }

  lemma NewEmail(users: map<User, Account>, email: Address)
    ensures WithEmail(users, email) == {} ==> forall u | u in users :: users[u].email != email
  {
    forall u | u in users && users[u].email == email
      ensures u in WithEmail(users, email)
    {}
  }

  /** A step that accepts a token, and verifies at most the account with its address. */
  lemma AcceptingIsValid(w: Scene, v: Scene, a: Acceptance)
    requires Valid(w) && v == w.(tables := v.tables, accepted := w.accepted + [a])
    requires Keeps(w.tables.users, v.tables.users) && UniqueEmails(v.tables.users) && RowsOk(v.tables, v.issued)
    requires forall t | Spent(w.tables, w.issued, t) :: Spent(v.tables, v.issued, t)
    requires AcceptanceOk(v, a) && !Spent(w.tables, w.issued, a.token)
    requires forall u | u in v.tables.users && v.tables.users[u].verified ::
               || (u in w.tables.users && w.tables.users[u].verified && w.tables.users[u].email == v.tables.users[u].email)
               || v.tables.users[u].email == a.email
    ensures Valid(v)
  {
    hide Spent, RowsOk, UniqueEmails, MailOk;
    AcceptedMore(w, v, a);
    hide AcceptedOk, AcceptanceOk;
    assert v.accepted[|w.accepted|] == a;
    assert Redeemed(v, a.email);
    VerifiedStays(w, v);
  }

  /** A row that is there makes its token acceptable, and says whose it is. */
  lemma AcceptedInTime(w: Scene, token: Token, kind: Kind, email: Address, expires: Time, v: Scene, spent: bool)
    requires MailOk(w.issued, w.mailed, w.now) && token in w.mailed && IsOrigin(w.issued, token, kind, email, expires)
    requires w.now <= expires && v.issued == w.issued && v.mailed == w.mailed
    requires spent ==> Spent(v.tables, v.issued, token)
    ensures AcceptanceOk(v, Acceptance(token, kind, email, w.now, spent))
  {}

  /** A token has a row only in the table of its kind. */
  lemma OneTable(tables: Tables, issued: map<Token, Origin>, t: Token)
    requires RowsOk(tables, issued)
    ensures t in tables.verification ==> t !in tables.magic && t !in tables.reset && t in issued
    ensures t in tables.magic ==> t !in tables.verification && t !in tables.reset && t in issued
    ensures t in tables.reset ==> t !in tables.verification && t !in tables.magic && t in issued
  {
    if t in tables.verification {
      assert VerificationRowOk(tables.users, issued, t, tables.verification[t]);
    }
    if t in tables.magic {
      assert MagicRowOk(issued, t, tables.magic[t]);
    }
    if t in tables.reset {
      assert ResetRowOk(tables.users, issued, t, tables.reset[t]);
    }
  }

  lemma VerifyEmailIsValid(w: Scene, token: Token, update: Outcome, delete: Outcome)
    requires Valid(w) && (token in w.issued ==> token in w.mailed)
    ensures var v := StepVerifyEmail(w, token, update, delete); Valid(v) && Keeps(w.tables.users, v.tables.users)
  {
    hide AcceptedOk, VerifiedOk, MailOk, RowsOk, AcceptanceOk;
    var v, rows := StepVerifyEmail(w, token, update, delete), w.tables.verification;
    OneTable(w.tables, w.issued, token);
    if v != w {
      var row := rows[token];
      RowIsOk(w.tables, w.issued, token);
      var spent := update.Done? && !delete.Failed?;
      var email := w.tables.users[row.user].email;
      AcceptedInTime(w, token, Verification, email, row.expires, v, spent);
      RowsStay(w.tables, w.issued, v.tables, v.issued);
      AcceptingIsValid(w, v, Acceptance(token, Verification, email, w.now, spent));
    }
  }

  lemma RowIsOk(tables: Tables, issued: map<Token, Origin>, t: Token)
    requires RowsOk(tables, issued)
    ensures t in tables.verification ==> VerificationRowOk(tables.users, issued, t, tables.verification[t])
    ensures t in tables.magic ==> MagicRowOk(issued, t, tables.magic[t])
    ensures t in tables.reset ==> ResetRowOk(tables.users, issued, t, tables.reset[t])
  {}

  lemma MagicLinkVerifyIsValid(w: Scene, token: Token, mark: Outcome, found: bool, verify: Outcome)
    requires Valid(w) && (token in w.issued ==> token in w.mailed)
    ensures var v := StepMagicLinkVerify(w, token, mark, found, verify); Valid(v) && Keeps(w.tables.users, v.tables.users)
  {
    hide AcceptedOk, VerifiedOk, MailOk, RowsOk, AcceptanceOk;
    var v, rows := StepMagicLinkVerify(w, token, mark, found, verify), w.tables.magic;
    OneTable(w.tables, w.issued, token);
    if token in rows && !rows[token].used && w.now <= rows[token].expires {
      var row := rows[token];
      RowIsOk(w.tables, w.issued, token);
      AcceptedInTime(w, token, Magic, row.email, row.expires, v, !mark.Failed?);
      RowsStay(w.tables, w.issued, v.tables, v.issued);
      AcceptingIsValid(w, v, Acceptance(token, Magic, row.email, w.now, !mark.Failed?));
    }
  }

  lemma ResetSpends(w: Scene, token: Token, password: Password, update: Outcome, mark: Outcome, verify: Outcome)
    requires RowsOk(w.tables, w.issued)
    ensures var v, rows := StepResetPassword(w, token, password, update, mark, verify), w.tables.reset;
            && (forall t | Spent(w.tables, w.issued, t) :: Spent(v.tables, v.issued, t))
            && (token in rows && !rows[token].used ==> !Spent(w.tables, w.issued, token))
            && (token in rows && !rows[token].used && w.now <= rows[token].expires && update.Done? && !mark.Failed? ==>
                  Spent(v.tables, v.issued, token))
  {
    OneTable(w.tables, w.issued, token);
    hide RowsOk;
  }

  lemma ResetKeepsUsers(w: Scene, token: Token, password: Password, update: Outcome, mark: Outcome, verify: Outcome)
    ensures var users, more := w.tables.users, StepResetPassword(w, token, password, update, mark, verify).tables.users;
            && Keeps(users, more) && more.Keys == users.Keys
            && forall u | u in users :: more[u].email == users[u].email
  {}

  lemma ResetKeepsRows(w: Scene, token: Token, password: Password, update: Outcome, mark: Outcome, verify: Outcome)
    ensures var v := StepResetPassword(w, token, password, update, mark, verify);
            && v.issued == w.issued && v.tables.verification == w.tables.verification && v.tables.magic == w.tables.magic
            && forall t | t in v.tables.reset ::
                 t in w.tables.reset && w.tables.reset[t].(used := v.tables.reset[t].used) == v.tables.reset[t]
  {}

  lemma SameEmails(users: map<User, Account>, more: map<User, Account>)
    requires UniqueEmails(users) && more.Keys == users.Keys && forall u | u in users :: more[u].email == users[u].email
    ensures UniqueEmails(more)
  {}

  lemma ResetKeepsTables(w: Scene, token: Token, password: Password, update: Outcome, mark: Outcome, verify: Outcome)
    requires RowsOk(w.tables, w.issued) && UniqueEmails(w.tables.users)
    ensures var v := StepResetPassword(w, token, password, update, mark, verify);
            Keeps(w.tables.users, v.tables.users) && UniqueEmails(v.tables.users) && RowsOk(v.tables, v.issued)
  {
    var v := StepResetPassword(w, token, password, update, mark, verify);
    hide RowsOk, UniqueEmails, StepResetPassword;
    ResetKeepsUsers(w, token, password, update, mark, verify);
    SameEmails(w.tables.users, v.tables.users);
    hide Keeps;
    ResetKeepsRows(w, token, password, update, mark, verify);
    RowsStay(w.tables, w.issued, v.tables, v.issued);
  }

  lemma ResetPasswordIsValid(w: Scene, token: Token, password: Password, update: Outcome, mark: Outcome, verify: Outcome)
    requires Valid(w) && (token in w.issued ==> token in w.mailed)
    ensures var v := StepResetPassword(w, token, password, update, mark, verify);
            Valid(v) && Keeps(w.tables.users, v.tables.users)
  {
    hide AcceptedOk, VerifiedOk, MailOk, RowsOk, UniqueEmails, AcceptanceOk, Spent;
    var v, rows := StepResetPassword(w, token, password, update, mark, verify), w.tables.reset;
    ResetSpends(w, token, password, update, mark, verify);
    ResetKeepsTables(w, token, password, update, mark, verify);
    if token in rows && !rows[token].used && w.now <= rows[token].expires && !update.Failed? {
      var row := rows[token];
      RowIsOk(w.tables, w.issued, token);
      var spent := update.Done? && !mark.Failed?;
      var email := w.tables.users[row.user].email;
      AcceptedInTime(w, token, Reset, email, row.expires, v, spent);
      hide Keeps;
      AcceptingIsValid(w, v, Acceptance(token, Reset, email, w.now, spent));
    }
  }
}
