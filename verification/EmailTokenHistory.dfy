/** What whole runs of the mailed tokens guarantee. */
module EmailTokenHistory {
  import opened EmailTokens
  import opened EmailTokenSafety
  import opened Stores

  lemma StepIsValid(w: Scene, e: Event)
    requires Valid(w) && Possible(w, e)
    ensures Valid(Step(w, e)) && Keeps(w.tables.users, Step(w, e).tables.users)
  {
    hide Valid, StepSendVerification, StepMagicLink, StepForgotPassword, StepRegister, StepVerifyEmail,
         StepMagicLinkVerify, StepResetPassword, StepChangePassword;
    match e
    case Tick(seconds) => TickIsValid(w, seconds);
    case Register(user, email, password, taken, insert) => RegisterIsValid(w, user, email, password, taken, insert);
    case SendVerification(user, token, insert) =>
      SendVerificationIsValid(w, user, token, insert);
      SendKeeps(w, e);
    case VerifyEmail(token, update, delete) => VerifyEmailIsValid(w, token, update, delete);
    case MagicLink(email, token, insert) =>
      MagicLinkIsValid(w, email, token, insert);
      SendKeeps(w, e);
    case MagicLinkVerify(token, mark, found, verify) => MagicLinkVerifyIsValid(w, token, mark, found, verify);
    case ForgotPassword(email, token, insert) =>
      ForgotPasswordIsValid(w, email, token, insert);
      SendKeeps(w, e);
    case ResetPassword(token, password, update, mark, verify) =>
      ResetPasswordIsValid(w, token, password, update, mark, verify);
    case ChangePassword(user, password, update) => ChangePasswordIsValid(w, user, password, update);
  }

  lemma SendKeeps(w: Scene, e: Event)
    requires Possible(w, e) && (e.SendVerification? || e.MagicLink? || e.ForgotPassword?)
    ensures Step(w, e).tables.users == w.tables.users
  {}

  lemma KeepsJoin(x: map<User, Account>, y: map<User, Account>, z: map<User, Account>)
    requires Keeps(x, y) && Keeps(y, z)
    ensures Keeps(x, z)
  {}

  lemma {:induction false} RunIsValid(w: Scene, events: seq<Event>)
    requires Valid(w) && Run(w, events).Some?
    ensures Valid(Run(w, events).value) && Keeps(w.tables.users, Run(w, events).value.tables.users)
    decreases |events|
  {
    if events != [] {
      StepIsValid(w, events[0]);
      hide Valid, Keeps, Step;
      var v := Step(w, events[0]);
      RunIsValid(v, events[1..]);
      KeepsJoin(w.tables.users, v.tables.users, Run(v, events[1..]).value.tables.users);
    } else {
      KeepsJoin(w.tables.users, w.tables.users, w.tables.users);
    }
  }

  lemma EmptyIsValid()
    ensures Valid(Empty())
  {}

  /**
    An account is verified only if a token that was mailed to its own address was accepted earlier, and
    no other account has that address.
  */
  lemma VerifiedByMail(events: seq<Event>, user: User) returns (j: nat)
    requires Run(Empty(), events).Some?
    requires var w := Run(Empty(), events).value; user in w.tables.users && w.tables.users[user].verified
    ensures var w := Run(Empty(), events).value;
            var email := w.tables.users[user].email;
            && j < |w.accepted| && w.accepted[j].token in w.mailed && w.mailed[w.accepted[j].token] == email
            && forall u | u in w.tables.users && w.tables.users[u].email == email :: u == user
  {
    EmptyIsValid();
    RunIsValid(Empty(), events);
    var w := Run(Empty(), events).value;
    hide Run, RowsOk, MailOk;
    var email := w.tables.users[user].email;
    assert Redeemed(w, email);
    j :| 0 <= j < |w.accepted| && w.accepted[j].email == email;
    assert AcceptanceOk(w, w.accepted[j]);
  }

  /** Going on with a run never changes an account's address and never makes it unverified. */
  lemma NeverUnverified(before: seq<Event>, after: seq<Event>, user: User)
    requires Run(Empty(), before).Some? && Run(Run(Empty(), before).value, after).Some?
    requires user in Run(Empty(), before).value.tables.users
    ensures var w := Run(Empty(), before).value;
            var v := Run(w, after).value;
            && user in v.tables.users && v.tables.users[user].email == w.tables.users[user].email
            && (w.tables.users[user].verified ==> v.tables.users[user].verified)
  {
    EmptyIsValid();
    RunIsValid(Empty(), before);
    RunIsValid(Run(Empty(), before).value, after);
  }

  /**
    A token whose marking or deletion took effect is never accepted again: so it verifies an address,
    yields it or changes a password at most once more often than such a write failed.
  */
  lemma AcceptedOnce(events: seq<Event>, i: nat, j: nat)
    requires Run(Empty(), events).Some? && i < j < |Run(Empty(), events).value.accepted|
    ensures var a := Run(Empty(), events).value.accepted; a[i].token == a[j].token ==> !a[i].spent
  {
    EmptyIsValid();
    RunIsValid(Empty(), events);
  }

  /** Every acceptance is for the address the token was issued for, within the life of its kind. */
  lemma AcceptedForItsIssue(events: seq<Event>, j: nat)
    requires Run(Empty(), events).Some? && j < |Run(Empty(), events).value.accepted|
    ensures var w := Run(Empty(), events).value;
            var a := w.accepted[j];
            && a.token in w.issued && w.issued[a.token].kind == a.kind && w.issued[a.token].email == a.email
            && w.issued[a.token].at <= a.at <= w.issued[a.token].at +
               (if a.kind.Verification? then 24 * 60 * 60 else if a.kind.Magic? then 15 * 60 else 60 * 60)
  {
    EmptyIsValid();
    RunIsValid(Empty(), events);
    var w := Run(Empty(), events).value;
    assert AcceptanceOk(w, w.accepted[j]);
  }

  /** A successful verification leaves no verification token of its user, and so spends all of them. */
  lemma VerificationSpendsAll(events: seq<Event>, token: Token, delete: Outcome, other: Token)
    requires Run(Empty(), events).Some? && !delete.Failed?
    requires var w := Run(Empty(), events).value;
             && token in w.tables.verification && w.now <= w.tables.verification[token].expires && token in w.mailed
             && other in w.tables.verification && w.tables.verification[other].user == w.tables.verification[token].user
    ensures var w := Run(Empty(), events).value;
            var v := StepVerifyEmail(w, token, Done, delete);
            && Spent(v.tables, v.issued, other)
            && (forall t | t in v.tables.verification ::
                  v.tables.verification[t].user != w.tables.verification[token].user)
            && var user := w.tables.verification[token].user;
               user in v.tables.users && v.tables.users[user].verified
  {
    EmptyIsValid();
    RunIsValid(Empty(), events);
    var w := Run(Empty(), events).value;
    OneTable(w.tables, w.issued, other);
    RowIsOk(w.tables, w.issued, token);
  }

  lemma SpentStaysSpent(w: Scene, e: Event, t: Token)
    requires Possible(w, e) && Spent(w.tables, w.issued, t)
    ensures var v := Step(w, e);
            && Spent(v.tables, v.issued, t) && |w.accepted| <= |v.accepted|
            && forall j | |w.accepted| <= j < |v.accepted| :: v.accepted[j].token != t
  {}

  /** What is spent is not accepted by anything that happens later. */
  lemma {:induction false} SpentForGood(w: Scene, events: seq<Event>, t: Token, j: nat)
    requires Spent(w.tables, w.issued, t) && Run(w, events).Some? && |w.accepted| <= j < |Run(w, events).value.accepted|
    ensures Run(w, events).value.accepted[j].token != t
    decreases |events|
  {
    if events != [] {
      var v := Step(w, events[0]);
      SpentStaysSpent(w, events[0], t);
      hide Step, Spent;
      if |v.accepted| <= j {
        SpentForGood(v, events[1..], t, j);
      } else {
        AcceptedGrows(v, events[1..]);
      }
    }
  }

  lemma {:induction false} AcceptedGrows(w: Scene, events: seq<Event>)
    requires Run(w, events).Some?
    ensures w.accepted <= Run(w, events).value.accepted
    decreases |events|
  {
    if events != [] {
      StepGrows(w, events[0]);
      hide Step;
      AcceptedGrows(Step(w, events[0]), events[1..]);
    }
  }

  lemma StepGrows(w: Scene, e: Event)
    requires Possible(w, e)
    ensures w.accepted <= Step(w, e).accepted
  {}
}
