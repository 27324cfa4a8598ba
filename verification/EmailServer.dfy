/**
  The tables behind the mailed tokens, with the services' methods that change them and the handlers that
  call these in order. Each handler does to the tables what its event does.
*/
module EmailServer {
  import opened EmailTokens
  import opened EmailTokenSafety
  import opened Options
  import opened Stores

  import Auth = AuthService
  import Sessions
  import SessionReset

  class Server {
    const auth: Auth.AuthService
    var users: map<User, Account>
    var verification: map<Token, VerificationRow>
    var magic: map<Token, MagicRow>
    var reset: map<Token, ResetRow>

    constructor (auth: Auth.AuthService)
      ensures View() == Empty().tables && this.auth == auth
    {
      this.auth := auth;
      users, verification, magic, reset := map[], map[], map[], map[];
    }

    function View(): Tables
      reads this
    {
      Tables(users, verification, magic, reset)
    }

    // ---- The user service ----

    /** `Create`: no account when the address or the user name is taken. */
    method Create(user: User, email: Address, password: Password, usernameTaken: bool, insert: Outcome) returns (ok: bool)
      requires user !in users
      modifies `users
      ensures ok == (insert.Done? && WithEmail(old(users), email) == {} && !usernameTaken)
      ensures users == if !insert.Failed? && WithEmail(old(users), email) == {} && !usernameTaken
                       then old(users)[user := Account(email, password, false)] else old(users)
    {
      if WithEmail(users, email) != {} || usernameTaken {
        return false;
      }
      if !insert.Failed? {
        users := users[user := Account(email, password, false)];
      }
      ok := insert.Done?;
    }

    method GetByEmail(email: Address) returns (user: Option<User>)
      ensures if user.Some? then user.value in WithEmail(users, email) else WithEmail(users, email) == {}
      ensures user.Some? <==> exists u | u in users :: users[u].email == email
    {
      var found := WithEmail(users, email);
      assert forall u | u in users && users[u].email == email :: u in found;
      if found == {} {
        return None;
      }
      var u :| u in found;
      user := Some(u);
    }

    method UpdatePassword(user: User, password: Password, update: Outcome) returns (ok: bool)
      modifies `users
      ensures users == Effect(update, WithPassword(old(users), user, password), old(users))
      ensures if user in old(users) && update != Failed
              then Changed(old(users), users, user, password, old(users)[user].verified)
              else users == old(users)
      ensures ok == (update.Done? && user in users)
    {
      if !update.Failed? && user in users {
        users := users[user := users[user].(password := password)];
      }
      ok := update.Done? && user in users;
    }

    method MarkEmailVerified(user: User, update: Outcome) returns (ok: bool)
      modifies `users
      ensures users == Effect(update, Verified(old(users), user), old(users)) && ok == update.Done?
      ensures if user in old(users) && update != Failed
              then Changed(old(users), users, user, old(users)[user].password, true)
              else users == old(users)
    {
      if !update.Failed? && user in users && !users[user].verified {
        users := users[user := users[user].(verified := true)];
      }
      ok := update.Done?;
    }

    // ---- The e-mail service ----

    /** `VerifyEmail` of the service; the account is updated first, and a failed deletion is only logged. */
    method VerifyEmail(token: Token, now: Time, update: Outcome, delete: Outcome, ghost w: Scene) returns (ok: bool)
      requires w.tables == View() && w.now == now
      modifies `users, `verification
      ensures View() == StepVerifyEmail(w, token, update, delete).tables
      ensures ok <==> token in old(verification) && now <= old(verification)[token].expires && update.Done?
      ensures if token in old(verification) && now <= old(verification)[token].expires && update != Failed
                 && old(verification)[token].user in old(users)
              then var u := old(verification)[token].user; Changed(old(users), users, u, old(users)[u].password, true)
              else users == old(users)
    {
      if token !in verification {
        return false;
      }
      var row := verification[token];
      if now > row.expires {
        return false;
      }
      if !update.Failed? && row.user in users {
        users := users[row.user := users[row.user].(verified := true)];
      }
      if !update.Done? {
        return false;
      }
      if !delete.Failed? {
        verification := Others(verification, row.user);
      }
      ok := true;
    }

    /** `VerifyMagicLink`: the address, even when marking the link failed. */
    method VerifyMagicLink(token: Token, now: Time, mark: Outcome) returns (email: Option<Address>)
      modifies `magic
      ensures email.Some? <==> token in old(magic) && !old(magic)[token].used && now <= old(magic)[token].expires
      ensures email.Some? ==>
                && email.value == old(magic)[token].email
                && magic == Effect(mark, old(magic)[token := old(magic)[token].(used := true)], old(magic))
      ensures email.None? ==> magic == old(magic)
    {
      if token !in magic || magic[token].used || now > magic[token].expires {
        return None;
      }
      email := Some(magic[token].email);
      if !mark.Failed? {
        magic := magic[token := magic[token].(used := true)];
      }
    }

    /**
      `VerifyPasswordResetToken`: the account with the address the token was issued for at most an hour ago,
      if it was not used since. With any other token, a reset changes nothing.
    */
    method VerifyPasswordResetToken(token: Token, now: Time, ghost w: Scene) returns (user: Option<User>)
      requires w.tables == View() && w.now == now && Valid(w)
      ensures user.Some? <==> token in reset && !reset[token].used && now <= reset[token].expires
      ensures user.Some? ==>
                && user.value == reset[token].user && user.value in users && token in w.issued
                && w.issued[token].kind == Reset && w.issued[token].email == users[user.value].email
                && w.issued[token].at <= now <= w.issued[token].at + 3600 && !Spent(w.tables, w.issued, token)
      ensures user.None? ==> forall password, update, mark, verify ::
                               StepResetPassword(w, token, password, update, mark, verify) == w
    {
      RowIsOk(w.tables, w.issued, token);
      if token !in reset || reset[token].used || now > reset[token].expires {
        return None;
      }
      user := Some(reset[token].user);
    }

    method MarkPasswordResetUsed(token: Token, mark: Outcome)
      modifies `reset
      ensures reset == if token in old(reset) && !mark.Failed?
                       then old(reset)[token := old(reset)[token].(used := true)] else old(reset)
    {
      if token in reset && !mark.Failed? {
        reset := reset[token := reset[token].(used := true)];
      }
    }

    method SendVerificationEmail(user: User, token: Token, now: Time, insert: Outcome) returns (mail: Option<Address>)
      requires user in users
      modifies `verification
      ensures verification == Effect(insert, old(verification)[token := VerificationRow(user, now + Expiry(Verification))],
                                     old(verification))
      ensures mail == if insert.Done? then Some(users[user].email) else None
    {
      if !insert.Failed? {
        verification := verification[token := VerificationRow(user, now + Expiry(Verification))];
      }
      mail := if insert.Done? then Some(users[user].email) else None;
    }

    // ---- The handlers ----

    method Register(user: User, email: Address, password: Password, usernameTaken: bool, insert: Outcome, ghost w: Scene)
      returns (ok: bool)
      requires user !in users && w.tables == View()
      modifies `users
      ensures View() == StepRegister(w, user, email, password, usernameTaken, insert).tables
    {
      ok := Create(user, email, password, usernameTaken, insert);
    }

    /** `MagicLink`; the answer is the same whether or not there is an account, or it can be read. */
    method MagicLink(email: Address, token: Token, now: Time, found: bool, insert: Outcome, ghost w: Scene)
      returns (mail: Option<Address>)
      requires w.tables == View() && w.now == now
      modifies `magic
      ensures View() == if found then StepMagicLink(w, email, token, insert).tables else w.tables
      ensures mail == if found && insert == Done && (exists u | u in users :: users[u].email == email)
                      then Some(email) else None
    {
      mail := None;
      if !found {
        return;
      }
      var user := GetByEmail(email);
      if user.Some? {
        if !insert.Failed? {
          magic := magic[token := MagicRow(email, now + Expiry(Magic), false)];
        }
        mail := if insert.Done? then Some(email) else None;
      }
    }

    /**
      `MagicLinkVerify`: the account a session is created for, and the cookie. Marking the account and then
      failing to read it again ends the handler without either.
    */
    method MagicLinkVerify(token: Token, now: Time, mark: Outcome, found: bool, verify: Outcome, reread: bool,
                           session: Token, creation: nat -> Auth.Choice, ghost w: Scene)
      returns (user: Option<User>, cookie: Option<Token>)
      requires w.tables == View() && w.now == now == auth.now && Valid(w)
      modifies `users, `magic, auth`redis, auth`rows, auth`nextRow
      ensures View() == StepMagicLinkVerify(w, token, mark, found, verify).tables
      ensures user.Some? ==> token in old(magic) && user.value in WithEmail(users, old(magic)[token].email)
      ensures user.Some? <==> Admits(old(View()), token, now, found, verify, reread)
      ensures if LinkVerifies(old(View()), token, now, found, verify)
              then forall u | u in old(users) && old(users)[u].email == old(magic)[token].email ::
                     Changed(old(users), users, u, old(users)[u].password, true)
              else users == old(users)
      ensures auth.Stores(SessionReset.WithSession(old(auth.View()), user, session, creation))
      ensures cookie == if user.Some? && (creation(0).outcome.Done? || creation(1).outcome.Done?) then Some(session) else None
      ensures cookie.Some? && Sessions.GetKey(old(auth.redis), Sessions.Sha256(session), now).None? ==>
                Auth.Opens(auth.View(), session, user.value)
    {
      hide Valid, Admits, StepMagicLinkVerify, Auth.Alone;
      user := RedeemLink(token, now, mark, found, verify, reread, w);
      cookie := None;
      if user.Some? {
        cookie := auth.CreateSession(user.value, session, creation);
      }
    }

    /** The handler up to the session. */
    method RedeemLink(token: Token, now: Time, mark: Outcome, found: bool, verify: Outcome, reread: bool, ghost w: Scene)
      returns (user: Option<User>)
      requires w.tables == View() && w.now == now && Valid(w)
      modifies `users, `magic
      ensures View() == StepMagicLinkVerify(w, token, mark, found, verify).tables
      ensures user.Some? ==> token in old(magic) && user.value in WithEmail(users, old(magic)[token].email)
      ensures user.Some? <==> Admits(old(View()), token, now, found, verify, reread)
      ensures if LinkVerifies(old(View()), token, now, found, verify)
              then forall u | u in old(users) && old(users)[u].email == old(magic)[token].email ::
                     Changed(old(users), users, u, old(users)[u].password, true)
              else users == old(users)
    {
      hide RowsOk, MailOk, AcceptedOk, VerifiedOk, UniqueEmails, StepMagicLinkVerify, WithEmail, Verified;
      LinkStep(w, token, mark, found, verify);
      var email := VerifyMagicLink(token, now, mark);
      user := None;
      if email.Some? {
        user := MarkOwner(email.value, found, verify, reread);
      }
    }

    method MarkOwner(email: Address, found: bool, verify: Outcome, reread: bool) returns (user: Option<User>)
      requires UniqueEmails(users)
      modifies `users
      ensures var owners := WithEmail(old(users), email);
              && (if found && owners != {}
                  then forall u | u in owners :: users == Effect(verify, Verified(old(users), u), old(users))
                  else users == old(users))
              && (if found && verify != Failed && exists u | u in old(users) :: old(users)[u].email == email
                  then forall u | u in old(users) && old(users)[u].email == email ::
                         Changed(old(users), users, u, old(users)[u].password, true)
                  else users == old(users))
              && (user.Some? ==> user.value in WithEmail(users, email))
              && (user.Some? <==>
                    found && owners != {} && forall u | u in owners :: old(users)[u].verified || !verify.Done? || reread)
    {
      user := None;
      if found {
        user := GetByEmail(email);
        if user.Some? {
          OneAccount(users, email, user.value);
          user := MarkedAndReread(user.value, verify, reread);
        }
      }
    }

    method MarkedAndReread(account: User, verify: Outcome, reread: bool) returns (user: Option<User>)
      requires account in users
      modifies `users
      ensures users == Effect(verify, Verified(old(users), account), old(users))
      ensures user == if old(users)[account].verified || !verify.Done? || reread then Some(account) else None
      ensures if verify != Failed then Changed(old(users), users, account, old(users)[account].password, true)
              else users == old(users)
    {
      user := Some(account);
      if !users[account].verified {
        var ok := MarkEmailVerified(account, verify);
        if ok && !reread {
          user := None;
        }
      } else {
        assert users == Verified(users, account);
      }
    }

    method ForgotPassword(email: Address, token: Token, now: Time, found: bool, insert: Outcome, ghost w: Scene)
      returns (mail: Option<Address>)
      requires w.tables == View() && w.now == now && Valid(w)
      modifies `reset
      ensures View() == if found then StepForgotPassword(w, email, token, insert).tables else w.tables
      ensures mail == if found && insert == Done && (exists u | u in users :: users[u].email == email)
                      then Some(email) else None
    {
      mail := None;
      if !found {
        return;
      }
      var user := GetByEmail(email);
      if user.Some? {
        OneAccount(users, email, user.value);
        if !insert.Failed? {
          reset := reset[token := ResetRow(user.value, now + Expiry(Reset), false)];
        }
        mail := if insert.Done? then Some(users[user.value].email) else None;
      }
    }

    /**
      `ResetPassword`, the password itself being acceptable; `found` tells whether the account can be read
      at the end. An error of `DeleteAllUserSessions` is ignored.
    */
    method ResetPassword(token: Token, password: Password, now: Time, update: Outcome, mark: Outcome, verify: Outcome,
                         found: bool, session: Token, deletion: nat -> Auth.Choice, creation: nat -> Auth.Choice,
                         ghost w: Scene)
      returns (changed: bool, cookie: Option<Token>)
      requires w.tables == View() && w.now == now == auth.now && Valid(w)
      requires token in reset ==> SessionReset.Found(auth.View(), reset[token].user, deletion)
      modifies `users, `reset, auth`redis, auth`rows, auth`nextRow
      ensures View() == StepResetPassword(w, token, password, update, mark, verify).tables
      ensures changed <==>
                token in old(reset) && !old(reset)[token].used && now <= old(reset)[token].expires && update.Done?
      ensures if changed then
                auth.Stores(SessionReset.AfterReset(old(auth.View()), old(reset)[token].user, deletion, found, session, creation))
              else auth.View() == old(auth.View())
      ensures if ResetLive(old(reset), token, now) && update != Failed
              then var u := old(reset)[token].user;
                   u in old(users) && Changed(old(users), users, u, password,
                                              old(users)[u].verified || (update == Done && verify != Failed))
              else users == old(users)
      ensures reset == if ResetLive(old(reset), token, now) && update == Done && mark != Failed
                       then old(reset)[token := old(reset)[token].(used := true)] else old(reset)
      ensures cookie == if changed && found && (creation(0).outcome.Done? || creation(1).outcome.Done?)
                        then Some(session) else None
      ensures cookie.Some? && Sessions.GetKey(old(auth.redis), Sessions.Sha256(session), now).None? ==>
                Auth.Opens(auth.View(), session, old(reset)[token].user)
    {
      hide Valid, Auth.Alone, StepResetPassword, Verified;
      cookie := None;
      MarkingIsLast(w, token, password, update, mark, verify);
      changed := Redeem(token, password, now, update, mark, w);
      if !changed {
        return;
      }
      var user := reset[token].user;
      InvalidateAndMark(user, deletion, verify);
      if found {
        cookie := auth.CreateSession(user, session, creation);
      }
    }

    method InvalidateAndMark(user: User, deletion: nat -> Auth.Choice, verify: Outcome)
      requires SessionReset.Found(auth.View(), user, deletion)
      modifies `users, auth`redis, auth`rows
      ensures users == Effect(verify, Verified(old(users), user), old(users))
      ensures if user in old(users) && verify != Failed
              then Changed(old(users), users, user, old(users)[user].password, true)
              else users == old(users)
      ensures forall h | h in auth.redis :: h in old(auth.redis) && auth.redis[h] == old(auth.redis)[h]
      ensures auth.View() == Auth.Alone(old(auth.View()), Sessions.DeleteAllQuery(user), deletion, 0)
    {
      hide Auth.Alone;
      Auth.DeleteAllAlone(auth.View(), user, deletion);
      var deleted := auth.DeleteAllUserSessions(user, deletion);
      var verified := MarkEmailVerified(user, verify);
    }

    /** The handler up to the sessions: the password is changed and the token marked. */
    method Redeem(token: Token, password: Password, now: Time, update: Outcome, mark: Outcome, ghost w: Scene)
      returns (changed: bool)
      requires w.tables == View() && w.now == now && Valid(w)
      modifies `users, `reset
      ensures View() == StepResetPassword(w, token, password, update, mark, Failed).tables
      ensures changed <==>
                token in old(reset) && !old(reset)[token].used && now <= old(reset)[token].expires && update.Done?
      ensures changed ==> token in reset && reset[token].user == old(reset)[token].user
      ensures if ResetLive(old(reset), token, now) && update != Failed
              then var u := old(reset)[token].user;
                   u in old(users) && Changed(old(users), users, u, password, old(users)[u].verified)
              else users == old(users)
      ensures reset == if changed && mark != Failed
                       then old(reset)[token := old(reset)[token].(used := true)] else old(reset)
    {
      var user := VerifyPasswordResetToken(token, now, w);
      if user.None? {
        return false;
      }
      var updated := UpdatePassword(user.value, password, update);
      if !updated {
        return false;
      }
      MarkPasswordResetUsed(token, mark);
      changed := true;
    }
  }

  /** One account has this password and this mark afterwards, and nothing else is different. */
  predicate Changed(before: map<User, Account>, after: map<User, Account>, user: User, password: Password, verified: bool) {
    && before.Keys == after.Keys && user in before
    && after[user].password == password && after[user].verified == verified && after[user].email == before[user].email
    && forall u | u in before && u != user :: after[u] == before[u]
  }

  /** What a magic link does to the tables, the account being the one with its address. */
  lemma LinkStep(w: Scene, token: Token, mark: Outcome, found: bool, verify: Outcome)
    requires UniqueEmails(w.tables.users)
    ensures var v, rows, users := StepMagicLinkVerify(w, token, mark, found, verify).tables, w.tables.magic, w.tables.users;
            if token !in rows || rows[token].used || w.now > rows[token].expires then v == w.tables
            else
              && v == w.tables.(users := v.users, magic := Effect(mark, rows[token := rows[token].(used := true)], rows))
              && var owners := WithEmail(users, rows[token].email);
                 if found && owners != {} then
                   forall user | user in owners :: v.users == Effect(verify, Verified(users, user), users)
                 else v.users == users
  {}

  /** A reset token that can be used. */
  predicate ResetLive(reset: map<Token, ResetRow>, token: Token, now: Time) {
    token in reset && !reset[token].used && now <= reset[token].expires
  }

  /** When a magic link marks its account: live, unused, and the account's mark was written. */
  predicate LinkVerifies(tables: Tables, token: Token, now: Time, found: bool, verify: Outcome) {
    && token in tables.magic && !tables.magic[token].used && now <= tables.magic[token].expires && found
    && verify != Failed && exists u | u in tables.users :: tables.users[u].email == tables.magic[token].email
  }

  /** When a magic link gets its visitor a session: live and unused, and for an account that can be read. */
  predicate Admits(tables: Tables, token: Token, now: Time, found: bool, verify: Outcome, reread: bool) {
    && token in tables.magic && !tables.magic[token].used && now <= tables.magic[token].expires && found
    && var owners := WithEmail(tables.users, tables.magic[token].email);
       owners != {} && forall u | u in owners :: tables.users[u].verified || !verify.Done? || reread
  }

  lemma MarkingIsLast(w: Scene, token: Token, password: Password, update: Outcome, mark: Outcome, verify: Outcome)
    ensures var u, v := StepResetPassword(w, token, password, update, mark, Failed).tables,
                        StepResetPassword(w, token, password, update, mark, verify).tables;
            var rows := w.tables.reset;
            if token in rows && !rows[token].used && w.now <= rows[token].expires && update.Done?
            then v == u.(users := Effect(verify, Verified(u.users, rows[token].user), u.users))
            else v == u
  {}

  lemma OneAccount(users: map<User, Account>, email: Address, user: User)
    requires UniqueEmails(users) && user in WithEmail(users, email)
    ensures WithEmail(users, email) == {user}
  {}
}
