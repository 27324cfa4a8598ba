/**
  Tokens sent by mail: verification, magic-link and reset tokens, through the e-mail service, the user
  service and the handlers that combine them. Each handler call is one event; each of its writes may
  fail, with or without having taken effect.
*/
module EmailTokens {
  import opened Options
  import opened Stores

  type Address = string
  type Password = string

  datatype Kind = Verification | Magic | Reset

  /** Seconds: 24 hours, 15 minutes, 1 hour. */
  function Expiry(kind: Kind): nat {
    match kind
    case Verification => 24 * 3600
    case Magic => 15 * 60
    case Reset => 3600
  }

  // ---- The tables ----

  datatype Account = Account(email: Address, password: Password, verified: bool)

  datatype VerificationRow = VerificationRow(user: User, expires: Time)

  datatype MagicRow = MagicRow(email: Address, expires: Time, used: bool)

  datatype ResetRow = ResetRow(user: User, expires: Time, used: bool)

  /** Rows are found by the hash of their token, taken to be injective, so by the token. */
  datatype Tables = Tables(
    users: map<User, Account>,
    verification: map<Token, VerificationRow>,
    magic: map<Token, MagicRow>,
    reset: map<Token, ResetRow>)

  function WithEmail(users: map<User, Account>, email: Address): set<User> {
    set u | u in users && users[u].email == email
  }

  function Verified(users: map<User, Account>, user: User): map<User, Account> {
    if user in users then users[user := users[user].(verified := true)] else users
  }

  function EmailOf(users: map<User, Account>, user: User): Address {
    if user in users then users[user].email else ""
  }

  function WithPassword(users: map<User, Account>, user: User, password: Password): map<User, Account> {
    if user in users then users[user := users[user].(password := password)] else users
  }

  // ---- What is known about a run ----

  datatype Origin = Origin(kind: Kind, email: Address, at: Time)

  /**
    A token was accepted for the account with this address: a verification succeeded, a magic link
    yielded its address, or a reset changed the password; `spent` tells whether the write that marks or
    deletes it took effect.
  */
  datatype Acceptance = Acceptance(token: Token, kind: Kind, email: Address, at: Time, spent: bool)

  datatype Scene = Scene(
    now: Time,
    tables: Tables,
    issued: map<Token, Origin>,
    mailed: map<Token, Address>,
    accepted: seq<Acceptance>)

  function Empty(): Scene {
    Scene(0, Tables(map[], map[], map[], map[]), map[], map[], [])
  }

  datatype Event =
    | Tick(seconds: nat)
    | Register(user: User, email: Address, password: Password, usernameTaken: bool, insert: Outcome)
    | SendVerification(user: User, token: Token, insert: Outcome)
    | VerifyEmail(token: Token, update: Outcome, delete: Outcome)
    | MagicLink(email: Address, token: Token, insert: Outcome)
    | MagicLinkVerify(token: Token, mark: Outcome, found: bool, verify: Outcome)
    | ForgotPassword(email: Address, token: Token, insert: Outcome)
    | ResetPassword(token: Token, password: Password, update: Outcome, mark: Outcome, verify: Outcome)
    | ChangePassword(user: User, password: Password, update: Outcome)

  /** New tokens and users are fresh; a token that exists is known only from the mail it was sent in. */
  predicate Possible(w: Scene, e: Event) {
    match e
    case Register(user, email, password, usernameTaken, insert) => user !in w.tables.users
    case SendVerification(user, token, insert) => user in w.tables.users && token !in w.issued
    case MagicLink(email, token, insert) => token !in w.issued
    case ForgotPassword(email, token, insert) => token !in w.issued
    case VerifyEmail(token, update, delete) => token in w.issued ==> token in w.mailed
    case MagicLinkVerify(token, mark, found, verify) => token in w.issued ==> token in w.mailed
    case ResetPassword(token, password, update, mark, verify) => token in w.issued ==> token in w.mailed
    case _ => true
  }

  function Effect<T>(o: Outcome, changed: T, same: T): T {
    if o.Failed? then same else changed
  }

  // ---- Issuing ----

  /** The three `Send...Email`: the row first, and the mail only if that write reported no error. */
  function Send(w: Scene, token: Token, kind: Kind, email: Address, inserted: Tables, insert: Outcome): Scene {
    w.(tables := Effect(insert, inserted, w.tables),
       issued := w.issued[token := Origin(kind, email, w.now)],
       mailed := if insert.Done? then w.mailed[token := email] else w.mailed)
  }

  function StepSendVerification(w: Scene, user: User, token: Token, insert: Outcome): Scene
    requires user in w.tables.users
  {
    var row := VerificationRow(user, w.now + Expiry(Verification));
    Send(w, token, Verification, w.tables.users[user].email,
         w.tables.(verification := w.tables.verification[token := row]), insert)
  }

  /** Nothing is sent to an address without an account. */
  function StepMagicLink(w: Scene, email: Address, token: Token, insert: Outcome): Scene {
    if WithEmail(w.tables.users, email) == {} then w
    else
      var row := MagicRow(email, w.now + Expiry(Magic), false);
      Send(w, token, Magic, email, w.tables.(magic := w.tables.magic[token := row]), insert)
  }

  ghost function StepForgotPassword(w: Scene, email: Address, token: Token, insert: Outcome): Scene {
    if WithEmail(w.tables.users, email) == {} then w
    else
      var user :| user in WithEmail(w.tables.users, email);
      var row := ResetRow(user, w.now + Expiry(Reset), false);
      Send(w, token, Reset, email, w.tables.(reset := w.tables.reset[token := row]), insert)
  }

  /** A new account; the table takes no second one with the same address. */
  function StepRegister(w: Scene, user: User, email: Address, password: Password, usernameTaken: bool, insert: Outcome): Scene {
    if WithEmail(w.tables.users, email) != {} || usernameTaken || insert.Failed? then w
    else w.(tables := w.tables.(users := w.tables.users[user := Account(email, password, false)]))
  }

  // ---- Redeeming ----

  function Accept(w: Scene, token: Token, kind: Kind, email: Address, spent: bool): seq<Acceptance> {
    w.accepted + [Acceptance(token, kind, email, w.now, spent)]
  }

  function Others(rows: map<Token, VerificationRow>, user: User): map<Token, VerificationRow> {
    map t | t in rows && rows[t].user != user :: rows[t]
  }

  /** The account is updated, and then all verification tokens of its user are deleted. */
  function StepVerifyEmail(w: Scene, token: Token, update: Outcome, delete: Outcome): Scene {
    var rows := w.tables.verification;
    if token !in rows || w.now > rows[token].expires || update.Failed? then w
    else
      var user := rows[token].user;
      var left := if update.Done? then Effect(delete, Others(rows, user), rows) else rows;
      var email := EmailOf(w.tables.users, user);
      w.(tables := w.tables.(users := Verified(w.tables.users, user), verification := left),
         accepted := Accept(w, token, Verification, email, update.Done? && !delete.Failed?))
  }

  /** The link is marked, and whatever comes of that, the account with its address is then verified. */
  ghost function StepMagicLinkVerify(w: Scene, token: Token, mark: Outcome, found: bool, verify: Outcome): Scene {
    var rows := w.tables.magic;
    if token !in rows || rows[token].used || w.now > rows[token].expires then w
    else
      var email := rows[token].email;
      var marked := Effect(mark, rows[token := rows[token].(used := true)], rows);
      var users := w.tables.users;
      var users' := if found && WithEmail(users, email) != {} then
                      var user :| user in WithEmail(users, email);
                      Effect(verify, Verified(users, user), users)
                    else users;
      w.(tables := w.tables.(users := users', magic := marked), accepted := Accept(w, token, Magic, email, !mark.Failed?))
  }

  /** The password is changed; only if that reported no error is the token marked and the account verified. */
  function StepResetPassword(w: Scene, token: Token, password: Password, update: Outcome, mark: Outcome, verify: Outcome): Scene {
    var rows := w.tables.reset;
    if token !in rows || rows[token].used || w.now > rows[token].expires || update.Failed? then w
    else
      var user := rows[token].user;
      var users := WithPassword(w.tables.users, user, password);
      var marked := if update.Done? then Effect(mark, rows[token := rows[token].(used := true)], rows) else rows;
      var users' := if update.Done? then Effect(verify, Verified(users, user), users) else users;
      w.(tables := w.tables.(users := users', reset := marked),
         accepted := Accept(w, token, Reset, EmailOf(w.tables.users, user), update.Done? && !mark.Failed?))
  }

  function StepChangePassword(w: Scene, user: User, password: Password, update: Outcome): Scene {
    w.(tables := w.tables.(users := Effect(update, WithPassword(w.tables.users, user, password), w.tables.users)))
  }

  ghost function Step(w: Scene, e: Event): Scene
    requires Possible(w, e)
  {
    match e
    case Tick(seconds) => w.(now := w.now + seconds)
    case Register(user, email, password, usernameTaken, insert) =>
      StepRegister(w, user, email, password, usernameTaken, insert)
    case SendVerification(user, token, insert) => StepSendVerification(w, user, token, insert)
    case VerifyEmail(token, update, delete) => StepVerifyEmail(w, token, update, delete)
    case MagicLink(email, token, insert) => StepMagicLink(w, email, token, insert)
    case MagicLinkVerify(token, mark, found, verify) => StepMagicLinkVerify(w, token, mark, found, verify)
    case ForgotPassword(email, token, insert) => StepForgotPassword(w, email, token, insert)
    case ResetPassword(token, password, update, mark, verify) => StepResetPassword(w, token, password, update, mark, verify)
    case ChangePassword(user, password, update) => StepChangePassword(w, user, password, update)
  }

  ghost function Run(w: Scene, events: seq<Event>): Option<Scene>
    decreases |events|
  {
    if events == [] then Some(w)
    else if !Possible(w, events[0]) then None
    else Run(Step(w, events[0]), events[1..])
  }
}
