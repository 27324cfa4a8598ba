/**
  Session tokens in two fallible stores: Redis keys with a sliding expiry, and Postgres rows for when
  Redis fails. Calls of the service are processes that interleave at every store call, and every store
  call may fail, with or without having taken effect.
*/
module Sessions {
  import opened Options
  import opened Stores

  /** SHA-256 of a token, taken to be injective. */
  datatype Hash = Sha256(token: Token)

  /** `sessionDuration`, in seconds. */
  const MONTH: nat := 30 * 24 * 3600

  datatype Key = Key(user: User, expires: Time)

  datatype Row = Row(hash: Hash, user: User, expires: Time)

  // ---- The two stores ----

  /** `GET`: a key whose time has come is no longer there. */
  function GetKey(redis: map<Hash, Key>, h: Hash, now: Time): Option<User> {
    if h in redis && now < redis[h].expires then Some(redis[h].user) else None
  }

  function SetKey(redis: map<Hash, Key>, h: Hash, user: User, now: Time): map<Hash, Key> {
    redis[h := Key(user, now + MONTH)]
  }

  /** `EXPIRE` does nothing to a key that is not there. */
  function ExpireKey(redis: map<Hash, Key>, h: Hash, now: Time): map<Hash, Key> {
    var user := GetKey(redis, h, now);
    if user.None? then redis else SetKey(redis, h, user.value, now)
  }

  function RowsOfUser(rows: map<nat, Row>, user: User): set<nat> {
    set r | r in rows && rows[r].user == user
  }

  function RowsOfHash(rows: map<nat, Row>, h: Hash): set<nat> {
    set r | r in rows && rows[r].hash == h
  }

  function HashesOfUser(rows: map<nat, Row>, user: User): set<Hash> {
    set r | r in rows && rows[r].user == user :: rows[r].hash
  }

  // ---- Calls in progress ----

  datatype Source = Redis | Postgres

  /** Where a call is: each alternative is the store call, or the look at the clock, it makes next. */
  datatype Process =
    | CreateSet(token: Token, user: User, expires: Time)
    | CreateInsert(token: Token, user: User, expires: Time)
    | ValidateGet(token: Token)
    | ValidateExpire(token: Token, user: User, found: Time)
    | ValidateSelect(token: Token)
    | ValidateCheck(token: Token, id: nat, row: Row)
    | ValidateCleanUp(id: nat)
    | ValidateUser(token: Token, user: User, found: Time, source: Source)
    | DeleteKey(token: Token)
    | DeleteRows(token: Token)
    | DeleteAllQuery(user: User)
    | DeleteAllKeys(user: User, hashes: seq<Hash>)
    | DeleteAllRows(user: User)

  datatype Issue = Issue(user: User, at: Time)

  /** What has happened to a token: a Redis key's expiry was set, or a validation returned a user. */
  datatype Record =
    | Touched(token: Token, at: Time, renewal: bool)
    | Answered(process: nat, token: Token, user: User, found: Time, source: Source)

  datatype World = World(
    now: Time,
    redis: map<Hash, Key>,
    rows: map<nat, Row>,
    nextRow: nat,
    processes: map<nat, Process>,
    nextProcess: nat,
    issued: map<Token, Issue>,
    log: seq<Record>)

  function Initial(): World {
    World(0, map[], map[], 0, map[], 0, map[], [])
  }

  datatype Event =
    | Tick(seconds: nat)
    | BeginCreate(user: User, token: Token)
    | BeginValidate(token: Token)
    | BeginDelete(token: Token)
    | BeginDeleteAll(user: User)
    /**
      The next store call of a process. A query gives one row of the hash, or hashes of the user's rows: all
      of them, or fewer when reading the rows ends early, which the service does not notice.
    */
    | Go(process: nat, outcome: Outcome, row: nat, order: seq<Hash>)

  predicate Possible(w: World, e: Event) {
    match e
    case BeginCreate(user, token) => token !in w.issued
    case Go(process, outcome, row, order) =>
      && process in w.processes
      && (w.processes[process].ValidateSelect? && RowsOfHash(w.rows, Sha256(w.processes[process].token)) != {} ==>
            row in RowsOfHash(w.rows, Sha256(w.processes[process].token)))
      && (w.processes[process].DeleteAllQuery? ==>
            forall h | h in order :: h in HashesOfUser(w.rows, w.processes[process].user))
    case _ => true
  }

  function Begin(w: World, p: Process): World {
    w.(processes := w.processes[w.nextProcess := p], nextProcess := w.nextProcess + 1)
  }

  function Step(w: World, e: Event): World
    requires Possible(w, e)
  {
    match e
    case Tick(seconds) => w.(now := w.now + seconds)
    case BeginCreate(user, token) =>
      Begin(w.(issued := w.issued[token := Issue(user, w.now)]), CreateSet(token, user, w.now + MONTH))
    case BeginValidate(token) => Begin(w, ValidateGet(token))
    case BeginDelete(token) => Begin(w, DeleteKey(token))
    case BeginDeleteAll(user) => Begin(w, DeleteAllQuery(user))
    case Go(process, outcome, row, order) =>
      var (stores, next) := Advance(w, process, w.processes[process], outcome, row, order);
      if next.None? then stores.(processes := stores.processes - {process})
      else stores.(processes := stores.processes[process := next.value])
  }

  /** One store call of a process: what it does to the stores, and where the process is then. */
  function Advance(w: World, process: nat, p: Process, outcome: Outcome, row: nat, order: seq<Hash>): (World, Option<Process>)
  {
    if p.CreateSet? || p.CreateInsert? then AdvanceCreate(w, p, outcome)
    else if p.DeleteKey? || p.DeleteRows? then AdvanceDelete(w, p, outcome)
    else if p.DeleteAllQuery? || p.DeleteAllKeys? || p.DeleteAllRows? then AdvanceDeleteAll(w, p, outcome, order)
    else AdvanceValidate(w, process, p, outcome, row)
  }

  function AdvanceCreate(w: World, p: Process, outcome: Outcome): (World, Option<Process>)
    requires p.CreateSet? || p.CreateInsert?
  {
    if p.CreateSet? then
      var stored := w.(redis := SetKey(w.redis, Sha256(p.token), p.user, w.now),
                    log := w.log + [Touched(p.token, w.now, false)]);
      (if outcome.Failed? then w else stored,
       if outcome.Done? then None else Some(CreateInsert(p.token, p.user, p.expires)))
    else
      var inserted := w.(rows := w.rows[w.nextRow := Row(Sha256(p.token), p.user, p.expires)], nextRow := w.nextRow + 1);
      (if outcome.Failed? then w else inserted, None)
  }

  function AdvanceValidate(w: World, process: nat, p: Process, outcome: Outcome, row: nat): (World, Option<Process>)
  {
    match p
    case ValidateGet(token) =>
      var user := GetKey(w.redis, Sha256(token), w.now);
      (w, Some(if outcome.Done? && user.Some? then ValidateExpire(token, user.value, w.now) else ValidateSelect(token)))
    case ValidateExpire(token, user, found) =>
      var live := GetKey(w.redis, Sha256(token), w.now).Some?;
      var expired := w.(redis := ExpireKey(w.redis, Sha256(token), w.now),
                        log := if live then w.log + [Touched(token, w.now, true)] else w.log);
      (if outcome.Failed? then w else expired, Some(ValidateUser(token, user, found, Redis)))
    case ValidateSelect(token) =>
      if !outcome.Done? || row !in RowsOfHash(w.rows, Sha256(token)) then (w, None)
      else (w, Some(ValidateCheck(token, row, w.rows[row])))
    case ValidateCheck(token, id, row) =>
      (w, Some(if w.now > row.expires then ValidateCleanUp(id) else ValidateUser(token, row.user, w.now, Postgres)))
    case ValidateCleanUp(id) => (if outcome.Failed? then w else w.(rows := w.rows - {id}), None)
    case ValidateUser(token, user, found, source) =>
      (if outcome.Done? then w.(log := w.log + [Answered(process, token, user, found, source)]) else w, None)
    case _ => (w, None)
  }

  function AdvanceDelete(w: World, p: Process, outcome: Outcome): (World, Option<Process>)
    requires p.DeleteKey? || p.DeleteRows?
  {
    if p.DeleteKey? then
      (if outcome.Failed? then w else w.(redis := w.redis - {Sha256(p.token)}), Some(DeleteRows(p.token)))
    else
      (if outcome.Failed? then w else w.(rows := w.rows - RowsOfHash(w.rows, Sha256(p.token))), None)
  }

  function AdvanceDeleteAll(w: World, p: Process, outcome: Outcome, order: seq<Hash>): (World, Option<Process>)
    requires p.DeleteAllQuery? || p.DeleteAllKeys? || p.DeleteAllRows?
  {
    if p.DeleteAllQuery? then (w, if outcome.Done? then Some(DeleteAllKeys(p.user, order)) else None)
    else if p.DeleteAllKeys? && p.hashes == [] then (w, Some(DeleteAllRows(p.user)))
    else if p.DeleteAllKeys? then
      (if outcome.Failed? then w else w.(redis := w.redis - {p.hashes[0]}), Some(DeleteAllKeys(p.user, p.hashes[1..])))
    else (if outcome.Failed? then w else w.(rows := w.rows - RowsOfUser(w.rows, p.user)), None)
  }

  function Run(w: World, events: seq<Event>): Option<World>
    decreases |events|
  {
    if events == [] then Some(w)
    else if !Possible(w, events[0]) then None
    else Run(Step(w, events[0]), events[1..])
  }
}
