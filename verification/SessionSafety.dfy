/** What holds of the two session stores in every run. */
module SessionSafety {
  import opened Options
  import opened Sessions
  import opened Stores

  // ---- Whose session it is, and since when ----

  predicate Owned(issued: map<Token, Issue>, token: Token, user: User) {
    token in issued && issued[token].user == user
  }

  /** An expiry that was set less than a month before the given time. */
  predicate Keeps(r: Record, token: Token, time: Time) {
    r.Touched? && r.token == token && r.at <= time < r.at + MONTH
  }

  ghost predicate Recent(log: seq<Record>, token: Token, time: Time) {
    exists j :: 0 <= j < |log| && Keeps(log[j], token, time)
  }

  predicate Sets(r: Record, token: Token, expires: Time) {
    r.Touched? && r.token == token && r.at + MONTH == expires
  }

  ghost predicate Backed(log: seq<Record>, token: Token, expires: Time) {
    exists j :: 0 <= j < |log| && Sets(log[j], token, expires)
  }

  /**
    A record is justified by the ones before it: an answer names the user the token was issued to; an
    answer from Redis, or a renewed expiry, follows an expiry set less than a month earlier; an answer
    from Postgres comes at most a month after the token was issued.
  */
  ghost predicate Justified(before: seq<Record>, r: Record, issued: map<Token, Issue>) {
    && r.token in issued
    && match r
       case Touched(token, at, renewal) => if renewal then Recent(before, token, at) else issued[token].at <= at
       case Answered(process, token, user, found, source) =>
         && issued[token].user == user
         && if source.Redis? then Recent(before, token, found) else found <= issued[token].at + MONTH
  }

  ghost predicate LogOk(log: seq<Record>, issued: map<Token, Issue>) {
    forall k :: 0 <= k < |log| ==> Justified(log[..k], log[k], issued)
  }

  ghost predicate KeyOk(w: World, h: Hash)
    requires h in w.redis
  {
    Owned(w.issued, h.token, w.redis[h].user) && Backed(w.log, h.token, w.redis[h].expires)
  }

  predicate RowOk(issued: map<Token, Issue>, row: Row) {
    Owned(issued, row.hash.token, row.user) && row.expires == issued[row.hash.token].at + MONTH
  }

  ghost predicate ProcessOk(w: World, p: Process) {
    match p
    case CreateSet(token, user, expires) => RowOk(w.issued, Row(Sha256(token), user, expires))
    case CreateInsert(token, user, expires) => RowOk(w.issued, Row(Sha256(token), user, expires))
    case ValidateExpire(token, user, found) => Owned(w.issued, token, user) && Recent(w.log, token, found)
    case ValidateCheck(token, id, row) => RowOk(w.issued, row) && row.hash == Sha256(token)
    case ValidateUser(token, user, found, source) =>
      && Owned(w.issued, token, user)
      && if source.Redis? then Recent(w.log, token, found) else found <= w.issued[token].at + MONTH
    case DeleteAllKeys(user, hashes) => forall h | h in hashes :: Owned(w.issued, h.token, user)
    case _ => true
  }

  ghost predicate StoresOk(w: World) {
    && (forall h | h in w.redis :: KeyOk(w, h))
    && (forall id | id in w.rows :: RowOk(w.issued, w.rows[id]))
  }

  ghost predicate PastOk(w: World) {
    && (forall token | token in w.issued :: w.issued[token].at <= w.now)
    && (forall j | 0 <= j < |w.log| :: w.log[j].Touched? ==> w.log[j].at <= w.now)
  }

  ghost predicate ProcessesOk(w: World) {
    forall p | p in w.processes :: ProcessOk(w, w.processes[p])
  }

  ghost predicate Valid(w: World) {
    StoresOk(w) && LogOk(w.log, w.issued) && PastOk(w) && ProcessesOk(w)
  }

  // ---- Growing the record keeps what it says ----

  /** What changes in any step: more tokens, at most one more record, a later time. */
  ghost predicate Grows(w: World, v: World) {
    && (forall token | token in w.issued :: token in v.issued && v.issued[token] == w.issued[token])
    && w.log <= v.log && w.now <= v.now
  }

  lemma RecentGrows(log: seq<Record>, more: seq<Record>, token: Token, time: Time)
    requires log <= more && Recent(log, token, time)
    ensures Recent(more, token, time)
  {
    var j :| 0 <= j < |log| && Keeps(log[j], token, time);
    assert Keeps(more[j], token, time);
  }

  lemma BackedGrows(log: seq<Record>, more: seq<Record>, token: Token, expires: Time)
    requires log <= more && Backed(log, token, expires)
    ensures Backed(more, token, expires)
  {
    var j :| 0 <= j < |log| && Sets(log[j], token, expires);
    assert Sets(more[j], token, expires);
  }

  lemma ProcessStaysOk(w: World, v: World, p: Process)
    requires Grows(w, v) && ProcessOk(w, p)
    ensures ProcessOk(v, p)
  {
    if p.ValidateExpire? || (p.ValidateUser? && p.source.Redis?) {
      RecentGrows(w.log, v.log, p.token, p.found);
    }
  }

  lemma RecordAdded(log: seq<Record>, r: Record, issued: map<Token, Issue>)
    requires LogOk(log, issued) && Justified(log, r, issued)
    ensures LogOk(log + [r], issued)
  {
    forall k | 0 <= k < |log + [r]|
      ensures Justified((log + [r])[..k], (log + [r])[k], issued)
    {
      assert (log + [r])[..k] == log[..k];
      assert log[..|log|] == log;
    }
  }

  lemma TokenAdded(log: seq<Record>, issued: map<Token, Issue>, more: map<Token, Issue>)
    requires LogOk(log, issued) && forall token | token in issued :: token in more && more[token] == issued[token]
    ensures LogOk(log, more)
  {
    forall k | 0 <= k < |log|
      ensures Justified(log[..k], log[k], more)
    {
      assert Justified(log[..k], log[k], issued);
    }
  }

  /** Keys and rows that are still there stay justified. */
  lemma StoresStayOk(w: World, v: World)
    requires StoresOk(w) && Grows(w, v)
    requires forall h | h in v.redis :: (h in w.redis && v.redis[h] == w.redis[h]) || KeyOk(v, h)
    requires forall id | id in v.rows :: (id in w.rows && v.rows[id] == w.rows[id]) || RowOk(v.issued, v.rows[id])
    ensures StoresOk(v)
  {
    forall h | h in v.redis
      ensures KeyOk(v, h)
    {
      if h in w.redis && v.redis[h] == w.redis[h] {
        assert KeyOk(w, h);
        BackedGrows(w.log, v.log, h.token, w.redis[h].expires);
      }
    }
  }

  // ---- Each store call ----

  /** A key that is still there was touched less than a month ago, by the token's owner. */
  lemma LiveKey(w: World, token: Token)
    requires Valid(w) && GetKey(w.redis, Sha256(token), w.now).Some?
    ensures Owned(w.issued, token, GetKey(w.redis, Sha256(token), w.now).value) && Recent(w.log, token, w.now)
  {
    var h := Sha256(token);
    assert KeyOk(w, h);
    var j :| 0 <= j < |w.log| && Sets(w.log[j], token, w.redis[h].expires);
    assert Keeps(w.log[j], token, w.now);
  }

  /** A new expiry for a token's key, and the record of it. */
  lemma KeyTouched(w: World, token: Token, user: User, renewal: bool)
    requires Valid(w) && Owned(w.issued, token, user) && (renewal ==> Recent(w.log, token, w.now))
    ensures var v := w.(redis := SetKey(w.redis, Sha256(token), user, w.now), log := w.log + [Touched(token, w.now, renewal)]);
            Grows(w, v) && StoresOk(v) && LogOk(v.log, v.issued) && PastOk(v)
  {
    var r := Touched(token, w.now, renewal);
    var v := w.(redis := SetKey(w.redis, Sha256(token), user, w.now), log := w.log + [r]);
    RecordAdded(w.log, r, w.issued);
    assert v.log[|w.log|] == r && Sets(r, token, w.now + MONTH);
    StoresStayOk(w, v);
  }

  /** What every step has to keep, for a process that goes on as `next`. */
  ghost predicate Sound(w: World, v: World, next: Option<Process>) {
    && Grows(w, v) && v.processes == w.processes && StoresOk(v) && LogOk(v.log, v.issued) && PastOk(v)
    && (next.Some? ==> ProcessOk(v, next.value))
  }

  lemma CreateIsSound(w: World, p: Process, outcome: Outcome)
    requires Valid(w) && ProcessOk(w, p) && (p.CreateSet? || p.CreateInsert?)
    ensures var (v, next) := AdvanceCreate(w, p, outcome); Sound(w, v, next)
  {
    if !outcome.Failed? {
      var v := AdvanceCreate(w, p, outcome).0;
      if p.CreateSet? {
        KeyTouched(w, p.token, p.user, false);
      } else {
        StoresStayOk(w, v);
      }
    }
  }

  lemma ValidateIsSound(w: World, id: nat, p: Process, outcome: Outcome, row: nat)
    requires Valid(w) && ProcessOk(w, p)
    ensures var (v, next) := AdvanceValidate(w, id, p, outcome, row); Sound(w, v, next)
  {
    if p.ValidateGet? && GetKey(w.redis, Sha256(p.token), w.now).Some? {
      LiveKey(w, p.token);
    } else if p.ValidateExpire? {
      ExpireIsSound(w, p, outcome);
    } else if p.ValidateSelect? && row in RowsOfHash(w.rows, Sha256(p.token)) {
      assert RowOk(w.issued, w.rows[row]);
    } else if p.ValidateCleanUp? {
      StoresStayOk(w, w.(rows := w.rows - {p.id}));
    } else if p.ValidateUser? {
      var r := Answered(id, p.token, p.user, p.found, p.source);
      RecordAdded(w.log, r, w.issued);
      StoresStayOk(w, w.(log := w.log + [r]));
    }
  }

  lemma ExpireIsSound(w: World, p: Process, outcome: Outcome)
    requires Valid(w) && ProcessOk(w, p) && p.ValidateExpire?
    ensures var (v, next) := AdvanceValidate(w, 0, p, outcome, 0); Sound(w, v, next)
  {
    var user := GetKey(w.redis, Sha256(p.token), w.now);
    if user.Some? {
      LiveKey(w, p.token);
      KeyTouched(w, p.token, user.value, true);
    }
    var v := AdvanceValidate(w, 0, p, outcome, 0).0;
    ProcessStaysOk(w, v, p);
  }

  lemma DeleteIsSound(w: World, p: Process, outcome: Outcome)
    requires Valid(w) && (p.DeleteKey? || p.DeleteRows?)
    ensures var (v, next) := AdvanceDelete(w, p, outcome); Sound(w, v, next)
  {
    StoresStayOk(w, AdvanceDelete(w, p, outcome).0);
  }

  lemma DeleteAllIsSound(w: World, p: Process, outcome: Outcome, order: seq<Hash>)
    requires Valid(w) && ProcessOk(w, p) && (p.DeleteAllQuery? || p.DeleteAllKeys? || p.DeleteAllRows?)
    requires p.DeleteAllQuery? ==> forall h | h in order :: h in HashesOfUser(w.rows, p.user)
    ensures var (v, next) := AdvanceDeleteAll(w, p, outcome, order); Sound(w, v, next)
  {
    if p.DeleteAllQuery? {
      forall h | h in order
        ensures Owned(w.issued, h.token, p.user)
      {
        assert h in HashesOfUser(w.rows, p.user);
        var id :| id in w.rows && w.rows[id].user == p.user && w.rows[id].hash == h;
        assert RowOk(w.issued, w.rows[id]);
      }
    } else {
      StoresStayOk(w, AdvanceDeleteAll(w, p, outcome, order).0);
    }
  }

  lemma AdvanceIsSound(w: World, id: nat, p: Process, outcome: Outcome, row: nat, order: seq<Hash>)
    requires Valid(w) && ProcessOk(w, p)
    requires p.DeleteAllQuery? ==> forall h | h in order :: h in HashesOfUser(w.rows, p.user)
    ensures var (v, next) := Advance(w, id, p, outcome, row, order); Sound(w, v, next)
  {
    if p.CreateSet? || p.CreateInsert? {
      CreateIsSound(w, p, outcome);
    } else if p.DeleteKey? || p.DeleteRows? {
      DeleteIsSound(w, p, outcome);
    } else if p.DeleteAllQuery? || p.DeleteAllKeys? || p.DeleteAllRows? {
      DeleteAllIsSound(w, p, outcome, order);
    } else {
      ValidateIsSound(w, id, p, outcome, row);
    }
  }

  // ---- Every step, every run ----

  lemma ProcessesStayOk(w: World, v: World, id: nat)
    requires ProcessesOk(w) && Grows(w, v)
    requires forall p | p in v.processes :: (p in w.processes && v.processes[p] == w.processes[p]) || p == id
    requires id in v.processes ==> ProcessOk(v, v.processes[id])
    ensures ProcessesOk(v)
  {
    forall p | p in v.processes
      ensures ProcessOk(v, v.processes[p])
    {
      if p != id {
        ProcessStaysOk(w, v, w.processes[p]);
      }
    }
  }

  lemma StepIsValid(w: World, e: Event)
    requires Valid(w) && Possible(w, e)
    ensures Valid(Step(w, e))
  {
    var v := Step(w, e);
    if e.Go? {
      var p := w.processes[e.process];
      AdvanceIsSound(w, e.process, p, e.outcome, e.row, e.order);
      var (stores, next) := Advance(w, e.process, p, e.outcome, e.row, e.order);
      SameButProcesses(stores, v);
      if next.Some? {
        SameProcess(stores, v, next.value);
      }
      ProcessesStayOk(w, v, e.process);
    } else {
      if e.BeginCreate? {
        TokenAdded(w.log, w.issued, v.issued);
      }
      StoresStayOk(w, v);
      ProcessesStayOk(w, v, w.nextProcess);
    }
  }

  lemma SameButProcesses(w: World, v: World)
    requires StoresOk(w) && LogOk(w.log, w.issued) && PastOk(w) && v == w.(processes := v.processes)
    ensures StoresOk(v) && LogOk(v.log, v.issued) && PastOk(v)
  {
    forall h | h in v.redis
      ensures KeyOk(v, h)
    {
      assert KeyOk(w, h);
    }
  }

  lemma SameProcess(w: World, v: World, p: Process)
    requires ProcessOk(w, p) && v == w.(processes := v.processes)
    ensures ProcessOk(v, p)
  {}

  lemma {:induction false} RunIsValid(w: World, events: seq<Event>)
    requires Valid(w) && Run(w, events).Some?
    ensures Valid(Run(w, events).value)
    decreases |events|
  {
    if events != [] {
      StepIsValid(w, events[0]);
      RunIsValid(Step(w, events[0]), events[1..]);
    }
  }
}
