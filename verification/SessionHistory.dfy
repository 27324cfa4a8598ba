/** What whole runs of session calls guarantee: identity, expiry, and deletion. */
module SessionHistory {
  import opened Options
  import opened Sessions
  import opened SessionSafety
  import opened Stores

  // ---- Identity ----

  /** A validation returns only the user its token was issued to. */
  lemma ValidatesToOwner(events: seq<Event>, k: nat)
    requires Run(Initial(), events).Some?
    requires k < |Run(Initial(), events).value.log| && Run(Initial(), events).value.log[k].Answered?
    ensures var w := Run(Initial(), events).value; Owned(w.issued, w.log[k].token, w.log[k].user)
  {
    RunIsValid(Initial(), events);
    var w := Run(Initial(), events).value;
    assert Justified(w.log[..k], w.log[k], w.issued);
  }

  /** Whenever both stores hold a token, they hold it for the same user. */
  lemma StoresAgree(events: seq<Event>, h: Hash, id: nat)
    requires Run(Initial(), events).Some?
    requires var w := Run(Initial(), events).value; h in w.redis && id in w.rows && w.rows[id].hash == h
    ensures var w := Run(Initial(), events).value; w.redis[h].user == w.rows[id].user
  {
    RunIsValid(Initial(), events);
    var w := Run(Initial(), events).value;
    assert KeyOk(w, h) && RowOk(w.issued, w.rows[id]);
  }

  // ---- Expiry ----

  /**
    Going back from `time`, the token's expiry was set less than a month before, and each renewal
    less than a month after an earlier setting, down to the one at the token's creation.
  */
  ghost predicate AliveSinceCreation(log: seq<Record>, token: Token, time: Time)
    decreases |log|
  {
    exists j :: 0 <= j < |log| && Keeps(log[j], token, time) &&
      (log[j].renewal ==> AliveSinceCreation(log[..j], token, log[j].at))
  }

  lemma {:induction false} RecentIsAlive(log: seq<Record>, issued: map<Token, Issue>, token: Token, time: Time)
    requires LogOk(log, issued) && Recent(log, token, time)
    ensures AliveSinceCreation(log, token, time)
    decreases |log|
  {
    var j :| 0 <= j < |log| && Keeps(log[j], token, time);
    if log[j].renewal {
      assert Justified(log[..j], log[j], issued);
      Prefix(log, j, issued);
      RecentIsAlive(log[..j], issued, token, log[j].at);
    }
  }

  lemma Prefix(log: seq<Record>, n: nat, issued: map<Token, Issue>)
    requires n <= |log| && LogOk(log, issued)
    ensures LogOk(log[..n], issued)
  {
    forall k | 0 <= k < n
      ensures Justified(log[..n][..k], log[..n][k], issued)
    {
      assert Justified(log[..k], log[k], issued);
      assert log[..n][..k] == log[..k];
    }
  }

  /**
    An answer from Redis follows an unbroken chain of expiries back to the token's creation; an answer
    from Postgres comes at most a month after it.
  */
  lemma AnswersAreTimely(events: seq<Event>, k: nat)
    requires Run(Initial(), events).Some?
    requires k < |Run(Initial(), events).value.log| && Run(Initial(), events).value.log[k].Answered?
    ensures var w := Run(Initial(), events).value;
            var r := w.log[k];
            if r.source.Redis? then AliveSinceCreation(w.log[..k], r.token, r.found)
            else r.token in w.issued && r.found <= w.issued[r.token].at + MONTH
  {
    RunIsValid(Initial(), events);
    var w := Run(Initial(), events).value;
    assert Justified(w.log[..k], w.log[k], w.issued);
    if w.log[k].source.Redis? {
      Prefix(w.log, k, w.issued);
      RecentIsAlive(w.log[..k], w.issued, w.log[k].token, w.log[k].found);
    }
  }

  // ---- Answers ----

  /** None of the events is a store call of the process. */
  predicate Without(events: seq<Event>, id: nat) {
    forall e | e in events :: !(e.Go? && e.process == id)
  }

  lemma {:induction false} Waits(w: World, events: seq<Event>, id: nat)
    requires NumbersBelow(w) && id in w.processes && Run(w, events).Some? && Without(events, id)
    ensures var v := Run(w, events).value;
            NumbersBelow(v) && id in v.processes && v.processes[id] == w.processes[id]
    decreases |events|
  {
    if events != [] {
      var e := events[0];
      NumbersStep(w, e);
      NextProcessGrows(w, e);
      assert !(e.Go? && e.process == id);
      hide Step;
      Waits(Step(w, e), events[1..], id);
    }
  }

  /** A waiting process takes its next step: where it is after it and after the other events that follow. */
  lemma StepsAndWaits(w: World, id: nat, outcome: Outcome, row: nat, others: seq<Event>, v: World)
    requires NumbersBelow(w) && id in w.processes && Without(others, id)
    requires Run(w, [Go(id, outcome, row, [])] + others) == Some(v)
    ensures var e := Go(id, outcome, row, []);
            var next := Advance(w, id, w.processes[id], outcome, row, []).1;
            && Possible(w, e) && NumbersBelow(v)
            && (next.Some? ==> id in v.processes && v.processes[id] == next.value)
  {
    hide Advance, NumbersBelow, Without;
    var e := Go(id, outcome, row, []);
    assert ([e] + others)[0] == e && ([e] + others)[1..] == others;
    assert Run(w, [e] + others) == Run(Step(w, e), others);
    hide Run;
    NumbersStep(w, e);
    var next := Advance(w, id, w.processes[id], outcome, row, []).1;
    if next.Some? {
      Waits(Step(w, e), others, id);
    } else {
      NumbersRun(Step(w, e), others);
    }
  }

  /**
    A session is answered: a validation that finds a live key returns its user if the account can be read at
    the end, whatever other calls do in between and however the renewal of the key ends; and the renewal, if it
    takes effect on a key still there, keeps the key for another 30 days.
  */
  lemma LiveSessionIsAnswered(before: seq<Event>, w: World, id: nat, token: Token, user: User, first: seq<Event>,
                              u: World, renewal: Outcome, second: seq<Event>, v: World)
    requires Run(Initial(), before) == Some(w)
    requires id in w.processes && w.processes[id] == ValidateGet(token)
    requires GetKey(w.redis, Sha256(token), w.now) == Some(user)
    requires Without(first, id) && Run(w, [Go(id, Done, 0, [])] + first) == Some(u)
    requires Without(second, id) && Run(u, [Go(id, renewal, 0, [])] + second) == Some(v)
    ensures var e := Go(id, Done, 0, []);
            Possible(v, e) && Step(v, e).log == v.log + [Answered(id, token, user, w.now, Redis)]
    ensures var e := Go(id, renewal, 0, []);
            && Possible(u, e)
            && (!renewal.Failed? && GetKey(u.redis, Sha256(token), u.now).Some? ==>
                  var redis := Step(u, e).redis;
                  Sha256(token) in redis && redis[Sha256(token)].expires == u.now + 30 * 24 * 3600)
  {
    hide Run, Without;
    NumbersRun(Initial(), before);
    StepsAndWaits(w, id, Done, 0, first, u);
    StepsAndWaits(u, id, renewal, 0, second, v);
  }

  /** The same without a live key: the row the query gives is answered if it is in time and the account can be read. */
  lemma RowInTimeIsAnswered(before: seq<Event>, w: World, id: nat, token: Token, row: nat, first: seq<Event>,
                            u: World, second: seq<Event>, v: World)
    requires Run(Initial(), before) == Some(w)
    requires id in w.processes && w.processes[id] == ValidateSelect(token)
    requires row in w.rows && w.rows[row].hash == Sha256(token)
    requires Without(first, id) && Run(w, [Go(id, Done, row, [])] + first) == Some(u)
    requires u.now <= w.rows[row].expires
    requires Without(second, id) && Run(u, [Go(id, Done, 0, [])] + second) == Some(v)
    ensures var e := Go(id, Done, 0, []);
            && Possible(v, e)
            && Step(v, e).log == v.log + [Answered(id, token, w.rows[row].user, u.now, Postgres)]
  {
    hide Run, Without;
    NumbersRun(Initial(), before);
    StepsAndWaits(w, id, Done, row, first, u);
    StepsAndWaits(u, id, Done, 0, second, v);
  }

  // ---- Deletion ----

  predicate Creates(p: Process, token: Token) {
    (p.CreateSet? || p.CreateInsert?) && p.token == token
  }

  /** The call that creates the token is over, so nothing will store it again. */
  predicate Settled(w: World, token: Token) {
    token in w.issued && forall p | p in w.processes :: !Creates(w.processes[p], token)
  }

  predicate NoKey(w: World, token: Token) {
    Settled(w, token) && GetKey(w.redis, Sha256(token), w.now).None?
  }

  predicate NoRow(w: World, token: Token) {
    Settled(w, token) && forall id | id in w.rows :: w.rows[id].hash != Sha256(token)
  }

  /** No process that began at `first` or later has found the token in a store. */
  predicate NotFoundSince(w: World, token: Token, first: nat) {
    forall p | p in w.processes && p >= first ::
      var q := w.processes[p];
      (q.ValidateExpire? || q.ValidateCheck? || q.ValidateUser?) ==> q.token != token
  }

  predicate Dead(w: World, token: Token) {
    NoKey(w, token) && NoRow(w, token)
  }

  /** What no store call changes, and that none begins to create a token. */
  lemma AdvanceKeeps(w: World, id: nat, p: Process, outcome: Outcome, row: nat, order: seq<Hash>)
    ensures var (v, next) := Advance(w, id, p, outcome, row, order);
            && v.processes == w.processes && v.nextProcess == w.nextProcess && v.issued == w.issued && v.now == w.now
            && w.log <= v.log
            && (next.Some? ==> forall t :: Creates(next.value, t) ==> Creates(p, t))
  {
    hide GetKey, SetKey, ExpireKey, RowsOfHash, RowsOfUser;
  }

  /** After a store call its process creates a token only if it did so before, and the others are as they were. */
  lemma GoneOn(w: World, e: Event, token: Token)
    requires Possible(w, e) && e.Go?
    ensures Step(w, e).issued == w.issued
    ensures forall p | p in Step(w, e).processes && Creates(Step(w, e).processes[p], token) ::
              p in w.processes && Creates(w.processes[p], token)
  {
    hide Advance;
    AdvanceKeeps(w, e.process, w.processes[e.process], e.outcome, e.row, e.order);
    var (stores, next) := Advance(w, e.process, w.processes[e.process], e.outcome, e.row, e.order);
    if next.Some? {
      assert Creates(next.value, token) ==> Creates(w.processes[e.process], token);
    }
  }

  lemma StaysSettled(w: World, e: Event, token: Token)
    requires Settled(w, token) && Possible(w, e)
    ensures Settled(Step(w, e), token)
  {
    hide Advance;
    if e.Go? {
      GoneOn(w, e, token);
    }
  }

  /** In particular the `EXPIRE` of a validation under way cannot bring a missing key back. */
  lemma StaysWithoutKey(w: World, e: Event, token: Token)
    requires NoKey(w, token) && Possible(w, e)
    ensures NoKey(Step(w, e), token)
  {
    StaysSettled(w, e, token);
    if e.Go? {
      var p := w.processes[e.process];
      assert !Creates(p, token);
      LeavesNoKey(w, e.process, p, e.outcome, e.row, e.order, token);
    }
    hide Advance, Settled, Creates;
  }

  lemma LeavesNoKey(w: World, id: nat, p: Process, outcome: Outcome, row: nat, order: seq<Hash>, token: Token)
    requires GetKey(w.redis, Sha256(token), w.now).None? && !Creates(p, token)
    ensures var v := Advance(w, id, p, outcome, row, order).0; GetKey(v.redis, Sha256(token), v.now).None?
  {
    hide RowsOfHash, RowsOfUser;
  }

  lemma StaysWithoutRow(w: World, e: Event, token: Token)
    requires NoRow(w, token) && Possible(w, e)
    ensures NoRow(Step(w, e), token)
  {
    StaysSettled(w, e, token);
    if e.Go? {
      var p := w.processes[e.process];
      assert !Creates(p, token);
      LeavesNoRow(w, e.process, p, e.outcome, e.row, e.order, token);
    }
    hide Advance, Settled, Creates;
  }

  lemma LeavesNoRow(w: World, id: nat, p: Process, outcome: Outcome, row: nat, order: seq<Hash>, token: Token)
    requires (forall r | r in w.rows :: w.rows[r].hash != Sha256(token)) && !Creates(p, token)
    ensures var v := Advance(w, id, p, outcome, row, order).0; forall r | r in v.rows :: v.rows[r].hash != Sha256(token)
  {
    hide GetKey, SetKey, ExpireKey;
  }

  lemma {:induction false} RunStaysWithoutKey(w: World, events: seq<Event>, token: Token)
    requires NoKey(w, token) && Run(w, events).Some?
    ensures NoKey(Run(w, events).value, token)
    decreases |events|
  {
    hide NoKey, Step;
    if events != [] {
      StaysWithoutKey(w, events[0], token);
      RunStaysWithoutKey(Step(w, events[0]), events[1..], token);
    }
  }

  /** A `DeleteSession` whose two deletions took effect, whatever happened in between. */
  lemma DeletedFromBoth(w: World, id: nat, token: Token, first: Outcome, between: seq<Event>, second: Outcome)
    requires Settled(w, token) && id in w.processes && w.processes[id] == DeleteKey(token)
    requires !first.Failed? && !second.Failed?
    requires var v := Run(Step(w, Go(id, first, 0, [])), between);
             v.Some? && id in v.value.processes && v.value.processes[id] == DeleteRows(token)
    ensures var v := Run(Step(w, Go(id, first, 0, [])), between).value;
            Dead(Step(v, Go(id, second, 0, [])), token)
  {
    var u := Step(w, Go(id, first, 0, []));
    StaysSettled(w, Go(id, first, 0, []), token);
    assert u.redis == w.redis - {Sha256(token)};
    RunStaysWithoutKey(u, between, token);
    var v := Run(u, between).value;
    var e := Go(id, second, 0, []);
    StaysWithoutKey(v, e, token);
    assert Step(v, e).rows == v.rows - RowsOfHash(v.rows, Sha256(token));
    forall r | r in Step(v, e).rows
      ensures Step(v, e).rows[r].hash != Sha256(token)
    {
      assert r !in RowsOfHash(v.rows, Sha256(token));
    }
  }

  /** One step after the deletion: nothing finds the token, unless it had found it before. */
  lemma StaysDead(w: World, e: Event, token: Token, first: nat)
    requires Dead(w, token) && NotFoundSince(w, token, first) && first <= w.nextProcess && Possible(w, e)
    ensures var v := Step(w, e);
            && Dead(v, token) && NotFoundSince(v, token, first) && first <= v.nextProcess && |w.log| <= |v.log|
            && forall k | |w.log| <= k < |v.log| ::
                 v.log[k].Answered? && v.log[k].token == token ==> v.log[k].process < first
  {
    StaysWithoutKey(w, e, token);
    StaysWithoutRow(w, e, token);
    if e.Go? {
      AdvanceWhenDead(w, e.process, w.processes[e.process], e.outcome, e.row, e.order, token, first);
    }
  }

  lemma AdvanceWhenDead(w: World, id: nat, p: Process, outcome: Outcome, row: nat, order: seq<Hash>,
                        token: Token, first: nat)
    requires Dead(w, token)
    requires id >= first && (p.ValidateExpire? || p.ValidateCheck? || p.ValidateUser?) ==> p.token != token
    ensures var (v, next) := Advance(w, id, p, outcome, row, order);
            && v.processes == w.processes && v.nextProcess == w.nextProcess
            && (id >= first && next.Some? ==>
                  (next.value.ValidateExpire? || next.value.ValidateCheck? || next.value.ValidateUser?) ==>
                  next.value.token != token)
            && |w.log| <= |v.log|
            && forall k | |w.log| <= k < |v.log| ::
                 v.log[k].Answered? && v.log[k].token == token ==> v.log[k].process < first
  {
    if p.ValidateSelect? && p.token == token {
      assert RowsOfHash(w.rows, Sha256(token)) == {};
    }
  }

  /** Once a token is dead, only a validation that was under way by then can still return its user. */
  lemma {:induction false} DeadForGood(w: World, token: Token, first: nat, events: seq<Event>, k: nat)
    requires Dead(w, token) && NotFoundSince(w, token, first) && first <= w.nextProcess && Run(w, events).Some?
    requires |w.log| <= k < |Run(w, events).value.log|
    ensures var r := Run(w, events).value.log[k]; r.Answered? && r.token == token ==> r.process < first
    decreases |events|
  {
    hide Step, Dead, NotFoundSince;
    if events != [] {
      StaysDead(w, events[0], token, first);
      var v := Step(w, events[0]);
      if |v.log| <= k {
        DeadForGood(v, token, first, events[1..], k);
      } else {
        RunExtendsLog(v, events[1..]);
      }
    }
  }

  lemma {:induction false} RunExtendsLog(w: World, events: seq<Event>)
    requires Run(w, events).Some?
    ensures w.log <= Run(w, events).value.log
    decreases |events|
  {
    if events != [] {
      LogGrows(w, events[0]);
      hide Step;
      RunExtendsLog(Step(w, events[0]), events[1..]);
    }
  }

  lemma LogGrows(w: World, e: Event)
    requires Possible(w, e)
    ensures w.log <= Step(w, e).log
  {
    hide Advance;
    if e.Go? {
      AdvanceKeeps(w, e.process, w.processes[e.process], e.outcome, e.row, e.order);
    }
  }

  /**
    A `DeleteSession` that took effect in both stores, in any run: no validation that starts after it
    returns a user for the token.
  */
  lemma DeletedStaysDeleted(before: seq<Event>, id: nat, token: Token, first: Outcome, between: seq<Event>,
                            second: Outcome, after: seq<Event>, k: nat)
    requires Run(Initial(), before).Some?
    requires var w := Run(Initial(), before).value;
             && Settled(w, token) && id in w.processes && w.processes[id] == DeleteKey(token)
             && !first.Failed? && !second.Failed?
             && var v := Run(Step(w, Go(id, first, 0, [])), between);
                && v.Some? && id in v.value.processes && v.value.processes[id] == DeleteRows(token)
                && var u := Step(v.value, Go(id, second, 0, []));
                   Run(u, after).Some? && |u.log| <= k < |Run(u, after).value.log|
    ensures var w := Run(Initial(), before).value;
            var v := Run(Step(w, Go(id, first, 0, [])), between).value;
            var u := Step(v, Go(id, second, 0, []));
            var r := Run(u, after).value.log[k];
            r.Answered? && r.token == token ==> r.process < u.nextProcess
  {
    var w := Run(Initial(), before).value;
    DeletedFromBoth(w, id, token, first, between, second);
    var v := Run(Step(w, Go(id, first, 0, [])), between).value;
    var u := Step(v, Go(id, second, 0, []));
    NumbersRun(Initial(), before);
    assert NumbersBelow(Step(w, Go(id, first, 0, [])));
    NumbersRun(Step(w, Go(id, first, 0, [])), between);
    assert NumbersBelow(u);
    DeadForGood(u, token, u.nextProcess, after, k);
  }

  predicate NumbersBelow(w: World) {
    forall p | p in w.processes :: p < w.nextProcess
  }

  lemma NumbersStep(w: World, e: Event)
    requires NumbersBelow(w) && Possible(w, e)
    ensures NumbersBelow(Step(w, e))
  {
    hide Advance;
    if e.Go? {
      AdvanceKeeps(w, e.process, w.processes[e.process], e.outcome, e.row, e.order);
    }
  }

  lemma {:induction false} NumbersRun(w: World, events: seq<Event>)
    requires NumbersBelow(w) && Run(w, events).Some?
    ensures NumbersBelow(Run(w, events).value)
    decreases |events|
  {
    hide NumbersBelow, Step;
    if events != [] {
      NumbersStep(w, events[0]);
      NumbersRun(Step(w, events[0]), events[1..]);
    }
  }

  // ---- Deleting all of a user's sessions, among other calls ----

  /** Every store call of a `DeleteAllUserSessions` leaves the keys and rows of all other users alone. */
  lemma DeleteAllSparesOthers(events: seq<Event>, id: nat, outcome: Outcome, order: seq<Hash>)
    requires Run(Initial(), events).Some?
    requires var w := Run(Initial(), events).value;
             && id in w.processes && Possible(w, Go(id, outcome, 0, order))
             && (w.processes[id].DeleteAllQuery? || w.processes[id].DeleteAllKeys? || w.processes[id].DeleteAllRows?)
    ensures var w := Run(Initial(), events).value;
            var user := w.processes[id].user;
            var v := Step(w, Go(id, outcome, 0, order));
            && (forall h | h in w.redis && w.redis[h].user != user :: h in v.redis && v.redis[h] == w.redis[h])
            && (forall r | r in w.rows && w.rows[r].user != user :: r in v.rows && v.rows[r] == w.rows[r])
  {
    RunIsValid(Initial(), events);
    var w := Run(Initial(), events).value;
    hide Run, LogOk, PastOk, Backed;
    DeleteAllRemovesNoMore(w, Go(id, outcome, 0, order));
    hide Step;
    var p := w.processes[id];
    assert ProcessOk(w, p);
    if p.DeleteAllKeys? && p.hashes != [] {
      var h := p.hashes[0];
      assert h in p.hashes && Owned(w.issued, h.token, p.user);
      if h in w.redis {
        assert KeyOk(w, h);
      }
    }
  }

  /** At most one call creates a token, and a token has a row only when that call is over. */
  ghost predicate CreatedOnce(w: World) {
    && (forall p | p in w.processes :: forall t :: Creates(w.processes[p], t) ==> t in w.issued)
    && (forall p, q, t | p in w.processes && q in w.processes ::
          Creates(w.processes[p], t) && Creates(w.processes[q], t) ==> p == q)
    && (forall id | id in w.rows :: Settled(w, w.rows[id].hash.token))
  }

  /** A new row is that of the token the call creates, and ends the call. */
  lemma NewRow(w: World, id: nat, p: Process, outcome: Outcome, row: nat, order: seq<Hash>, r: nat)
    requires var (v, next) := Advance(w, id, p, outcome, row, order); r in v.rows && !(r in w.rows && v.rows[r] == w.rows[r])
    ensures var (v, next) := Advance(w, id, p, outcome, row, order);
            next.None? && Creates(p, v.rows[r].hash.token)
  {
    hide GetKey, SetKey, ExpireKey, RowsOfHash, RowsOfUser;
  }

  lemma RowsStaySettled(w: World, e: Event, id: nat)
    requires CreatedOnce(w) && Possible(w, e) && id in Step(w, e).rows
    ensures Settled(Step(w, e), Step(w, e).rows[id].hash.token)
  {
    hide Advance;
    var token := Step(w, e).rows[id].hash.token;
    if e.Go? {
      var p := w.processes[e.process];
      AdvanceKeeps(w, e.process, p, e.outcome, e.row, e.order);
      var (stores, next) := Advance(w, e.process, p, e.outcome, e.row, e.order);
      if !(id in w.rows && stores.rows[id] == w.rows[id]) {
        NewRow(w, e.process, p, e.outcome, e.row, e.order, id);
        OthersCreateOthers(w, e.process, token);
        return;
      }
    }
    hide Step;
    StaysSettled(w, e, token);
  }

  lemma OthersCreateOthers(w: World, id: nat, token: Token)
    requires CreatedOnce(w) && id in w.processes && Creates(w.processes[id], token)
    ensures token in w.issued && forall p | p in w.processes && p != id :: !Creates(w.processes[p], token)
  {}

  /** Whoever creates a token after a step did so before, or has just begun. */
  lemma CreatorsBefore(w: World, e: Event, p: nat, t: Token)
    requires CreatedOnce(w) && Possible(w, e) && p in Step(w, e).processes && Creates(Step(w, e).processes[p], t)
    ensures t in Step(w, e).issued
    ensures if e.BeginCreate? && t == e.token then p == w.nextProcess else p in w.processes && Creates(w.processes[p], t)
  {
    hide Advance;
    if e.Go? {
      GoneOn(w, e, t);
    }
  }

  lemma CreatorsStep(w: World, e: Event)
    requires CreatedOnce(w) && Possible(w, e)
    ensures var v := Step(w, e);
            && (forall p | p in v.processes :: forall t :: Creates(v.processes[p], t) ==> t in v.issued)
            && (forall p, q, t | p in v.processes && q in v.processes ::
                  Creates(v.processes[p], t) && Creates(v.processes[q], t) ==> p == q)
  {
    hide Step, Creates;
    var v := Step(w, e);
    forall p, t | p in v.processes && Creates(v.processes[p], t)
      ensures t in v.issued
      ensures if e.BeginCreate? && t == e.token then p == w.nextProcess else p in w.processes && Creates(w.processes[p], t)
    {
      CreatorsBefore(w, e, p, t);
    }
  }

  lemma {:induction false} RunCreatesOnce(w: World, events: seq<Event>)
    requires CreatedOnce(w) && NumbersBelow(w) && Run(w, events).Some?
    ensures CreatedOnce(Run(w, events).value) && NumbersBelow(Run(w, events).value)
    decreases |events|
  {
    if events != [] {
      var e := events[0];
      NumbersStep(w, e);
      CreatorsStep(w, e);
      forall id | id in Step(w, e).rows
        ensures Settled(Step(w, e), Step(w, e).rows[id].hash.token)
      {
        RowsStaySettled(w, e, id);
      }
      hide Step, NumbersBelow;
      RunCreatesOnce(Step(w, e), events[1..]);
    }
  }

  /** The deletion of one hash that is next in the queue of the process, if the event is one. */
  predicate DeletesKey(w: World, e: Event, id: nat) {
    && e.Go? && e.process == id && id in w.processes
    && w.processes[id].DeleteAllKeys? && w.processes[id].hashes != []
  }

  /** Each deletion of a key by the process takes effect, and all others may do what they like. */
  predicate KeyDeletionsWork(w: World, events: seq<Event>, id: nat)
    requires Run(w, events).Some?
    decreases |events|
  {
    events == [] ||
    ((DeletesKey(w, events[0], id) ==> !events[0].outcome.Failed?) && KeyDeletionsWork(Step(w, events[0]), events[1..], id))
  }

  /** The token's key is still to be deleted by the process. */
  predicate Queued(w: World, id: nat, token: Token) {
    id in w.processes && w.processes[id].DeleteAllKeys? && Sha256(token) in w.processes[id].hashes
  }

  lemma QueuedOrGone(w: World, e: Event, id: nat, token: Token)
    requires Settled(w, token) && id < w.nextProcess && Possible(w, e)
    requires Queued(w, id, token) || NoKey(w, token)
    requires DeletesKey(w, e, id) ==> !e.outcome.Failed?
    ensures Settled(Step(w, e), token) && id < Step(w, e).nextProcess
    ensures Queued(Step(w, e), id, token) || NoKey(Step(w, e), token)
  {
    StaysSettled(w, e, token);
    hide Settled;
    if NoKey(w, token) {
      hide Advance;
      StaysWithoutKey(w, e, token);
      NextProcessGrows(w, e);
    } else if e.Go? && e.process == id {
      hide AdvanceCreate, AdvanceValidate, AdvanceDelete;
      var hashes := w.processes[id].hashes;
      assert Step(w, e).redis == w.redis - {hashes[0]};
      assert Sha256(token) == hashes[0] || Sha256(token) in hashes[1..];
    } else {
      hide Advance;
      NextProcessGrows(w, e);
    }
  }

  lemma NextProcessGrows(w: World, e: Event)
    requires Possible(w, e)
    ensures w.nextProcess <= Step(w, e).nextProcess
    ensures forall p | p in w.processes && p < w.nextProcess && !(e.Go? && e.process == p) ::
              p in Step(w, e).processes && Step(w, e).processes[p] == w.processes[p]
  {
    hide Advance;
    if e.Go? {
      AdvanceKeeps(w, e.process, w.processes[e.process], e.outcome, e.row, e.order);
    }
  }

  lemma {:induction false} RunQueuedOrGone(w: World, events: seq<Event>, id: nat, token: Token)
    requires Settled(w, token) && id < w.nextProcess && (Queued(w, id, token) || NoKey(w, token))
    requires Run(w, events).Some? && KeyDeletionsWork(w, events, id)
    ensures var v := Run(w, events).value; Queued(v, id, token) || NoKey(v, token)
    decreases |events|
  {
    hide Step, Settled, Queued, NoKey, DeletesKey;
    if events != [] {
      QueuedOrGone(w, events[0], id, token);
      RunQueuedOrGone(Step(w, events[0]), events[1..], id, token);
    }
  }

  /**
    A `DeleteAllUserSessions` in any interleaving: when it has gone through the hashes its query found and
    each of its deletions took effect, none of their tokens has a live key, whatever else was going on.
  */
  lemma DeleteAllRemovesKeys(before: seq<Event>, id: nat, order: seq<Hash>, after: seq<Event>, h: Hash)
    requires Run(Initial(), before).Some?
    requires var w := Run(Initial(), before).value;
             var e := Go(id, Done, 0, order);
             && id in w.processes && w.processes[id].DeleteAllQuery? && Possible(w, e) && h in order
             && Run(Step(w, e), after).Some? && KeyDeletionsWork(Step(w, e), after, id)
             && var v := Run(Step(w, e), after).value; id !in v.processes || v.processes[id].DeleteAllRows?
    ensures var w := Run(Initial(), before).value;
            NoKey(Run(Step(w, Go(id, Done, 0, order)), after).value, h.token)
  {
    RunCreatesOnce(Initial(), before);
    var w := Run(Initial(), before).value;
    var e := Go(id, Done, 0, order);
    assert h in HashesOfUser(w.rows, w.processes[id].user);
    var row :| row in w.rows && w.rows[row].user == w.processes[id].user && w.rows[row].hash == h;
    assert Settled(w, h.token);
    StaysSettled(w, e, h.token);
    assert Queued(Step(w, e), id, h.token) && id < Step(w, e).nextProcess;
    RunQueuedOrGone(Step(w, e), after, id, h.token);
  }

  /**
    The same for a query that read all rows: the hashes are those of the rows its user had then. When the
    last deletion takes effect too, no row of the user is left, and all those keys are still gone.
  */
  lemma DeleteAllTakesEffect(before: seq<Event>, id: nat, order: seq<Hash>, after: seq<Event>, last: Outcome)
    requires Run(Initial(), before).Some?
    requires var w := Run(Initial(), before).value;
             var e := Go(id, Done, 0, order);
             && id in w.processes && w.processes[id].DeleteAllQuery? && Possible(w, e)
             && (set h | h in order) == HashesOfUser(w.rows, w.processes[id].user)
             && Run(Step(w, e), after).Some? && KeyDeletionsWork(Step(w, e), after, id)
             && var v := Run(Step(w, e), after).value;
                id in v.processes && v.processes[id] == DeleteAllRows(w.processes[id].user) && !last.Failed?
    ensures var w := Run(Initial(), before).value;
            var user := w.processes[id].user;
            var v := Step(Run(Step(w, Go(id, Done, 0, order)), after).value, Go(id, last, 0, []));
            && RowsOfUser(v.rows, user) == {}
            && forall h | h in HashesOfUser(w.rows, user) :: NoKey(v, h.token)
  {
    var w := Run(Initial(), before).value;
    var user := w.processes[id].user;
    var u := Run(Step(w, Go(id, Done, 0, order)), after).value;
    var e := Go(id, last, 0, []);
    assert Step(u, e).rows == u.rows - RowsOfUser(u.rows, user);
    forall h | h in HashesOfUser(w.rows, user)
      ensures NoKey(Step(u, e), h.token)
    {
      assert h in (set g | g in order);
      DeleteAllRemovesKeys(before, id, order, after, h);
      StaysWithoutKey(u, e, h.token);
    }
  }

  /** And no more than that: a store call of it removes the key at the head of its queue, or its user's rows. */
  lemma DeleteAllRemovesNoMore(w: World, e: Event)
    requires Possible(w, e) && e.Go?
    requires var p := w.processes[e.process]; p.DeleteAllQuery? || p.DeleteAllKeys? || p.DeleteAllRows?
    ensures var p, v := w.processes[e.process], Step(w, e);
            && v.redis == (if DeletesKey(w, e, e.process) && !e.outcome.Failed? then w.redis - {p.hashes[0]} else w.redis)
            && v.rows == if p.DeleteAllRows? && !e.outcome.Failed? then w.rows - RowsOfUser(w.rows, p.user) else w.rows
  {}
}
