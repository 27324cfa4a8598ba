/**
  The session methods of the service over the two stores. Each one, called on its own, does to the
  stores what its process does when no other call comes in between.
*/
module AuthService {
  import opened Options
  import opened Sessions
  import opened Stores

  /** How the stores answer the store calls of one call, the k-th by the k-th choice. */
  datatype Choice = Choice(outcome: Outcome, row: nat, order: seq<Hash>)

  datatype Validation = Authenticated(user: User) | SessionNotFound | SessionExpired | StoreError

  /** How far a process has got, for the termination of its run. */
  function StepsLeft(p: Process): nat {
    match p
    case CreateSet(_, _, _) => 2
    case CreateInsert(_, _, _) => 1
    case ValidateGet(_) => 4
    case ValidateExpire(_, _, _) => 2
    case ValidateSelect(_) => 3
    case ValidateCheck(_, _, _) => 2
    case ValidateCleanUp(_) => 1
    case ValidateUser(_, _, _, _) => 1
    case DeleteKey(_) => 2
    case DeleteRows(_) => 1
    case DeleteAllQuery(_) => 3
    case DeleteAllKeys(_, _) => 2
    case DeleteAllRows(_) => 1
  }

  /** The process run to its end with nothing in between. */
  function Alone(w: World, p: Process, choices: nat -> Choice, k: nat): World
    decreases StepsLeft(p), if p.DeleteAllKeys? then |p.hashes| else 0
  {
    var c := choices(k);
    var (v, next) := Advance(w, 0, p, c.outcome, c.row, c.order);
    if next.None? then v else Alone(v, next.value, choices, k + 1)
  }

  // ---- What deleting all sessions of a user leaves ----

  /** The keys that are deleted: those of the hashes whose deletion takes effect, the k-th of them being next. */
  function Deleted(hashes: seq<Hash>, choices: nat -> Choice, k: nat): set<Hash> {
    set i | 0 <= i < |hashes| && !choices(k + i).outcome.Failed? :: hashes[i]
  }

  lemma {:induction false} KeysDeleted(w: World, user: User, hashes: seq<Hash>, choices: nat -> Choice, k: nat)
    ensures Alone(w, DeleteAllKeys(user, hashes), choices, k) == w.(
              redis := w.redis - Deleted(hashes, choices, k),
              rows := if choices(k + |hashes| + 1).outcome.Failed? then w.rows else w.rows - RowsOfUser(w.rows, user))
    decreases |hashes|
  {
    if hashes == [] {
      assert Alone(w, DeleteAllKeys(user, hashes), choices, k) == Alone(w, DeleteAllRows(user), choices, k + 1);
      assert w.redis - {} == w.redis;
    } else {
      var head := if choices(k).outcome.Failed? then {} else {hashes[0]};
      var u := w.(redis := w.redis - head);
      NextKey(w, user, hashes, choices, k);
      hide Alone, Deleted;
      KeysDeleted(u, user, hashes[1..], choices, k + 1);
      DeletedSplits(hashes, choices, k);
    }
  }

  lemma NextKey(w: World, user: User, hashes: seq<Hash>, choices: nat -> Choice, k: nat)
    requires hashes != []
    ensures var u := w.(redis := w.redis - if choices(k).outcome.Failed? then {} else {hashes[0]});
            Alone(w, DeleteAllKeys(user, hashes), choices, k) == Alone(u, DeleteAllKeys(user, hashes[1..]), choices, k + 1)
  {
    var u := w.(redis := w.redis - if choices(k).outcome.Failed? then {} else {hashes[0]});
    assert u == Advance(w, 0, DeleteAllKeys(user, hashes), choices(k).outcome, choices(k).row, choices(k).order).0;
  }

  lemma DeletedSplits(hashes: seq<Hash>, choices: nat -> Choice, k: nat)
    requires hashes != []
    ensures Deleted(hashes, choices, k) ==
            (if choices(k).outcome.Failed? then {} else {hashes[0]}) + Deleted(hashes[1..], choices, k + 1)
  {
    forall h | h in Deleted(hashes, choices, k)
      ensures h in (if choices(k).outcome.Failed? then {} else {hashes[0]}) + Deleted(hashes[1..], choices, k + 1)
    {
      var i :| 0 <= i < |hashes| && !choices(k + i).outcome.Failed? && hashes[i] == h;
      if i > 0 {
        assert hashes[1..][i - 1] == h && !choices(k + 1 + (i - 1)).outcome.Failed?;
      }
    }
    forall h | h in Deleted(hashes[1..], choices, k + 1)
      ensures h in Deleted(hashes, choices, k)
    {
      var i :| 0 <= i < |hashes[1..]| && !choices(k + 1 + i).outcome.Failed? && hashes[1..][i] == h;
      assert hashes[i + 1] == h && !choices(k + (i + 1)).outcome.Failed?;
    }
    if !choices(k).outcome.Failed? {
      assert !choices(k + 0).outcome.Failed? && hashes[0] in Deleted(hashes, choices, k);
    }
  }

  /** The hashes a call deletes the keys of: none when its query fails. */
  function DeletedBy(choices: nat -> Choice): set<Hash> {
    if choices(0).outcome.Done? then Deleted(choices(0).order, choices, 1) else {}
  }

  /** Whether a call deletes the user's rows. */
  predicate DeletesRows(choices: nat -> Choice) {
    choices(0).outcome.Done? && !choices(|choices(0).order| + 2).outcome.Failed?
  }

  /** What is gone after any call, however its query and its deletions end. */
  lemma DeleteAllAlone(w: World, user: User, choices: nat -> Choice)
    ensures Alone(w, DeleteAllQuery(user), choices, 0) == w.(
              redis := w.redis - DeletedBy(choices),
              rows := if DeletesRows(choices) then w.rows - RowsOfUser(w.rows, user) else w.rows)
  {
    if choices(0).outcome.Done? {
      KeysDeleted(w, user, choices(0).order, choices, 1);
      assert Alone(w, DeleteAllQuery(user), choices, 0) ==
             Alone(w, DeleteAllKeys(user, choices(0).order), choices, 1);
    } else {
      assert w.redis - {} == w.redis;
    }
  }

  /** What is there after a session was created: a key, or after an error of Redis perhaps a row as well. */
  lemma CreateAlone(w: World, token: Token, user: User, expires: Time, choices: nat -> Choice)
    ensures var v := Alone(w, CreateSet(token, user, expires), choices, 0);
            && v.now == w.now
            && v.redis == (if choices(0).outcome.Failed? then w.redis else SetKey(w.redis, Sha256(token), user, w.now))
            && v.rows == if choices(0).outcome.Done? || choices(1).outcome.Failed? then w.rows
                         else w.rows[w.nextRow := Row(Sha256(token), user, expires)]
  {
    var p := CreateSet(token, user, expires);
    var (v, next) := Advance(w, 0, p, choices(0).outcome, choices(0).row, choices(0).order);
    if next.Some? {
      assert Alone(w, p, choices, 0) == Alone(v, next.value, choices, 1);
      assert Alone(v, next.value, choices, 1) ==
             Advance(v, 0, next.value, choices(1).outcome, choices(1).row, choices(1).order).0;
    }
  }

  /** A live Redis key of the user. */
  predicate Live(w: World, user: User, h: Hash) {
    GetKey(w.redis, h, w.now) == Some(user)
  }

  /**
    Deleting all sessions of a user ends all of them if and only if the query found a row for each live
    Redis key of the user and the deletion of that key took effect, and the rows, if there are any, went
    too. Neither a failed key deletion nor a query cut short keeps the call from reporting success.
  */
  lemma DeleteAllIsCompleteIff(w: World, user: User, choices: nat -> Choice)
    ensures var v := Alone(w, DeleteAllQuery(user), choices, 0);
            && (forall h :: Live(v, user, h) <==> Live(w, user, h) && h !in DeletedBy(choices))
            && ((forall h :: !Live(v, user, h)) <==> (forall h | Live(w, user, h) :: h in DeletedBy(choices)))
            && (RowsOfUser(v.rows, user) == {} <==> DeletesRows(choices) || RowsOfUser(w.rows, user) == {})
  {
    DeleteAllAlone(w, user, choices);
    var v := Alone(w, DeleteAllQuery(user), choices, 0);
    forall h
      ensures Live(v, user, h) <==> Live(w, user, h) && h !in DeletedBy(choices)
    {}
    if DeletesRows(choices) {
      assert RowsOfUser(v.rows, user) == {};
    } else {
      assert RowsOfUser(v.rows, user) == RowsOfUser(w.rows, user);
    }
  }

  /** The query has read all rows of the user, and no error follows. */
  ghost predicate Flawless(w: World, user: User, choices: nat -> Choice) {
    (forall k: nat :: choices(k).outcome == Done) && (set h | h in choices(0).order) == HashesOfUser(w.rows, user)
  }

  /** Without any error, what decides is whether each live Redis key of the user has a row. */
  lemma FlawlessIsCompleteIff(w: World, user: User, choices: nat -> Choice)
    requires Flawless(w, user, choices)
    ensures DeletedBy(choices) == HashesOfUser(w.rows, user)
    ensures var v := Alone(w, DeleteAllQuery(user), choices, 0);
            && RowsOfUser(v.rows, user) == {}
            && ((forall h :: !Live(v, user, h)) <==> (forall h | Live(w, user, h) :: h in HashesOfUser(w.rows, user)))
  {
    var order := choices(0).order;
    forall h
      ensures h in DeletedBy(choices) <==> h in order
    {
      if h in order {
        var i :| 0 <= i < |order| && order[i] == h;
        assert !choices(1 + i).outcome.Failed?;
      }
    }
    assert forall h :: h in order <==> h in (set h | h in order);
    DeleteAllIsCompleteIff(w, user, choices);
  }

  /** So every session that was created without a Redis error is missed, whatever the deletions do. */
  lemma NewSessionSurvivesDeleteAll(w: World, user: User, token: Token, creation: nat -> Choice, deletion: nat -> Choice)
    requires creation(0).outcome == Done && forall id | id in w.rows :: w.rows[id].hash != Sha256(token)
    requires forall h | h in deletion(0).order :: h in HashesOfUser(w.rows, user)
    ensures var v := Alone(w, CreateSet(token, user, w.now + MONTH), creation, 0);
            Live(Alone(v, DeleteAllQuery(user), deletion, 0), user, Sha256(token))
  {
    var v := Alone(w, CreateSet(token, user, w.now + MONTH), creation, 0);
    assert Live(v, user, Sha256(token));
    hide Alone, Live;
    OnlyFoundHashes(w, user, deletion);
    assert Sha256(token) !in DeletedBy(deletion);
    DeleteAllIsCompleteIff(v, user, deletion);
  }

  lemma OnlyFoundHashes(w: World, user: User, choices: nat -> Choice)
    requires forall h | h in choices(0).order :: h in HashesOfUser(w.rows, user)
    ensures DeletedBy(choices) <= HashesOfUser(w.rows, user)
  {}

  /**
    Deleting a session leaves nothing of it if and only if each store that held it was reached. The
    Redis deletion's error is dropped, so a reported success does not mean that the live key is gone.
  */
  lemma LogoutIsCompleteIff(w: World, token: Token, choices: nat -> Choice)
    ensures var h, v := Sha256(token), Alone(w, DeleteKey(token), choices, 0);
            GetKey(v.redis, h, v.now).None? && RowsOfHash(v.rows, h) == {} <==>
            && (choices(0).outcome.Failed? ==> GetKey(w.redis, h, w.now).None?)
            && (choices(1).outcome.Failed? ==> RowsOfHash(w.rows, h) == {})
  {
    var v := if choices(0).outcome.Failed? then w else w.(redis := w.redis - {Sha256(token)});
    assert Alone(w, DeleteKey(token), choices, 0) == Alone(v, DeleteRows(token), choices, 1);
  }

  predicate LiveKey(redis: map<Hash, Key>, h: Hash, now: Time) {
    h in redis && now < redis[h].expires
  }

  /** What the row that the query gives leads to: the user, if the row is in time and the user can be read. */
  function FromRow(rows: map<nat, Row>, h: Hash, now: Time, choices: nat -> Choice): Validation {
    if choices(1).outcome != Done then StoreError
    else if choices(1).row !in rows || rows[choices(1).row].hash != h then SessionNotFound
    else if now > rows[choices(1).row].expires then SessionExpired
    else if choices(3).outcome == Done then Authenticated(rows[choices(1).row].user)
    else StoreError
  }

  // ---- Which tokens open a session ----

  predicate HasRow(w: World, token: Token, user: User) {
    exists id | id in w.rows :: w.rows[id] == Row(Sha256(token), user, w.rows[id].expires) && w.now <= w.rows[id].expires
  }

  /** What `ValidateSession` answers when both stores work: the live key, or without one a row in time. */
  predicate Opens(w: World, token: Token, user: User) {
    var key := GetKey(w.redis, Sha256(token), w.now);
    if key.Some? then key.value == user else HasRow(w, token, user)
  }

  /** The query gives one row of the hash, if there is one, and there are no two. */
  predicate OneRow(w: World, h: Hash, choices: nat -> Choice) {
    && (forall i, j | i in w.rows && j in w.rows && w.rows[i].hash == h && w.rows[j].hash == h :: i == j)
    && ((exists i | i in w.rows :: w.rows[i].hash == h) ==> choices(1).row in w.rows && w.rows[choices(1).row].hash == h)
  }

  /** It is what `ValidateSession` answers: from the key, or from the row. */
  lemma OpensIff(w: World, token: Token, user: User, choices: nat -> Choice)
    requires choices(1).outcome == Done && choices(3).outcome == Done && OneRow(w, Sha256(token), choices)
    ensures var h := Sha256(token);
            Opens(w, token, user) <==>
              if LiveKey(w.redis, h, w.now) then w.redis[h].user == user
              else FromRow(w.rows, h, w.now, choices) == Authenticated(user)
  {
    var h := Sha256(token);
    if !LiveKey(w.redis, h, w.now) {
      var row := choices(1).row;
      if FromRow(w.rows, h, w.now, choices) == Authenticated(user) {
        assert w.rows[row] == Row(h, user, w.rows[row].expires);
      }
      if HasRow(w, token, user) {
        var id :| id in w.rows && w.rows[id] == Row(h, user, w.rows[id].expires) && w.now <= w.rows[id].expires;
        assert id == row;
      }
    }
  }

  class AuthService {
    var now: Time
    var redis: map<Hash, Key>
    var rows: map<nat, Row>
    var nextRow: nat

    function View(): World
      reads this
    {
      World(now, redis, rows, nextRow, map[], 0, map[], [])
    }

    predicate Stores(w: World)
      reads this
    {
      redis == w.redis && rows == w.rows && nextRow == w.nextRow
    }

    /** The stores are as in `w`, and a user was returned exactly when `w` records the answer. */
    ghost predicate Matches(w: World, result: Validation)
      reads this
    {
      && Stores(w)
      && match result
         case Authenticated(user) => w.log != [] && var r := w.log[|w.log| - 1]; r.Answered? && r.user == user
         case _ => forall r | r in w.log :: !r.Answered?
    }

    method CreateSession(user: User, token: Token, choices: nat -> Choice) returns (created: Option<Token>)
      modifies `redis, `rows, `nextRow
      ensures Stores(Alone(old(View()), CreateSet(token, user, now + MONTH), choices, 0))
      ensures created == if choices(0).outcome.Done? || choices(1).outcome.Done? then Some(token) else None
      ensures created.Some? ==> GetKey(redis, Sha256(token), now) == Some(user) || RowsOfHash(rows, Sha256(token)) != {}
      ensures created.Some? && GetKey(old(redis), Sha256(token), now).None? ==> Opens(View(), token, user)
      ensures redis == if choices(0).outcome == Failed then old(redis)
                       else old(redis)[Sha256(token) := Key(user, now + 30 * 24 * 3600)]
      ensures rows == if choices(0).outcome == Done || choices(1).outcome == Failed then old(rows)
                      else old(rows)[old(nextRow) := Row(Sha256(token), user, now + 30 * 24 * 3600)]
    {
      var expires := now + MONTH;
      if !choices(0).outcome.Failed? {
        redis := SetKey(redis, Sha256(token), user, now);
      }
      if !choices(0).outcome.Done? {
        if !choices(1).outcome.Failed? {
          rows := rows[nextRow := Row(Sha256(token), user, expires)];
          nextRow := nextRow + 1;
          assert nextRow - 1 in RowsOfHash(rows, Sha256(token));
        }
        if !choices(1).outcome.Done? {
          return None;
        }
      }
      created := Some(token);
    }

    method ValidateSession(token: Token, choices: nat -> Choice) returns (result: Validation)
      requires RowsOfHash(rows, Sha256(token)) != {} ==> choices(1).row in RowsOfHash(rows, Sha256(token))
      modifies `redis, `rows
      ensures Matches(Alone(old(View()), ValidateGet(token), choices, 0), result)
      ensures var h := Sha256(token);
              var asked := (!choices(0).outcome.Done? || GetKey(old(redis), h, now).None?) && choices(1).outcome.Done?;
              var found := RowsOfHash(old(rows), h) != {};
              && (result.SessionNotFound? <==> asked && !found)
              && (result.SessionExpired? <==> asked && found && now > old(rows)[choices(1).row].expires)
      ensures choices(0).outcome == Done && LiveKey(old(redis), Sha256(token), now) ==>
                result == if choices(2).outcome == Done then Authenticated(old(redis)[Sha256(token)].user) else StoreError
      ensures !(choices(0).outcome == Done && LiveKey(old(redis), Sha256(token), now)) ==>
                result == FromRow(old(rows), Sha256(token), now, choices)
      ensures redis == if choices(0).outcome == Done && LiveKey(old(redis), Sha256(token), now) && choices(1).outcome != Failed
                       then old(redis)[Sha256(token) := Key(old(redis)[Sha256(token)].user, now + 30 * 24 * 3600)]
                       else old(redis)
      ensures rows == if result == SessionExpired && choices(3).outcome != Failed then old(rows) - {choices(1).row}
                      else old(rows)
    {
      var h := Sha256(token);
      var user := GetKey(redis, h, now);
      ghost var w := View();
      if choices(0).outcome.Done? && user.Some? {
        ghost var p := ValidateExpire(token, user.value, now);
        assert Alone(w, ValidateGet(token), choices, 0) == Alone(w, p, choices, 1);
        ghost var (v, next) := Advance(w, 0, p, choices(1).outcome, 0, []);
        assert Alone(w, p, choices, 1) == Alone(v, next.value, choices, 2);
        if !choices(1).outcome.Failed? {
          redis := ExpireKey(redis, h, now);
        }
        return if choices(2).outcome.Done? then Authenticated(user.value) else StoreError;
      }
      assert Alone(w, ValidateGet(token), choices, 0) == Alone(w, ValidateSelect(token), choices, 1);
      result := ValidateRow(token, choices);
    }

    /** The fallback to Postgres. */
    method ValidateRow(token: Token, choices: nat -> Choice) returns (result: Validation)
      requires RowsOfHash(rows, Sha256(token)) != {} ==> choices(1).row in RowsOfHash(rows, Sha256(token))
      modifies `rows
      ensures Matches(Alone(old(View()), ValidateSelect(token), choices, 1), result)
      ensures var asked, found := choices(1).outcome.Done?, RowsOfHash(old(rows), Sha256(token)) != {};
              && (result.SessionNotFound? <==> asked && !found)
              && (result.SessionExpired? <==> asked && found && now > old(rows)[choices(1).row].expires)
      ensures result == FromRow(old(rows), Sha256(token), now, choices)
      ensures rows == if result == SessionExpired && choices(3).outcome != Failed then old(rows) - {choices(1).row}
                      else old(rows)
    {
      var h := Sha256(token);
      if !choices(1).outcome.Done? {
        return StoreError;
      }
      if RowsOfHash(rows, h) == {} {
        return SessionNotFound;
      }
      var id := choices(1).row;
      var row := rows[id];
      ghost var w, check := View(), ValidateCheck(token, id, row);
      assert Alone(w, ValidateSelect(token), choices, 1) == Alone(w, check, choices, 2);
      if now > row.expires {
        assert Alone(w, check, choices, 2) == Alone(w, ValidateCleanUp(id), choices, 3);
        if !choices(3).outcome.Failed? {
          rows := rows - {id};
        }
        return SessionExpired;
      }
      assert Alone(w, check, choices, 2) == Alone(w, ValidateUser(token, row.user, now, Postgres), choices, 3);
      result := if choices(3).outcome.Done? then Authenticated(row.user) else StoreError;
    }

    method DeleteSession(token: Token, choices: nat -> Choice) returns (ok: bool)
      modifies `redis, `rows
      ensures Stores(Alone(old(View()), DeleteKey(token), choices, 0))
      ensures ok == choices(1).outcome.Done?
      ensures redis == if choices(0).outcome == Failed then old(redis) else old(redis) - {Sha256(token)}
      ensures forall id | id in old(rows) ::
                if old(rows)[id].hash == Sha256(token) && choices(1).outcome != Failed then id !in rows
                else id in rows && rows[id] == old(rows)[id]
    {
      var h := Sha256(token);
      if !choices(0).outcome.Failed? {
        redis := redis - {h};
      }
      if !choices(1).outcome.Failed? {
        rows := rows - RowsOfHash(rows, h);
      }
      ok := choices(1).outcome.Done?;
    }

    /**
      The first choice gives the hashes that `rows.Next()` gets to. The loop does not ask whether there were
      more, and the errors of the deletions in Redis are dropped.
    */
    method DeleteAllUserSessions(user: User, choices: nat -> Choice) returns (ok: bool)
      requires forall h | h in choices(0).order :: h in HashesOfUser(rows, user)
      modifies `redis, `rows
      ensures Stores(Alone(old(View()), DeleteAllQuery(user), choices, 0))
      ensures ok == (choices(0).outcome.Done? && choices(|choices(0).order| + 2).outcome.Done?)
      ensures rows == if DeletesRows(choices) then old(rows) - RowsOfUser(old(rows), user) else old(rows)
      ensures redis == old(redis) - DeletedBy(choices) && DeletedBy(choices) <= HashesOfUser(old(rows), user)
    {
      DeleteAllAlone(View(), user, choices);
      var result := choices(0);
      if !result.outcome.Done? {
        return false;
      }
      var tokenHashes: seq<Hash> := [];
      var k := 0;
      while k < |result.order|
        invariant 0 <= k <= |result.order| && tokenHashes == result.order[..k]
      {
        tokenHashes := tokenHashes + [result.order[k]];
        k := k + 1;
      }
      assert tokenHashes == result.order;
      DeleteKeys(user, tokenHashes, choices);
      var last := choices(|tokenHashes| + 2).outcome;
      if !last.Failed? {
        rows := rows - RowsOfUser(rows, user);
      }
      ok := last.Done?;
    }

    /** The loop over the keys; its errors are ignored. */
    method DeleteKeys(user: User, tokenHashes: seq<Hash>, choices: nat -> Choice)
      modifies `redis
      ensures Alone(old(View()), DeleteAllKeys(user, tokenHashes), choices, 1) ==
              Alone(View(), DeleteAllRows(user), choices, |tokenHashes| + 2)
      ensures forall h | h in redis :: h in old(redis) && redis[h] == old(redis)[h]
    {
      var k := 0;
      ghost var whole := Alone(View(), DeleteAllKeys(user, tokenHashes), choices, 1);
      assert tokenHashes[0..] == tokenHashes;
      while k < |tokenHashes|
        invariant 0 <= k <= |tokenHashes|
        invariant whole == Alone(View(), DeleteAllKeys(user, tokenHashes[k..]), choices, k + 1)
        invariant forall h | h in redis :: h in old(redis) && redis[h] == old(redis)[h]
      {
        assert tokenHashes[k..][1..] == tokenHashes[k + 1..] && tokenHashes[k..][0] == tokenHashes[k];
        if !choices(k + 1).outcome.Failed? {
          redis := redis - {tokenHashes[k]};
        }
        k := k + 1;
      }
      assert tokenHashes[k..] == [];
    }
  }
}
