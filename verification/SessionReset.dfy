/** What a password reset and a magic link do to the sessions of their user and of all others. */
module SessionReset {
  import opened AuthService
  import opened Options
  import opened Sessions
  import opened SessionSafety
  import opened Stores

  /** The stores after a session was created for the user, if there is one. */
  function WithSession(w: World, user: Option<User>, token: Token, creation: nat -> Choice): World {
    if user.None? then w else Alone(w, CreateSet(token, user.value, w.now + MONTH), creation, 0)
  }

  /** The stores after the session part of a password reset. */
  function AfterReset(w: World, user: User, deletion: nat -> Choice, found: bool, token: Token, creation: nat -> Choice): World {
    WithSession(Alone(w, DeleteAllQuery(user), deletion, 0), if found then Some(user) else None, token, creation)
  }

  /** The query of the deletion gets to hashes of the user's rows only. */
  predicate Found(w: World, user: User, deletion: nat -> Choice) {
    forall h | h in deletion(0).order :: h in HashesOfUser(w.rows, user)
  }

  // ---- Which tokens open a session ----

  lemma NewSessionTouchesItsToken(w: World, user: User, token: Token, creation: nat -> Choice, other: Token, u: User)
    requires other != token && w.nextRow !in w.rows
    ensures Opens(WithSession(w, Some(user), token, creation), other, u) <==> Opens(w, other, u)
  {
    var v := WithSession(w, Some(user), token, creation);
    CreateAlone(w, token, user, w.now + MONTH, creation);
    hide Alone;
    assert v.now == w.now && GetKey(v.redis, Sha256(other), v.now) == GetKey(w.redis, Sha256(other), w.now);
    assert forall id | id in w.rows :: id in v.rows && v.rows[id] == w.rows[id];
    assert forall id | id in v.rows :: v.rows[id].hash == Sha256(other) ==> id in w.rows;
  }

  // ---- After a reset ----

  /**
    Which older sessions of the user survive a password reset, however its store calls end: those with a
    live Redis key that the deletion did not reach, and those with a row in time and without a live key
    after it, if the rows were not deleted.
  */
  lemma SurvivesResetIff(w: World, user: User, deletion: nat -> Choice, found: bool, session: Token,
                         creation: nat -> Choice, token: Token)
    requires token != session && w.nextRow !in w.rows
    ensures var v, h := AfterReset(w, user, deletion, found, session, creation), Sha256(token);
            var live := GetKey(w.redis, h, w.now).Some? && h !in DeletedBy(deletion);
            Opens(v, token, user) <==>
              if live then Live(w, user, h) else HasRow(w, token, user) && !DeletesRows(deletion)
  {
    var u := Alone(w, DeleteAllQuery(user), deletion, 0);
    DeleteAllAlone(w, user, deletion);
    hide Alone, DeletedBy, DeletesRows;
    assert HasRow(u, token, user) <==> HasRow(w, token, user) && !DeletesRows(deletion);
    NewSessionTouchesItsToken(u, user, session, creation, token, user);
  }

  /** A reset leaves every session of every other user as it was. */
  lemma ResetSparesOthers(w: World, user: User, deletion: nat -> Choice, found: bool, session: Token,
                          creation: nat -> Choice, token: Token, other: User)
    requires Valid(w) && Found(w, user, deletion) && other != user && token != session && w.nextRow !in w.rows
    ensures Opens(AfterReset(w, user, deletion, found, session, creation), token, other) <==> Opens(w, token, other)
  {
    var u, h := Alone(w, DeleteAllQuery(user), deletion, 0), Sha256(token);
    DeleteAllAlone(w, user, deletion);
    hide Alone, DeletesRows;
    OnlyFoundHashes(w, user, deletion);
    assert HasRow(u, token, other) <==> HasRow(w, token, other) by {
      assert forall id | id in w.rows && w.rows[id].user == other :: id in u.rows && u.rows[id] == w.rows[id];
    }
    OneOwner(w, token, user, other);
    NewSessionTouchesItsToken(u, user, session, creation, token, other);
  }

  /** A hash in a row of one user opens nothing for another. */
  lemma OneOwner(w: World, token: Token, user: User, other: User)
    requires Valid(w) && other != user
    ensures Sha256(token) in HashesOfUser(w.rows, user) ==> !HasRow(w, token, other) && !Live(w, other, Sha256(token))
  {
    if Sha256(token) in HashesOfUser(w.rows, user) {
      var id :| id in w.rows && w.rows[id].user == user && w.rows[id].hash == Sha256(token);
      assert RowOk(w.issued, w.rows[id]);
      if Sha256(token) in w.redis {
        assert KeyOk(w, Sha256(token));
      }
      forall k | k in w.rows && w.rows[k].hash == Sha256(token)
        ensures w.rows[k].user == user
      {
        assert RowOk(w.issued, w.rows[k]);
      }
    }
  }
}
