/** The fixed-window rate limiter: a counter per key in Redis, incremented and given its expiry in one step. */
module RateLimit {
  import opened Stores

  type Key = string

  datatype Counter = Counter(count: int, expires: Time)

  /** The fields of the limiter; `ttl` is its window in whole seconds, cut off. */
  datatype Limiter = Limiter(limit: int, ttl: nat, failOpen: bool)

  datatype Request = Request(key: Key, at: Time, outcome: Outcome)

  datatype Response = Served | TooManyRequests | Unavailable

  // ---- One request ----

  function Count(counters: map<Key, Counter>, key: Key, now: Time): int {
    if key in counters && now < counters[key].expires then counters[key].count else 0
  }

  /** The script: `INCR`, and `EXPIRE` when the counter is new; an expiry of zero deletes it at once. */
  function Increment(counters: map<Key, Counter>, key: Key, now: Time, ttl: nat): map<Key, Counter> {
    var count := Count(counters, key, now);
    if count > 0 then counters[key := Counter(count + 1, counters[key].expires)]
    else if ttl == 0 then counters - {key}
    else counters[key := Counter(1, now + ttl)]
  }

  function After(l: Limiter, counters: map<Key, Counter>, r: Request): map<Key, Counter> {
    if r.outcome.Failed? then counters else Increment(counters, r.key, r.at, l.ttl)
  }

  function Respond(l: Limiter, counters: map<Key, Counter>, r: Request): Response {
    if !r.outcome.Done? then if l.failOpen then Served else Unavailable
    else if Count(counters, r.key, r.at) + 1 > l.limit then TooManyRequests
    else Served
  }

  /**
    Who is served: with an answer from Redis, whoever finds fewer than `limit` requests counted in the window
    that is open; with an error, everybody or nobody, by the limiter's policy.
  */
  lemma ServedIff(l: Limiter, counters: map<Key, Counter>, r: Request)
    ensures var seen := if r.key in counters && r.at < counters[r.key].expires then counters[r.key].count else 0;
            && (r.outcome == Done ==> Respond(l, counters, r) == if seen < l.limit then Served else TooManyRequests)
            && (r.outcome != Done ==> Respond(l, counters, r) == if l.failOpen then Served else Unavailable)
  {}

  /** The middleware; without a Redis client every request is served. */
  class RateLimiter {
    const fields: Limiter
    const connected: bool
    const prefix: string
    var counters: map<Key, Counter>

    constructor (fields: Limiter, connected: bool, prefix: string)
      ensures this.fields == fields && this.connected == connected && this.prefix == prefix && counters == map[]
    {
      this.fields, this.connected, this.prefix, this.counters := fields, connected, prefix, map[];
    }

    /** `suffix` is what the limiter's key function gives for the request, and `ip` its client's address. */
    method Handle(suffix: string, ip: string, now: Time, outcome: Outcome) returns (response: Response)
      modifies `counters
      ensures !connected ==> response == Served && counters == old(counters)
      ensures connected ==>
                var r := Request(prefix + if suffix == "" then ip else suffix, now, outcome);
                response == Respond(fields, old(counters), r) && counters == After(fields, old(counters), r)
    {
      if !connected {
        return Served;
      }
      var keySuffix := suffix;
      if keySuffix == "" {
        keySuffix := ip;
      }
      var key := prefix + keySuffix;
      var current := 0;
      if !outcome.Failed? {
        current := Count(counters, key, now) + 1;
        counters := Increment(counters, key, now, fields.ttl);
      }
      if !outcome.Done? {
        return if fields.failOpen then Served else Unavailable;
      }
      response := if current > fields.limit then TooManyRequests else Served;
    }
  }

  // ---- Every run ----

  predicate InOrder(rs: seq<Request>) {
    forall i, j | 0 <= i < j < |rs| :: rs[i].at <= rs[j].at
  }

  /** The counters after the requests in order. */
  function Counters(l: Limiter, rs: seq<Request>): map<Key, Counter> {
    if rs == [] then map[] else After(l, Counters(l, rs[..|rs| - 1]), rs[|rs| - 1])
  }

  predicate ServedLast(l: Limiter, rs: seq<Request>, key: Key, from: Time, until: Time)
    requires rs != []
  {
    var r := rs[|rs| - 1];
    r.key == key && from <= r.at < until && Respond(l, Counters(l, rs[..|rs| - 1]), r) == Served
  }

  /** How many requests of the key are served from `from` on, before `until`. */
  function ServedIn(l: Limiter, rs: seq<Request>, key: Key, from: Time, until: Time): nat {
    if rs == [] then 0
    else ServedIn(l, rs[..|rs| - 1], key, from, until) + if ServedLast(l, rs, key, from, until) then 1 else 0
  }

  function Min(x: int, y: int): int {
    if x < y then x else y
  }

  /**
    What the requests served since `from` are charged to: `starts` counters of the key began since then,
    the last of them at least `starts - 1` windows later, and each pays for `limit` of them; a counter
    that began before pays for one less, since the request that began it was earlier.
  */
  ghost predicate Charged(l: Limiter, counters: map<Key, Counter>, key: Key, from: Time, now: Time, served: nat, starts: nat) {
    if starts == 0 then
      if key in counters then
        && 1 <= counters[key].count && counters[key].expires <= now + l.ttl
        && counters[key].expires < from + l.ttl
        && served <= Min(counters[key].count, l.limit) - 1
      else served == 0
    else
      && key in counters && 1 <= counters[key].count && counters[key].expires <= now + l.ttl
      && from + (starts - 1) * l.ttl + l.ttl <= counters[key].expires
      && served <= l.limit - 1 + l.limit * (starts - 1) + Min(counters[key].count, l.limit)
  }

  /** One more request of any key; `before` is the time of the one before it. */
  lemma ChargeOne(l: Limiter, counters: map<Key, Counter>, key: Key, from: Time, before: Time, r: Request, served: nat,
                  starts: nat, served': nat) returns (starts': nat)
    requires l.limit >= 1 && l.ttl >= 1 && !l.failOpen && before <= r.at
    requires Charged(l, counters, key, from, before, served, starts) && (before < from ==> served == 0 && starts == 0)
    requires served' == served + if r.key == key && from <= r.at && Respond(l, counters, r) == Served then 1 else 0
    ensures Charged(l, After(l, counters, r), key, from, r.at, served', starts')
    ensures r.at < from ==> served' == 0 && starts' == 0
  {
    starts' := starts;
    if r.key == key && !r.outcome.Failed? && Count(counters, key, r.at) == 0 && from <= r.at {
      starts' := starts + 1;
      Product(l.limit, starts);
      Product(l.ttl, starts);
    }
  }

  lemma Product(a: int, k: int)
    ensures a * (k + 1 - 1) == a * k && a * k == a * (k - 1) + a
  {}

  lemma {:induction false} EveryRunIsCharged(l: Limiter, rs: seq<Request>, key: Key, from: Time, until: Time)
    returns (starts: nat)
    requires l.limit >= 1 && l.ttl >= 1 && !l.failOpen && InOrder(rs) && forall r | r in rs :: r.at < until
    ensures var now := if rs == [] then 0 else rs[|rs| - 1].at;
            && Charged(l, Counters(l, rs), key, from, now, ServedIn(l, rs, key, from, until), starts)
            && (now < from ==> ServedIn(l, rs, key, from, until) == 0 && starts == 0)
            && (rs == [] ==> starts == 0)
    decreases |rs|
  {
    if rs == [] {
      starts := 0;
    } else {
      var front, r := rs[..|rs| - 1], rs[|rs| - 1];
      starts := EveryRunIsCharged(l, front, key, from, until);
      var before := if front == [] then 0 else front[|front| - 1].at;
      if front != [] {
        assert front[|front| - 1] == rs[|rs| - 2];
      }
      starts := ChargeOne(l, Counters(l, front), key, from, before, r, ServedIn(l, front, key, from, until), starts,
                          ServedIn(l, rs, key, from, until));
    }
  }

  /** Windows needed to cover an interval. */
  function Ceiling(length: nat, ttl: nat): nat
    requires ttl > 0
  {
    (length + ttl - 1) / ttl
  }

  lemma StartsFit(starts: nat, ttl: nat, length: nat)
    requires ttl > 0 && starts > 0 && (starts - 1) * ttl < length
    ensures starts <= Ceiling(length, ttl)
  {
    var n := length + ttl - 1;
    assert starts * ttl == (starts - 1) * ttl + ttl <= n;
    if n / ttl < starts {
      Monotone(n / ttl + 1, starts, ttl);
    }
  }

  lemma Monotone(a: int, b: int, p: nat)
    requires a <= b
    ensures a * p <= b * p && p * a <= p * b
  {}

  lemma TooLate(l: Limiter, rs: seq<Request>, key: Key, from: Time, until: Time)
    requires rs != [] && rs[|rs| - 1].at >= until
    ensures ServedIn(l, rs, key, from, until) == ServedIn(l, rs[..|rs| - 1], key, from, until)
  {}

  /** Later requests do not matter for an interval. */
  lemma {:induction false} Later(l: Limiter, rs: seq<Request>, key: Key, from: Time, until: Time) returns (n: nat)
    requires InOrder(rs)
    ensures n <= |rs| && forall r | r in rs[..n] :: r.at < until
    ensures ServedIn(l, rs[..n], key, from, until) == ServedIn(l, rs, key, from, until)
    decreases |rs|
  {
    hide ServedLast;
    n := |rs|;
    assert rs[..n] == rs;
    if rs != [] && rs[|rs| - 1].at >= until {
      var front := rs[..|rs| - 1];
      n := Later(l, front, key, from, until);
      TooLate(l, rs, key, from, until);
      hide ServedIn;
      assert front[..n] == rs[..n];
    } else {
      hide ServedIn;
      assert forall i | 0 <= i < |rs| :: rs[i].at < until;
    }
  }

  /**
    When Redis errors are refused, any run serves at most limit * (ceil(length / ttl) + 1) - 1 requests of
    a key in any interval of that length.
  */
  lemma ServedBound(l: Limiter, rs: seq<Request>, key: Key, from: Time, length: nat)
    requires l.limit >= 1 && l.ttl >= 1 && !l.failOpen && InOrder(rs) && length > 0
    ensures ServedIn(l, rs, key, from, from + length) <= l.limit * (Ceiling(length, l.ttl) + 1) - 1
  {
    hide Counters, ServedIn, Ceiling;
    var until := from + length;
    var n := Later(l, rs, key, from, until);
    var front := rs[..n];
    var starts := EveryRunIsCharged(l, front, key, from, until);
    var bound := Ceiling(length, l.ttl);
    if starts > 0 {
      Product(l.limit, starts);
      StartsFit(starts, l.ttl, length);
    }
    Monotone(starts, bound, l.limit);
    assert l.limit * (bound + 1) == l.limit * bound + l.limit;
  }

  /** In particular less than twice the limit in any one window. */
  lemma ServedInWindow(l: Limiter, rs: seq<Request>, key: Key, from: Time)
    requires l.limit >= 1 && l.ttl >= 1 && !l.failOpen && InOrder(rs)
    ensures ServedIn(l, rs, key, from, from + l.ttl) <= 2 * l.limit - 1
  {
    ServedBound(l, rs, key, from, l.ttl);
    assert Ceiling(l.ttl, l.ttl) == 1;
  }

  lemma {:induction false} CountsArePositive(l: Limiter, rs: seq<Request>)
    ensures forall k | k in Counters(l, rs) :: Counters(l, rs)[k].count > 0
    decreases |rs|
  {
    if rs != [] {
      CountsArePositive(l, rs[..|rs| - 1]);
    }
  }

  /** The requests served by the key's counter as it is now, since it began. */
  function ServedByCounter(l: Limiter, rs: seq<Request>, key: Key): nat {
    if rs == [] then 0
    else
      var front, r := rs[..|rs| - 1], rs[|rs| - 1];
      var before := ServedByCounter(l, front, key);
      if r.key != key || r.outcome.Failed? then before
      else
        (if Count(Counters(l, front), key, r.at) == 0 then 0 else before) +
        if Respond(l, Counters(l, front), r) == Served then 1 else 0
  }

  /** One counter never serves more than the limit. */
  lemma {:induction false} ServedPerCounter(l: Limiter, rs: seq<Request>, key: Key)
    requires l.limit >= 0 && l.ttl >= 1 && !l.failOpen
    ensures ServedByCounter(l, rs, key) <= if key in Counters(l, rs) then Min(Counters(l, rs)[key].count, l.limit) else 0
    decreases |rs|
  {
    if rs != [] {
      ServedPerCounter(l, rs[..|rs| - 1], key);
      CountsArePositive(l, rs[..|rs| - 1]);
    }
  }

  /** A limit below one serves nothing. */
  lemma {:induction false} NothingServed(l: Limiter, rs: seq<Request>, key: Key, from: Time, until: Time)
    requires l.limit <= 0 && !l.failOpen
    ensures ServedIn(l, rs, key, from, until) == 0
    decreases |rs|
  {
    if rs != [] {
      NothingServed(l, rs[..|rs| - 1], key, from, until);
      CountsArePositive(l, rs[..|rs| - 1]);
    }
  }

  // ---- The bound is attained ----

  function Burst(key: Key, at: Time, n: nat): (rs: seq<Request>)
    ensures |rs| == n && forall r | r in rs :: r.at == at
  {
    if n == 0 then [] else Burst(key, at, n - 1) + [Request(key, at, Done)]
  }

  lemma OneMore(l: Limiter, rs: seq<Request>, r: Request, key: Key, from: Time, until: Time)
    ensures Counters(l, rs + [r]) == After(l, Counters(l, rs), r)
    ensures ServedIn(l, rs + [r], key, from, until) == ServedIn(l, rs, key, from, until) +
              if r.key == key && from <= r.at < until && Respond(l, Counters(l, rs), r) == Served then 1 else 0
  {
    assert (rs + [r])[..|rs + [r]| - 1] == rs;
  }

  /** Requests that a live counter still has room for are all served. */
  lemma {:induction false} BurstIsServed(l: Limiter, rs: seq<Request>, key: Key, at: Time, n: nat, from: Time, until: Time)
    requires key in Counters(l, rs) && at < Counters(l, rs)[key].expires && 0 < Counters(l, rs)[key].count
    requires Counters(l, rs)[key].count + n <= l.limit && from <= at < until
    ensures var c, d := Counters(l, rs), Counters(l, rs + Burst(key, at, n));
            && key in d && d[key] == Counter(c[key].count + n, c[key].expires)
            && ServedIn(l, rs + Burst(key, at, n), key, from, until) == ServedIn(l, rs, key, from, until) + n
  {
    hide Counters, ServedIn;
    if n == 0 {
      assert rs + Burst(key, at, n) == rs;
    } else {
      BurstIsServed(l, rs, key, at, n - 1, from, until);
      OneMore(l, rs + Burst(key, at, n - 1), Request(key, at, Done), key, from, until);
      assert rs + Burst(key, at, n - 1) + [Request(key, at, Done)] == rs + Burst(key, at, n);
    }
  }

  lemma {:induction false} FirstIsServed(l: Limiter, rs: seq<Request>, key: Key, at: Time, from: Time, until: Time)
    requires l.limit >= 1 && l.ttl >= 1 && Count(Counters(l, rs), key, at) == 0
    ensures var more := rs + [Request(key, at, Done)];
            && key in Counters(l, more) && Counters(l, more)[key] == Counter(1, at + l.ttl)
            && ServedIn(l, more, key, from, until) == ServedIn(l, rs, key, from, until) + if from <= at < until then 1 else 0
  {
    hide Counters, ServedIn;
    OneMore(l, rs, Request(key, at, Done), key, from, until);
  }

  /** One request, the rest of its counter at the end of the window, and a full counter just after it. */
  function WorstRun(l: Limiter, key: Key): seq<Request>
    requires l.limit >= 1 && l.ttl >= 2
  {
    [Request(key, 0, Done)] + Burst(key, l.ttl - 1, l.limit - 1) + [Request(key, l.ttl, Done)] + Burst(key, l.ttl, l.limit - 1)
  }

  lemma BoundIsAttained(l: Limiter, key: Key)
    requires l.limit >= 1 && l.ttl >= 2
    ensures InOrder(WorstRun(l, key))
    ensures ServedIn(l, WorstRun(l, key), key, l.ttl - 1, l.ttl - 1 + l.ttl) == 2 * l.limit - 1
  {
    var from, until := l.ttl - 1, l.ttl - 1 + l.ttl;
    hide Counters, ServedIn, Burst, Count, InOrder;
    NoRequests(l, key, from, until);
    WorstIsInOrder(l, key);
    var first := [Request(key, 0, Done)];
    assert [] + first == first;
    FirstIsServed(l, [], key, 0, from, until);
    var second := first + Burst(key, from, l.limit - 1);
    BurstIsServed(l, first, key, from, l.limit - 1, from, until);
    CountOfExpired(Counters(l, second), key, l.ttl);
    var third := second + [Request(key, l.ttl, Done)];
    FirstIsServed(l, second, key, l.ttl, from, until);
    BurstIsServed(l, third, key, l.ttl, l.limit - 1, from, until);
  }

  lemma NoRequests(l: Limiter, key: Key, from: Time, until: Time)
    ensures Count(Counters(l, []), key, 0) == 0 && ServedIn(l, [], key, from, until) == 0
  {}

  lemma CountOfExpired(counters: map<Key, Counter>, key: Key, now: Time)
    requires key in counters && counters[key].expires <= now
    ensures Count(counters, key, now) == 0
  {}

  lemma WorstIsInOrder(l: Limiter, key: Key)
    requires l.limit >= 1 && l.ttl >= 2
    ensures InOrder(WorstRun(l, key))
  {
    hide Burst;
    var rs := WorstRun(l, key);
    forall i | 0 <= i < |rs|
      ensures rs[i].at == if i == 0 then 0 else if i < l.limit then l.ttl - 1 else l.ttl
    {
      if 1 <= i < l.limit {
        assert rs[i] in Burst(key, l.ttl - 1, l.limit - 1);
      } else if i > l.limit {
        assert rs[i] in Burst(key, l.ttl, l.limit - 1);
      }
    }
  }

  // ---- What the bound needs ----

  /** A window shorter than a second has a `ttl` of zero, and then every request that reaches Redis is served. */
  lemma {:induction false} NoWindowNoLimit(l: Limiter, rs: seq<Request>, r: Request)
    requires l.ttl == 0 && l.limit >= 1 && r.outcome == Done
    ensures Counters(l, rs) == map[] && Respond(l, Counters(l, rs), r) == Served
    decreases |rs|
  {
    if rs != [] {
      NoWindowNoLimit(l, rs[..|rs| - 1], r);
    }
  }
}
