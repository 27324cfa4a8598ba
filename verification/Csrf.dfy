/** Double-submit CSRF protection: the server's middleware, and the browser client with its one retry. */
module Csrf {
  import opened Options

  type Token = string

  // ---- The server ----

  const SAFE_METHODS: set<string> := {"GET", "HEAD", "OPTIONS"}

  datatype Verdict = Passed(setCookies: seq<Token>) | Rejected(error: string)

  /** `ensureToken`: the cookies it sets, `minted` being what the generator gives if it is asked. */
  function EnsureToken(cookie: Option<Token>, minted: Option<Token>): seq<Token> {
    if cookie.Some? && cookie.value != "" then []
    else if minted.Some? then [minted.value]
    else []
  }

  /** `Protect`, up to the handler behind it. */
  function Protect(path: string, verb: string, cookie: Option<Token>, header: Option<Token>, minted: Option<Token>): Verdict {
    if path == "/r/unsubscribe" then Passed([])
    else if verb in SAFE_METHODS then Passed(EnsureToken(cookie, minted))
    else if cookie.None? then Rejected("CSRF token missing")
    else if header.None? || header.value == "" then Rejected("CSRF token header missing")
    else if cookie.value != header.value then Rejected("CSRF token mismatch")
    else Passed([])
  }

  /** Changes of state outside the one public endpoint, which needs no token. */
  predicate Guarded(path: string, verb: string) {
    path != "/r/unsubscribe" && verb != "GET" && verb != "HEAD" && verb != "OPTIONS"
  }

  /** The double submit: a guarded request passes if and only if cookie and header carry the same nonempty token. */
  lemma PassesIff(path: string, verb: string, cookie: Option<Token>, header: Option<Token>, minted: Option<Token>)
    ensures var verdict := Protect(path, verb, cookie, header, minted);
            verdict.Passed? <==> (Guarded(path, verb) ==> cookie.Some? && header == cookie && cookie.value != "")
  {}

  /** A safe request leaves the browser with a token, its own or a new one, unless minting fails. */
  lemma SafeRequestBringsToken(path: string, verb: string, cookie: Option<Token>, header: Option<Token>, minted: Option<Token>)
    requires (verb == "GET" || verb == "HEAD" || verb == "OPTIONS") && path != "/r/unsubscribe"
    ensures var verdict := Protect(path, verb, cookie, header, minted);
            verdict.Passed? && Store(cookie, verdict.setCookies) ==
            if cookie.Some? && cookie.value != "" then cookie else if minted.Some? then minted else cookie
  {}

  /** `GetToken`: the cookies it sets, and the token in its body unless it fails. */
  function GetToken(cookie: Option<Token>, minted: Option<Token>): (seq<Token>, Option<Token>) {
    if cookie.Some? && cookie.value != "" then ([], cookie)
    else if minted.Some? then ([minted.value], minted)
    else ([], None)
  }

  /** A request for a token goes through `Protect` to `GetToken`, and each of them may mint one. */
  function TokenEndpoint(cookie: Option<Token>, ensured: Option<Token>, minted: Option<Token>): (seq<Token>, Option<Token>) {
    var (cookies, body) := GetToken(cookie, minted);
    (Protect("/api/csrf", "GET", cookie, None, ensured).setCookies + cookies, body)
  }

  /** A token that is there is kept and handed out, and otherwise a new one, unless none can be minted. */
  lemma TokenIsHandedOut(jar: Option<Token>, ensured: Option<Token>, minted: Option<Token>)
    ensures var (cookies, body) := TokenEndpoint(jar, ensured, minted);
            if jar.Some? && jar.value != "" then cookies == [] && body == jar else body == minted
  {}

  /** Section 5.3 of RFC 6265: of several cookies of one name, the last one is kept. */
  function Store(jar: Option<Token>, cookies: seq<Token>): Option<Token> {
    if cookies == [] then jar else Some(cookies[|cookies| - 1])
  }

  /** The generator's tokens are never empty. */
  predicate Minted(t: Option<Token>) {
    t.Some? ==> t.value != ""
  }

  /** Whatever was minted on the way, the cookie then kept is the token in the body. */
  lemma LastCookieIsBody(jar: Option<Token>, ensured: Option<Token>, minted: Option<Token>)
    requires Minted(ensured) && Minted(minted)
    ensures var (cookies, body) := TokenEndpoint(jar, ensured, minted);
            body.Some? ==> Store(jar, cookies) == body && body.value != ""
  {}

  // ---- The client ----

  function LowerChar(c: char): char {
    if 'A' <= c <= 'Z' then c + 32 as char else c
  }

  function Lower(s: string): (r: string)
    ensures |r| == |s| && forall i | 0 <= i < |s| :: r[i] == LowerChar(s[i])
  {
    seq(|s|, i requires 0 <= i < |s| => LowerChar(s[i]))
  }

  predicate OccursAt(s: string, i: nat, part: string) {
    i + |part| <= |s| && s[i..i + |part|] == part
  }

  predicate Includes(s: string, part: string) {
    exists i | 0 <= i <= |s| :: OccursAt(s, i, part)
  }

  predicate IsCsrfError(status: int, error: Option<string>) {
    status == 403 && error.Some? && Includes(Lower(error.value), "csrf token")
  }

  lemma RejectionIsCsrfError(path: string, verb: string, cookie: Option<Token>, header: Option<Token>, minted: Option<Token>)
    requires Protect(path, verb, cookie, header, minted).Rejected?
    ensures IsCsrfError(403, Some(Protect(path, verb, cookie, header, minted).error))
  {
    var error := Protect(path, verb, cookie, header, minted).error;
    assert "CSRF token" <= error;
    hide Protect, Includes;
    NamesToken(error);
  }

  lemma NamesToken(error: string)
    requires "CSRF token" <= error
    ensures Includes(Lower(error), "csrf token")
  {
    var lower := Lower(error);
    assert lower[0..10] == "csrf token" by {
      assert forall i | 0 <= i < 10 :: lower[i] == LowerChar("CSRF token"[i]) == "csrf token"[i];
    }
    assert OccursAt(lower, 0, "csrf token");
  }

  /** A fetch of a token: it gets lost, or is answered, perhaps with a body the client cannot read. */
  datatype TokenFetch = TokenLost | TokenAnswered(ensured: Option<Token>, minted: Option<Token>, readable: bool)

  /** A fetch of a request: lost, or delivered, with what the handler answers if `Protect` lets it through. */
  datatype RequestFetch = RequestLost | RequestDelivered(ensured: Option<Token>, status: int, error: Option<string>)

  datatype Result = Answer(status: int, error: Option<string>, passed: bool) | NoAnswer

  predicate Sends(verb: string) {
    verb == "POST" || verb == "PUT" || verb == "DELETE" || verb == "PATCH"
  }

  class Client {
    var jar: Option<Token>
    var csrfToken: Option<Token>
    var retryCount: nat
    ghost var tokenCalls: nat
    ghost var tokenFetches: nat
    ghost var requests: nat
    ghost var requestFetches: nat

    /** The retry counter is never reset, so one token fetch more than calls is made at most, ever. */
    ghost predicate Valid()
      reads this
    {
      && retryCount <= 1 && tokenFetches == tokenCalls + retryCount
      && tokenCalls <= 1 + requests && requestFetches <= 2 * requests
    }

    /** Before `init`, with whatever cookie the browser has kept. */
    constructor (cookie: Option<Token>)
      ensures Valid() && jar == cookie && csrfToken == None
      ensures tokenCalls == requests == 0
    {
      jar, csrfToken, retryCount := cookie, None, 0;
      tokenCalls, tokenFetches, requests, requestFetches := 0, 0, 0, 0;
    }

    method Init(first: TokenFetch, second: TokenFetch)
      requires Valid() && tokenCalls == requests == 0 && Sound(first) && Sound(second)
      modifies this
      ensures Valid() && tokenCalls == 1 && requests == 0
    {
      FetchCSRFToken(first, second);
    }

    method FetchCSRFToken(first: TokenFetch, second: TokenFetch)
      requires retryCount <= 1 && tokenFetches == tokenCalls + retryCount && Sound(first) && Sound(second)
      modifies `jar, `csrfToken, `retryCount, `tokenCalls, `tokenFetches
      ensures retryCount <= 1 && tokenFetches == tokenCalls + retryCount && tokenCalls == old(tokenCalls) + 1
      ensures TokenComes(old(jar), old(retryCount), first, second) ==>
                csrfToken == jar && csrfToken.Some? && csrfToken.value != ""
    {
      tokenCalls := tokenCalls + 1;
      var ok := TryFetch(first);
      if !ok && retryCount < 1 {
        retryCount := retryCount + 1;
        ok := TryFetch(second);
      }
    }

    method TryFetch(o: TokenFetch) returns (ok: bool)
      requires Sound(o)
      modifies `jar, `csrfToken, `tokenFetches
      ensures tokenFetches == old(tokenFetches) + 1 && ok == Succeeds(old(jar), o) && jar == JarAfter(old(jar), o)
      ensures ok ==> csrfToken == jar && csrfToken.Some? && csrfToken.value != ""
      ensures !ok ==> csrfToken == old(csrfToken)
    {
      tokenFetches := tokenFetches + 1;
      if o.TokenLost? {
        return false;
      }
      var (cookies, body) := TokenEndpoint(jar, o.ensured, o.minted);
      LastCookieIsBody(jar, o.ensured, o.minted);
      jar := Store(jar, cookies);
      if body.None? || !o.readable {
        return false;
      }
      csrfToken := body;
      ok := true;
    }

    /**
      One call of `request`. A state-changing request passes `Protect` after at most one retry, from any
      cookie and any token, when its fetches are delivered and the token fetch succeeds, at once or when retried.
    */
    method Request(verb: string, path: string, sends: (RequestFetch, RequestFetch), tokens: (TokenFetch, TokenFetch))
      returns (result: Result)
      requires Valid() && Sound(tokens.0) && Sound(tokens.1)
      modifies this
      ensures Valid() && requests == old(requests) + 1
      ensures requestFetches <= old(requestFetches) + 2 && tokenCalls <= old(tokenCalls) + 1
      ensures Sends(verb) && path != "/r/unsubscribe" && result.Answer? && result.passed ==>
                jar.Some? && jar == csrfToken && jar.value != ""
      ensures Sends(verb) && sends.0.RequestDelivered? && sends.0.status != 403 &&
              old(csrfToken) == old(jar) && old(jar).Some? && old(jar).value != "" ==>
                result.Answer? && result.passed && tokenCalls == old(tokenCalls)
      ensures Sends(verb) && sends.0.RequestDelivered? && sends.1.RequestDelivered? &&
              TokenComes(old(jar), old(retryCount), tokens.0, tokens.1) ==>
                result.Answer? && result.passed
    {
      requests := requests + 1;
      result := Fetch(verb, path, sends.0);
      if result.Answer? && IsCsrfError(result.status, result.error) {
        FetchCSRFToken(tokens.0, tokens.1);
        result := Fetch(verb, path, sends.1);
      }
    }

    method Fetch(verb: string, path: string, send: RequestFetch) returns (result: Result)
      modifies `jar, `requestFetches
      ensures requestFetches == old(requestFetches) + 1
      ensures send.RequestLost? ==> result.NoAnswer? && jar == old(jar)
      ensures send.RequestDelivered? ==> result.Answer?
      ensures result.Answer? && !result.passed ==> IsCsrfError(result.status, result.error) && jar == old(jar)
      ensures send.RequestDelivered? && Sends(verb) ==> jar == old(jar)
      ensures send.RequestDelivered? && Sends(verb) ==>
                (result.passed <==> path == "/r/unsubscribe" || (csrfToken == jar && csrfToken.Some? && csrfToken.value != ""))
      ensures result.Answer? && result.passed ==> result.status == send.status && result.error == send.error
    {
      requestFetches := requestFetches + 1;
      if send.RequestLost? {
        return NoAnswer;
      }
      var header := if csrfToken.Some? && csrfToken.value != "" && Sends(verb) then csrfToken else None;
      var verdict := Protect(path, verb, jar, header, send.ensured);
      if verdict.Rejected? {
        RejectionIsCsrfError(path, verb, jar, header, send.ensured);
        return Answer(403, Some(verdict.error), false);
      }
      jar := Store(jar, verdict.setCookies);
      result := Answer(send.status, send.error, true);
    }
  }

  predicate Sound(o: TokenFetch) {
    o.TokenAnswered? ==> Minted(o.ensured) && Minted(o.minted)
  }

  /** The fetch delivers a token that the client can read. */
  predicate Succeeds(jar: Option<Token>, o: TokenFetch) {
    o.TokenAnswered? && o.readable && TokenEndpoint(jar, o.ensured, o.minted).1.Some?
  }

  /** The cookies of an answer are kept even when its body is of no use. */
  function JarAfter(jar: Option<Token>, o: TokenFetch): Option<Token> {
    if o.TokenLost? then jar else Store(jar, TokenEndpoint(jar, o.ensured, o.minted).0)
  }

  /** `fetchCSRFToken` gets a token: with its first fetch, or with the retry that the client has once in its life. */
  predicate TokenComes(jar: Option<Token>, retries: nat, first: TokenFetch, second: TokenFetch) {
    Succeeds(jar, first) || (retries < 1 && Succeeds(JarAfter(jar, first), second))
  }
}
