/** When the base URL has an authority of section 3.2 of RFC 3986, and when it has none. */
module UriAuthority {
  import opened Hosts
  import opened HostSanitizer
  import opened Options

  // ---- The grammar, without user information ----

  predicate IsHexDigit(c: char) {
    '0' <= c <= '9' || 'a' <= c <= 'f' || 'A' <= c <= 'F'
  }

  /** Unreserved characters and sub-delimiters. */
  predicate IsNameChar(c: char) {
    || 'a' <= c <= 'z' || 'A' <= c <= 'Z' || '0' <= c <= '9' || c in "-._~"
    || c in "!$&'()*+,;="
  }

  /** `reg-name`, which an `IPv4address` is too; not empty, as http requires. */
  predicate IsRegName(s: string) {
    && s != ""
    && forall i | 0 <= i < |s| ::
         IsNameChar(s[i]) || (s[i] == '%' && i + 2 < |s| && IsHexDigit(s[i + 1]) && IsHexDigit(s[i + 2]))
  }

  /** `IPvFuture`. */
  predicate IsFuture(s: string) {
    && s != "" && (s[0] == 'v' || s[0] == 'V')
    && exists dot | 2 <= dot < |s| - 1 ::
         && s[dot] == '.' && (forall i | 1 <= i < dot :: IsHexDigit(s[i]))
         && (forall i | dot < i < |s| :: IsNameChar(s[i]) || s[i] == ':')
  }

  /** `IP-literal` without its brackets; the library's literals with colons are the `IPv6address`es. */
  predicate IsLiteral(lib: Library, s: string) {
    (lib.isIP(s) && ':' in s) || IsFuture(s)
  }

  predicate InBrackets(lib: Library, s: string) {
    |s| >= 2 && s[0] == '[' && s[|s| - 1] == ']' && IsLiteral(lib, s[1..|s| - 1])
  }

  ghost predicate IsAuthority(lib: Library, r: string) {
    exists host, port :: IsHostAndPort(lib, r, host, port)
  }

  predicate IsHostAndPort(lib: Library, r: string, host: string, port: string) {
    && (IsRegName(host) || InBrackets(lib, host))
    && (r == host || (r == host + ":" + port && AllDigits(port)))
  }

  // ---- What an authority looks like ----

  lemma RegNameChars(s: string)
    requires IsRegName(s)
    ensures forall i | 0 <= i < |s| :: s[i] != ':' && s[i] != '['
  {}

  /** Outside brackets, nothing but digits follows a colon. */
  lemma PlainAuthority(lib: Library, r: string, i: nat)
    requires IsAuthority(lib, r) && r[0] != '[' && i < |r| && r[i] == ':'
    ensures AllDigits(r[i + 1..])
  {
    var host, port :| IsHostAndPort(lib, r, host, port);
    assert host[0] == r[0];
    RegNameChars(host);
    hide IsRegName, InBrackets;
    assert forall k | 0 <= k < |host| :: r[k] == host[k];
    assert r == host + ":" + port && r[|host| + 1..] == port;
    assert forall k | |host| < k < |r| :: r[k] == port[k - |host| - 1];
  }

  lemma LiteralChars(lib: Library, s: string)
    requires Sound(lib) && IsLiteral(lib, s)
    ensures ']' !in s
  {}

  lemma HostInBrackets(lib: Library, host: string) returns (b: string)
    requires Sound(lib) && (IsRegName(host) || InBrackets(lib, host)) && host[0] == '['
    ensures host == "[" + b + "]" && IsLiteral(lib, b) && ']' !in b
  {
    if IsRegName(host) {
      RegNameChars(host);
    }
    hide IsRegName, IsLiteral;
    b := host[1..|host| - 1];
    LiteralChars(lib, b);
  }

  /** In brackets there is a literal, and after them a port of digits or nothing. */
  lemma BracketedAuthority(lib: Library, a: string, rest: string)
    requires Sound(lib) && IsAuthority(lib, "[" + a + "]" + rest) && ']' !in a
    ensures IsLiteral(lib, a) && (rest == "" || (rest[0] == ':' && AllDigits(rest[1..])))
  {
    var r := "[" + a + "]" + rest;
    hide IsRegName, InBrackets, IsLiteral;
    var host, port :| IsHostAndPort(lib, r, host, port);
    NotEmpty(lib, host);
    assert r[0] == '[' && host[0] == r[0];
    var b := HostInBrackets(lib, host);
    hide Sound, IsHostAndPort;
    if r == host {
      assert r == "[" + b + "]" + "";
      SameBrackets(a, rest, b, "");
    } else {
      assert r == "[" + b + "]" + (":" + port) && (":" + port)[1..] == port;
      SameBrackets(a, rest, b, ":" + port);
    }
  }

  lemma NotEmpty(lib: Library, host: string)
    requires IsRegName(host) || InBrackets(lib, host)
    ensures host != ""
  {}

  lemma SameBrackets(a: string, rest: string, b: string, tail: string)
    requires "[" + a + "]" + rest == "[" + b + "]" + tail && ']' !in a && ']' !in b
    ensures a == b && rest == tail
  {
    var r, s := "[" + a + "]" + rest, "[" + b + "]" + tail;
    assert r[|a| + 1] == ']' && s[|b| + 1] == ']';
    assert forall k | 1 <= k <= |a| :: r[k] == a[k - 1] != ']';
    assert forall k | 1 <= k <= |b| :: s[k] == b[k - 1] != ']';
    assert r[1..|a| + 1] == a && s[1..|b| + 1] == b;
    assert r[|a| + 2..] == rest && s[|b| + 2..] == tail;
  }

  // ---- Each form of a result ----

  lemma HostIsRegName(lib: Library, host: string)
    requires Sound(lib) && IsHost(lib, host) && ':' !in host
    ensures IsRegName(host)
  {
    HostChars(lib, host);
    hide Sound, IsHostname;
    assert forall i | 0 <= i < |host| :: IsNameChar(host[i]);
  }

  lemma BareIff(lib: Library, host: string)
    requires Sound(lib) && IsHost(lib, host)
    ensures IsAuthority(lib, host) <==> ':' !in host
  {
    if ':' !in host {
      HostIsRegName(lib, host);
      assert IsHostAndPort(lib, host, host, "");
    } else {
      HostChars(lib, host);
      assert lib.isIP(host) && host[0] != '[' && Count(host, ':') != 1;
      hide Sound, IsHostname;
      var i, j := TwoColons(host);
      assert !AllDigits(host[i + 1..]) by {
        assert host[i + 1..][j - i - 1] == ':';
      }
      if IsAuthority(lib, host) {
        PlainAuthority(lib, host, i);
      }
    }
  }

  lemma TwoColons(s: string) returns (i: nat, j: nat)
    requires ':' in s && Count(s, ':') != 1
    ensures i < j < |s| && s[i] == ':' && s[j] == ':'
  {
    i := Index(s, ':');
    assert s == s[..i] + [':'] + s[i + 1..];
    if ':' !in s[i + 1..] {
      CountJoined(s[..i], ':', s[i + 1..]);
    }
    j := i + 1 + Index(s[i + 1..], ':');
  }

  lemma BracketedIff(lib: Library, host: string)
    requires Sound(lib) && lib.isIP(host)
    ensures IsAuthority(lib, "[" + host + "]") <==> ':' in host
  {
    var r := "[" + host + "]";
    assert IsAddressChar(host[0]) && forall i | 0 <= i < |host| :: IsAddressChar(host[i]);
    if ':' in host {
      assert r[1..|r| - 1] == host;
      assert IsHostAndPort(lib, r, r, "");
    } else if IsAuthority(lib, r) {
      assert r + "" == r;
      BracketedAuthority(lib, host, "");
    }
  }

  lemma PortDigits(port: string)
    requires IsPortText(port)
    ensures port != "" && (AllDigits(port) <==> port[0] != '+')
  {}

  lemma WithPortIff(lib: Library, host: string, port: string)
    requires Sound(lib) && IsHost(lib, host) && IsPortText(port)
    ensures IsAuthority(lib, JoinHostPort(host, port)) <==> port[0] != '+'
  {
    PortDigits(port);
    HostChars(lib, host);
    hide IsPortText, IsHostname;
    if ':' in host {
      LiteralWithPort(lib, host, port);
    } else {
      HostIsRegName(lib, host);
      hide Sound;
      NameWithPort(lib, host, port);
    }
  }

  lemma NameWithPort(lib: Library, host: string, port: string)
    requires IsRegName(host)
    ensures IsAuthority(lib, host + ":" + port) <==> AllDigits(port)
  {
    RegNameChars(host);
    assert host != "";
    hide IsRegName;
    var r := host + ":" + port;
    assert r[|host| + 1..] == port && r[0] != '[';
    if AllDigits(port) {
      assert IsHostAndPort(lib, r, host, port);
    } else if IsAuthority(lib, r) {
      PlainAuthority(lib, r, |host|);
    }
  }

  lemma LiteralWithPort(lib: Library, host: string, port: string)
    requires Sound(lib) && lib.isIP(host) && ':' in host
    ensures IsAuthority(lib, "[" + host + "]:" + port) <==> AllDigits(port)
  {
    LiteralChars(lib, host);
    var b, r := "[" + host + "]", "[" + host + "]:" + port;
    assert r == b + ":" + port;
    if AllDigits(port) {
      hide Sound, AllDigits;
      assert b[1..|b| - 1] == host;
      assert IsHostAndPort(lib, r, b, port);
    } else {
      assert r == "[" + host + "]" + (":" + port) && (":" + port)[1..] == port;
      hide AllDigits, IsLiteral;
      if IsAuthority(lib, r) {
        BracketedAuthority(lib, host, ":" + port);
      }
    }
  }

  // ---- From the input ----

  /**
    The inputs, trimmed, whose results are no authorities: a port with a plus sign, an IP literal with
    colons outside brackets, or in brackets before an empty port, and one without colons in brackets.
  */
  predicate Spoils(raw: string) {
    var parts := SplitHostPort(raw);
    if raw != "" && raw[0] == '[' then
      if parts.Some? then
        var (host, port) := parts.value;
        if port == "" then ':' in host else port[0] == '+'
      else ':' !in raw
    else Count(raw, ':') > 1 || (parts.Some? && parts.value.1 != "" && parts.value.1[0] == '+')
  }

  lemma FinishedIff(lib: Library, host: string, port: string)
    requires Sound(lib) && Finished(lib, host, port) != ""
    ensures IsAuthority(lib, Finished(lib, host, port)) <==> if port == "" then ':' !in host else port[0] != '+'
  {
    var lower := lib.lower(lib.trim(host));
    assert ':' in lower <==> ':' in host;
    PortIsText(port);
    hide Sound, IsHost, IsPort, IsPortText, IsAuthority;
    if port == "" {
      BareIff(lib, lower);
    } else {
      WithPortIff(lib, lower, port);
    }
  }

  lemma OneColon(raw: string)
    requires Count(raw, ':') <= 1 && SplitHostPort(raw).Some? && raw[0] != '['
    ensures ':' !in SplitHostPort(raw).value.0
  {}

  lemma BetweenBrackets(raw: string)
    requires |raw| >= 2 && raw[0] == '[' && raw[|raw| - 1] == ']'
    ensures var host := raw[1..|raw| - 1]; raw == "[" + host + "]" && (':' in raw <==> ':' in host)
  {
    var host := raw[1..|raw| - 1];
    assert forall i | 1 <= i < |raw| - 1 :: raw[i] == host[i - 1];
    assert forall i | 0 <= i < |host| :: host[i] == raw[i + 1];
  }

  lemma BracketedResult(lib: Library, raw: string)
    requires Sound(lib) && raw != "" && raw[0] == '[' && Bracketed(lib, raw) != ""
    ensures IsAuthority(lib, Bracketed(lib, raw)) <==> !Spoils(raw)
  {
    hide Finished, SplitHostPort, IsAuthority;
    var parts := SplitHostPort(raw);
    if parts.None? {
      var host := raw[1..|raw| - 1];
      BracketedIff(lib, host);
      hide Sound;
      BetweenBrackets(raw);
    } else {
      hide Sound;
      FinishedIff(lib, parts.value.0, parts.value.1);
    }
  }

  lemma PlainResult(lib: Library, raw: string)
    requires Sound(lib) && raw != "" && raw[0] != '[' && Plain(lib, raw) != ""
    ensures IsAuthority(lib, Plain(lib, raw)) <==> !Spoils(raw)
  {
    var parts := SplitHostPort(raw);
    CountIs(raw, ':');
    hide Finished, Count, SplitHostPort, IsAuthority;
    if Count(raw, ':') == 1 {
      assert !lib.isIP(raw);
      hide Sound;
      FinishedIff(lib, parts.value.0, parts.value.1);
      OneColon(raw);
    } else if ':' in raw {
      hide Sound;
      BareIff(lib, raw);
    } else {
      hide Sound;
      assert parts.None? by {
        NoColon(raw);
      }
      FinishedIff(lib, raw, "");
    }
  }

  lemma NoColon(raw: string)
    requires ':' !in raw
    ensures SplitHostPort(raw).None?
  {}

  /** A nonempty result of the sanitizer is an authority if and only if the input is none of those. */
  lemma SanitizedIsAuthorityIff(lib: Library, input: string)
    requires Sound(lib) && Sanitized(lib, input) != ""
    ensures IsAuthority(lib, Sanitized(lib, input)) <==> !Spoils(lib.trim(input))
  {
    hide Sound, Spoils, Bracketed, Plain, IsAuthority;
    var raw := lib.trim(input);
    if raw[0] == '[' {
      BracketedResult(lib, raw);
    } else {
      PlainResult(lib, raw);
    }
  }

  /** The input that decides the host of the base URL. */
  ghost function Deciding(lib: Library, host: string, forwardedHost: string): string {
    var forwarded := FirstForwarded(lib, forwardedHost);
    if Sanitized(lib, forwarded) != "" then forwarded
    else if Sanitized(lib, host) != "" then host
    else "localhost"
  }

  /** The base URL has an authority if and only if the header that decides its host is none of those. */
  lemma BaseUrlHasAuthorityIff(lib: Library, tls: bool, host: string, forwardedProto: string, forwardedHost: string)
    returns (scheme: string, r: string)
    requires Sound(lib)
    ensures BaseUrl(lib, tls, host, forwardedProto, forwardedHost) == scheme + "://" + r
    ensures (scheme == "http" || scheme == "https") && r == Sanitized(lib, Deciding(lib, host, forwardedHost)) != ""
    ensures IsAuthority(lib, r) <==> !Spoils(lib.trim(Deciding(lib, host, forwardedHost)))
  {
    hide Sanitized, Sound, Spoils, IsAuthority, Scheme, BaseHost, Deciding;
    var input := Deciding(lib, host, forwardedHost);
    DecidingDecides(lib, host, forwardedHost);
    scheme, r := Scheme(lib, tls, forwardedProto), Sanitized(lib, input);
    SanitizedIsAuthorityIff(lib, input);
  }

  lemma DecidingDecides(lib: Library, host: string, forwardedHost: string)
    requires Sound(lib)
    ensures BaseHost(lib, host, forwardedHost) == Sanitized(lib, Deciding(lib, host, forwardedHost)) != ""
  {
    hide Sanitized, Sound;
    LocalhostIsSafe(lib);
  }

  // ---- Inputs that spoil the base URL ----

  lemma PlusEightyIsPort()
    ensures IsPortText("+80") && IsPort("+80")
  {
    assert "+80"[1..] == "80" && "80"[..1] == "8" && DecimalValue("8") == 8;
    PortIsText("+80");
  }

  lemma SignedIsKept(lib: Library, host: string, port: string)
    requires Sound(lib) && IsHost(lib, host) && ':' !in host && !HasUpper(host)
    requires IsPort(port) && IsPortText(port) && port[0] == '+'
    ensures var r := host + ":" + port; Sanitized(lib, r) == r && Spoils(r)
  {
    var r := host + ":" + port;
    HostChars(lib, host);
    hide Sound, IsHostname, Sanitized, Count, IsPort, IsPortText, SplitHostPort, HasUpper;
    SplitOfPlain(host, port);
    SafeChars(lib, r, host, port);
    FixedWithPort(lib, r, host, port);
  }

  /** A signed port passes, although no URL has one. */
  lemma SignedPortPasses(lib: Library)
    requires Sound(lib)
    ensures Sanitized(lib, "localhost:+80") == "localhost:+80" && Spoils("localhost:+80")
  {
    hide Sound, IsHostname, Sanitized, Spoils, IsPort, IsPortText;
    LocalhostIsHostname();
    PlusEightyIsPort();
    assert "localhost" + ":" + "+80" == "localhost:+80";
    SignedIsKept(lib, "localhost", "+80");
  }

  /** An IPv6 literal passes bare. */
  lemma BareLiteralPasses(lib: Library)
    requires Sound(lib) && lib.isIP("::1")
    ensures Sanitized(lib, "::1") == "::1" && Spoils("::1")
  {
    var r := "::1";
    assert r[0] == ':' && Count(r, ':') > 1 by {
      CountIs(r, ':');
    }
    hide Sanitized, SplitHostPort, Count, HasForbidden, HasScheme, Sound;
    SafeChars(lib, r, r, "");
    FixedBare(lib, r);
  }

  /** Every literal without capitals loses its brackets before an empty port. */
  lemma BracketsAreLost(lib: Library, host: string)
    requires Sound(lib) && lib.isIP(host) && ':' in host && !HasUpper(host)
    ensures var s := "[" + host + "]:"; Sanitized(lib, s) == host && Spoils(s)
  {
    var s := "[" + host + "]:";
    HostChars(lib, host);
    BracketsAround(host, "");
    assert "[" + host + "]:" + "" == s;
    FinishedIsFixed(lib, host, "");
    hide SplitHostPort, IsHostname, HasUpper;
    SafeText(s);
    assert lib.trim(s) == s;
  }

  /** An IPv4 literal passes in brackets. */
  lemma BracketedIPv4Passes(lib: Library)
    requires Sound(lib) && lib.isIP("1.2.3.4")
    ensures Sanitized(lib, "[1.2.3.4]") == "[1.2.3.4]" && Spoils("[1.2.3.4]")
  {
    var host, r := "1.2.3.4", "[1.2.3.4]";
    assert r == "[" + host + "]" && ':' !in host && ':' !in r;
    HostChars(lib, host);
    hide Sanitized, Count, SplitHostPort, HasForbidden, HasScheme, Sound, AllGraphic;
    NoSplitOfBrackets(host);
    SafeChars(lib, r, host, "");
    FixedInBrackets(lib, host);
  }
}
