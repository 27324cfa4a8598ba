/** `sanitizeHost` and the base URL made with it. */
module HostSanitizer {
  import opened Hosts
  import opened Options

  // ---- The sanitizer ----

  predicate IsForbidden(c: char) {
    c == ' ' || c == '\t' || c == '\r' || c == '\n' || c == '/' || c == '\\' || c == '?' || c == '#' || c == '@'
  }

  predicate HasForbidden(s: string) {
    exists i | 0 <= i < |s| :: IsForbidden(s[i])
  }

  predicate SchemeAt(s: string, i: nat) {
    i + 3 <= |s| && s[i] == ':' && s[i + 1] == '/' && s[i + 2] == '/'
  }

  predicate HasScheme(s: string) {
    exists i | 0 <= i < |s| :: SchemeAt(s, i)
  }

  ghost predicate IsHost(lib: Library, s: string) {
    lib.isIP(s) || IsHostname(s)
  }

  /** The host in lower case and its port, when they are what they should be. */
  ghost function Finished(lib: Library, host: string, port: string): string {
    var lower := lib.lower(lib.trim(host));
    if (port != "" && !IsPort(port)) || lib.trim(host) == "" || !IsHost(lib, lower) then ""
    else if port == "" then lower
    else JoinHostPort(lower, port)
  }

  ghost function Sanitized(lib: Library, input: string): string {
    var raw := lib.trim(input);
    if raw == "" || HasScheme(raw) || HasForbidden(raw) then ""
    else if raw[0] == '[' then Bracketed(lib, raw)
    else Plain(lib, raw)
  }

  ghost function Plain(lib: Library, raw: string): string {
    if Count(raw, ':') == 1 then
      var parts := SplitHostPort(raw);
      if parts.Some? then Finished(lib, parts.value.0, parts.value.1)
      else if lib.isIP(raw) then raw
      else ""
    else if ':' in raw then if lib.isIP(raw) then raw else ""
    else Finished(lib, raw, "")
  }

  ghost function Bracketed(lib: Library, raw: string): string
    requires raw != "" && raw[0] == '['
  {
    var parts := SplitHostPort(raw);
    if parts.Some? then Finished(lib, parts.value.0, parts.value.1)
    else if raw[|raw| - 1] == ']' && lib.isIP(raw[1..|raw| - 1]) then "[" + raw[1..|raw| - 1] + "]"
    else ""
  }

  /** `sanitizeHost`, as it reassigns its host and port. */
  method SanitizeHost(lib: Library, input: string) returns (r: string)
    ensures r == Sanitized(lib, input)
  {
    var raw := lib.trim(input);
    if raw == "" {
      return "";
    }
    if HasScheme(raw) || HasForbidden(raw) {
      return "";
    }
    var host, port := raw, "";
    if raw[0] == '[' {
      var parts := SplitHostPort(raw);
      if parts.None? {
        if raw[|raw| - 1] == ']' {
          var trimmed := raw[1..|raw| - 1];
          if lib.isIP(trimmed) {
            return "[" + trimmed + "]";
          }
        }
        return "";
      }
      host, port := parts.value.0, parts.value.1;
    } else if Count(raw, ':') == 1 {
      var parts := SplitHostPort(raw);
      if parts.Some? {
        host, port := parts.value.0, parts.value.1;
      } else {
        return if lib.isIP(raw) then raw else "";
      }
    } else if ':' in raw {
      return if lib.isIP(raw) then raw else "";
    }
    if port != "" && !IsPort(port) {
      return "";
    }
    host := lib.trim(host);
    if host == "" {
      return "";
    }
    var lower := lib.lower(host);
    var valid := lib.isIP(lower);
    if !valid {
      valid := IsValidHostname(lower);
    }
    if !valid {
      return "";
    }
    r := if port == "" then lower else JoinHostPort(lower, port);
  }

  // ---- What comes out ----

  predicate IsHostChar(c: char) {
    IsAddressChar(c) || IsAlphaNum(c) || c == '-'
  }

  predicate AllHostChars(s: string) {
    s != "" && forall i | 0 <= i < |s| :: IsHostChar(s[i])
  }

  lemma HostChars(lib: Library, s: string)
    requires Sound(lib) && IsHost(lib, s)
    ensures AllHostChars(s)
    ensures !lib.isIP(s) ==> !HasUpper(s) && ':' !in s
  {
    if !lib.isIP(s) {
      var labels: seq<string> :| labels != [] && AllLabels(labels) && s == Join(labels);
      JoinedChars(labels);
    }
  }

  lemma {:induction false} JoinedChars(labels: seq<string>)
    requires labels != [] && AllLabels(labels)
    ensures Join(labels) != "" && forall i | 0 <= i < |Join(labels)| ::
              var c := Join(labels)[i]; IsAlphaNum(c) || c == '-' || c == '.'
    decreases |labels|
  {
    assert IsLabel(labels[0]);
    if |labels| > 1 {
      JoinedChars(labels[1..]);
    }
  }

  lemma PortChars(s: string)
    requires IsPort(s)
    ensures s != "" && (forall i | 0 <= i < |s| :: '0' <= s[i] <= '9' || s[i] == '+') && ':' !in s && NoBrackets(s)
  {}

  /** A result in one of its forms, with the host and port in it. */
  ghost predicate IsSafe(lib: Library, r: string, host: string, port: string) {
    && IsHost(lib, host)
    && (|| (r == host && (':' in host || !HasUpper(host)))
        || (r == "[" + host + "]" && lib.isIP(host))
        || (r == JoinHostPort(host, port) && IsPortText(port) && !HasUpper(host)))
  }

  /** The characters of a result. */
  predicate IsSafeChar(c: char) {
    IsHostChar(c) || c == '[' || c == ']' || c == '+'
  }

  lemma SafeText(r: string)
    requires forall i | 0 <= i < |r| :: IsSafeChar(r[i])
    ensures AllGraphic(r) && !HasForbidden(r) && !HasScheme(r)
  {}

  lemma SafeChars(lib: Library, r: string, host: string, port: string)
    requires Sound(lib) && IsSafe(lib, r, host, port)
    ensures r != "" && AllGraphic(r) && !HasForbidden(r) && !HasScheme(r)
  {
    hide IsHostname, Count, IsPort, IsPortText;
    HostChars(lib, host);
    hide Sound;
    if r == JoinHostPort(host, port) && IsPortText(port) {
      PortIsText(port);
      PortChars(port);
    }
    assert forall i | 0 <= i < |r| :: IsSafeChar(r[i]);
    SafeText(r);
  }

  lemma FinishedIsSafe(lib: Library, host: string, port: string) returns (h: string)
    requires Sound(lib) && Finished(lib, host, port) != ""
    ensures IsSafe(lib, Finished(lib, host, port), h, port)
  {
    h := lib.lower(lib.trim(host));
    PortIsText(port);
  }

  /**
    A nonempty result is an IP literal, bare or in brackets, or a host name, or one of them with a port
    from 1 to 65535; it is printable and has no space, slash, backslash, question mark, number sign or at sign.
  */
  lemma SanitizedIsSafe(lib: Library, input: string) returns (host: string, port: string)
    requires Sound(lib) && Sanitized(lib, input) != ""
    ensures IsSafe(lib, Sanitized(lib, input), host, port)
    ensures AllGraphic(Sanitized(lib, input)) && !HasForbidden(Sanitized(lib, input))
  {
    hide IsHostname, Count, IsPort, IsPortText, Finished;
    var raw, r := lib.trim(input), Sanitized(lib, input);
    var parts := SplitHostPort(raw);
    host, port := raw, "";
    if raw[0] == '[' && parts.None? {
      host := raw[1..|raw| - 1];
    } else if raw[0] == '[' || (Count(raw, ':') == 1 && parts.Some?) {
      port := parts.value.1;
      host := FinishedIsSafe(lib, parts.value.0, port);
    } else if ':' !in raw {
      host := FinishedIsSafe(lib, raw, "");
    }
    SafeChars(lib, r, host, port);
  }

  // ---- Once is enough ----

  lemma {:induction false} CountIs(s: string, c: char)
    ensures Count(s, c) == 0 <==> c !in s
    ensures Count(s, c) == 1 ==> forall i, j | 0 <= i < |s| && 0 <= j < |s| && s[i] == c && s[j] == c :: i == j
    decreases |s|
  {
    if s != "" {
      CountIs(s[1..], c);
      assert forall i | 1 <= i < |s| :: s[i] == s[1..][i - 1];
    }
  }

  lemma {:induction false} CountJoined(s: string, c: char, t: string)
    requires c !in s && c !in t
    ensures Count(s + [c] + t, c) == 1
    decreases |s|
  {
    var u := s + [c] + t;
    if s == "" {
      CountIs(t, c);
      assert u[1..] == t;
    } else {
      CountJoined(s[1..], c, t);
      assert u[1..] == s[1..] + [c] + t;
    }
  }

  lemma {:induction false} LastIndexIs(s: string, c: char, t: string)
    requires c !in t
    ensures LastIndex(s + [c] + t, c) == |s|
    decreases |t|
  {
    var u := s + [c] + t;
    if t != "" {
      LastIndexIs(s, c, t[..|t| - 1]);
      assert u[..|u| - 1] == s + [c] + t[..|t| - 1];
    }
  }

  predicate NoBrackets(s: string) {
    forall i | 0 <= i < |s| :: s[i] != '[' && s[i] != ']'
  }

  /** A plain host and port come apart again. */
  lemma SplitOfPlain(host: string, port: string)
    requires NoBrackets(host) && ':' !in host && NoBrackets(port) && ':' !in port
    ensures var s := host + ":" + port;
            Count(s, ':') == 1 && SplitHostPort(s) == Some((host, port)) && s[0] != '['
  {
    hide Count, LastIndex;
    CountJoined(host, ':', port);
    LastIndexIs(host, ':', port);
    var s := host + ":" + port;
    assert s[..|host|] == host && s[|host| + 1..] == port;
  }

  /** And so do a host with colons, in brackets, and its port. */
  lemma BracketsAround(host: string, port: string)
    requires NoBrackets(host) && NoBrackets(port) && ':' !in port
    ensures SplitHostPort("[" + host + "]:" + port) == Some((host, port))
  {
    var s := "[" + host + "]:" + port;
    LastColon(host, port);
    Brackets(host, port);
    hide LastIndex, Index, NoBrackets, SplitHostPort;
    SplitAtBracket(s, |host| + 1);
  }

  lemma LastColon(host: string, port: string)
    requires ':' !in port
    ensures LastIndex("[" + host + "]:" + port, ':') == |host| + 2
  {
    hide LastIndex;
    BracketThenColon("[" + host);
    LastIndexIs("[" + host + "]", ':', port);
  }

  lemma BracketThenColon(s: string)
    ensures s + "]:" == s + "]" + [':']
  {}

  lemma Brackets(host: string, port: string)
    requires NoBrackets(host) && NoBrackets(port)
    ensures var s, end := "[" + host + "]:" + port, |host| + 1;
            && Index(s, ']') == end && s[1..end] == host && s[end + 2..] == port
            && (forall j | 1 <= j < |s| :: s[j] != '[') && forall j | end + 1 <= j < |s| :: s[j] != ']'
  {
    hide Index;
    var s, end := "[" + host + "]:" + port, |host| + 1;
    assert forall j | 1 <= j < end :: s[j] == host[j - 1];
    assert forall j | end + 2 <= j < |s| :: s[j] == port[j - end - 2];
  }

  lemma SplitAtBracket(s: string, end: nat)
    requires end + 2 <= |s| && s[0] == '[' && LastIndex(s, ':') == end + 1 && Index(s, ']') == end
    requires (forall j | 1 <= j < |s| :: s[j] != '[') && forall j | end + 1 <= j < |s| :: s[j] != ']'
    ensures SplitHostPort(s) == Some((s[1..end], s[end + 2..]))
  {
    hide LastIndex, Index;
  }

  lemma NoSplitOfBrackets(host: string)
    requires AllHostChars(host)
    ensures SplitHostPort("[" + host + "]") == None
  {
    var s := "[" + host + "]";
    assert s[|host| + 1] == ']' && forall j | 1 <= j < |host| + 1 :: s[j] == host[j - 1];
    assert Index(s, ']') == |host| + 1;
  }

  lemma FinishedIsFixed(lib: Library, host: string, port: string)
    requires Sound(lib) && IsHost(lib, host) && !HasUpper(host) && (port == "" || IsPort(port))
    ensures Finished(lib, host, port) == if port == "" then host else JoinHostPort(host, port)
  {
    HostChars(lib, host);
    hide IsHostname, IsPort, Count;
    assert AllGraphic(host);
  }

  lemma Trimmed(lib: Library, r: string)
    requires Sound(lib) && AllGraphic(r)
    ensures lib.trim(r) == r
  {}

  lemma HostHasNoBrackets(s: string)
    requires AllHostChars(s)
    ensures NoBrackets(s)
  {}

  lemma FixedWithPort(lib: Library, r: string, host: string, port: string)
    requires Sound(lib) && IsHost(lib, host) && !HasUpper(host) && IsPort(port) && r == JoinHostPort(host, port)
    requires AllGraphic(r) && !HasForbidden(r) && !HasScheme(r)
    ensures Sanitized(lib, r) == r
  {
    HostChars(lib, host);
    FinishedIsFixed(lib, host, port);
    Trimmed(lib, r);
    hide Sound, IsHostname, Count, IsPort, SplitHostPort, AllGraphic, HasForbidden, HasScheme, HasUpper, Finished,
         AllHostChars;
    PortChars(port);
    HostHasNoBrackets(host);
    if ':' in host {
      BracketsAround(host, port);
    } else {
      SplitOfPlain(host, port);
    }
  }

  lemma FixedInBrackets(lib: Library, host: string)
    requires Sound(lib) && lib.isIP(host)
    requires var r := "[" + host + "]"; AllGraphic(r) && !HasForbidden(r) && !HasScheme(r)
    ensures Sanitized(lib, "[" + host + "]") == "[" + host + "]"
  {
    HostChars(lib, host);
    var r := "[" + host + "]";
    Trimmed(lib, r);
    hide Sound, IsHostname, Count, SplitHostPort, AllGraphic, HasForbidden, HasScheme;
    NoSplitOfBrackets(host);
    assert r[1..|r| - 1] == host;
  }

  lemma FixedBare(lib: Library, r: string)
    requires Sound(lib) && IsHost(lib, r) && (':' in r || !HasUpper(r))
    requires AllGraphic(r) && !HasForbidden(r) && !HasScheme(r)
    ensures Sanitized(lib, r) == r
  {
    HostChars(lib, r);
    CountIs(r, ':');
    if ':' !in r {
      FinishedIsFixed(lib, r, "");
    }
    assert lib.trim(r) == r && (lib.isIP(r) ==> Count(r, ':') != 1);
    hide Sound, IsHostname, Count, SplitHostPort, AllGraphic, HasForbidden, HasScheme, Finished;
  }

  /** Each form of a result is taken as it is. */
  lemma SafeIsFixed(lib: Library, r: string, host: string, port: string)
    requires Sound(lib) && IsSafe(lib, r, host, port)
    ensures Sanitized(lib, r) == r
  {
    SafeChars(lib, r, host, port);
    hide Sound, IsHostname, Sanitized, IsPort, IsPortText, AllGraphic, HasForbidden, HasScheme;
    if r == JoinHostPort(host, port) && IsPortText(port) && !HasUpper(host) {
      PortIsText(port);
      FixedWithPort(lib, r, host, port);
    } else if r == "[" + host + "]" && lib.isIP(host) {
      FixedInBrackets(lib, host);
    } else {
      FixedBare(lib, r);
    }
  }

  /** Sanitizing is idempotent on every string. */
  lemma SanitizedTwice(lib: Library, input: string)
    requires Sound(lib)
    ensures Sanitized(lib, Sanitized(lib, input)) == Sanitized(lib, input)
  {
    if Sanitized(lib, input) == "" {
      NothingIsFixed(lib);
    } else {
      hide Sound, Sanitized;
      var host, port := SanitizedIsSafe(lib, input);
      SafeIsFixed(lib, Sanitized(lib, input), host, port);
    }
  }

  lemma NothingIsFixed(lib: Library)
    requires Sound(lib)
    ensures Sanitized(lib, "") == ""
  {
    assert AllGraphic("");
  }

  // ---- The base URL ----

  /** `firstForwardedValue`: what is before the first comma. */
  function FirstForwarded(lib: Library, v: string): string {
    var i := Index(v, ',');
    if v == "" then "" else lib.trim(if i < 0 then v else v[..i])
  }

  function SanitizedProto(lib: Library, v: string): string {
    var proto := lib.lower(lib.trim(v));
    if proto == "http" || proto == "https" then proto else ""
  }

  function Scheme(lib: Library, tls: bool, forwardedProto: string): (scheme: string)
    ensures scheme == "http" || scheme == "https"
  {
    var proto := SanitizedProto(lib, FirstForwarded(lib, forwardedProto));
    if proto != "" then proto else if tls then "https" else "http"
  }

  ghost function BaseHost(lib: Library, host: string, forwardedHost: string): string {
    var forwarded, own := Sanitized(lib, FirstForwarded(lib, forwardedHost)), Sanitized(lib, host);
    if forwarded != "" then forwarded else if own != "" then own else "localhost"
  }

  ghost function BaseUrl(lib: Library, tls: bool, host: string, forwardedProto: string, forwardedHost: string): string {
    Scheme(lib, tls, forwardedProto) + "://" + BaseHost(lib, host, forwardedHost)
  }

  /** `resolveBaseURL`. */
  method ResolveBaseURL(lib: Library, tls: bool, host: string, forwardedProto: string, forwardedHost: string)
    returns (url: string)
    ensures url == BaseUrl(lib, tls, host, forwardedProto, forwardedHost)
  {
    var scheme := "http";
    if tls {
      scheme := "https";
    }
    var proto := SanitizedProto(lib, FirstForwarded(lib, forwardedProto));
    if proto != "" {
      scheme := proto;
    }
    var h := SanitizeHost(lib, host);
    var v := SanitizeHost(lib, FirstForwarded(lib, forwardedHost));
    if v != "" {
      h := v;
    }
    if h == "" {
      h := "localhost";
    }
    url := scheme + "://" + h;
  }

  /** Whatever the headers say, the base URL is http or https and one safe host. */
  lemma BaseUrlIsSafe(lib: Library, tls: bool, host: string, forwardedProto: string, forwardedHost: string)
    returns (scheme: string, r: string)
    requires Sound(lib)
    ensures BaseUrl(lib, tls, host, forwardedProto, forwardedHost) == scheme + "://" + r
    ensures (scheme == "http" || scheme == "https") && r != "" && AllGraphic(r) && !HasForbidden(r)
    ensures Sanitized(lib, r) == r
  {
    hide Scheme, BaseHost;
    scheme, r := Scheme(lib, tls, forwardedProto), BaseHost(lib, host, forwardedHost);
    BaseHostIsSafe(lib, host, forwardedHost);
  }

  lemma BaseHostIsSafe(lib: Library, host: string, forwardedHost: string)
    requires Sound(lib)
    ensures var r := BaseHost(lib, host, forwardedHost);
            r != "" && AllGraphic(r) && !HasForbidden(r) && Sanitized(lib, r) == r
  {
    hide Sanitized, Sound;
    var forwarded := FirstForwarded(lib, forwardedHost);
    var h, p;
    if Sanitized(lib, forwarded) != "" {
      h, p := SanitizedIsSafe(lib, forwarded);
      SanitizedTwice(lib, forwarded);
    } else if Sanitized(lib, host) != "" {
      h, p := SanitizedIsSafe(lib, host);
      SanitizedTwice(lib, host);
    } else {
      LocalhostIsSafe(lib);
    }
  }

  lemma LocalhostIsSafe(lib: Library)
    requires Sound(lib)
    ensures Sanitized(lib, "localhost") == "localhost" && AllGraphic("localhost") && !HasForbidden("localhost")
  {
    LocalhostIsHostname();
    assert !HasUpper("localhost");
    hide Sound, IsHostname, Sanitized, IsPort, IsPortText, AllGraphic, HasForbidden, HasScheme, HasUpper;
    SafeChars(lib, "localhost", "localhost", "");
    SafeIsFixed(lib, "localhost", "localhost", "");
  }
}
