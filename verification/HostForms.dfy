/** Which hosts the sanitizer takes and what it makes of them, and which parts the base URL is made of. */
module HostForms {
  import opened Hosts
  import opened HostSanitizer
  import opened Options

  // ---- Capitals ----

  function LowerChar(c: char): char {
    if 'A' <= c <= 'Z' then (c as int - 'A' as int + 'a' as int) as char else c
  }

  function Lowered(s: string): (r: string)
    ensures |r| == |s| && forall i | 0 <= i < |s| :: r[i] == LowerChar(s[i])
  {
    seq(|s|, i requires 0 <= i < |s| => LowerChar(s[i]))
  }

  /** `strings.ToLower` on printable ASCII text. */
  ghost predicate LowersCapitals(lib: Library) {
    forall s :: AllGraphic(s) ==> lib.lower(s) == Lowered(s)
  }

  // ---- What is taken ----

  /** A host and a port as they may be written: in brackets or not, the port with a colon before it. */
  ghost predicate Writes(lib: Library, text: string, host: string, port: string) {
    && IsHost(lib, Lowered(host)) && (port == "" || IsPort(port))
    && (|| (':' !in host && ((port == "" && text == host) || text == host + ":" + port))
        || text == "[" + host + "]:" + port)
  }

  /**
    The forms of a host and what becomes of them: an IP literal with colons or in brackets stays as it is,
    any other host is lowered and keeps its port.
  */
  ghost predicate Takes(lib: Library, text: string, r: string) {
    || (lib.isIP(text) && ':' in text && r == text)
    || (exists ip :: lib.isIP(ip) && text == "[" + ip + "]" && r == text)
    || (exists host, port :: Writes(lib, text, host, port) &&
          r == if port == "" then Lowered(host) else JoinHostPort(Lowered(host), port))
  }

  /** The characters of a host before it is lowered. */
  lemma WrittenChars(lib: Library, host: string)
    requires Sound(lib) && IsHost(lib, Lowered(host))
    ensures host != "" && AllGraphic(host) && NoBrackets(host) && NoForbiddenChar(host)
    ensures ':' in host <==> ':' in Lowered(host)
  {
    HostChars(lib, Lowered(host));
    hide IsHostname, Sound;
    forall i | 0 <= i < |host|
      ensures IsHostChar(LowerChar(host[i]))
    {
      assert Lowered(host)[i] == LowerChar(host[i]);
    }
    if ':' in host {
      var i :| 0 <= i < |host| && host[i] == ':';
      assert Lowered(host)[i] == ':';
    }
  }

  predicate NoForbiddenChar(s: string) {
    forall i | 0 <= i < |s| :: !IsForbidden(s[i])
  }

  /** A host as it is written is finished by lowering it. */
  lemma WrittenIsFinished(lib: Library, host: string, port: string)
    requires Sound(lib) && LowersCapitals(lib) && IsHost(lib, Lowered(host)) && (port == "" || IsPort(port))
    ensures Finished(lib, host, port) == if port == "" then Lowered(host) else JoinHostPort(Lowered(host), port)
  {
    WrittenChars(lib, host);
    Trimmed(lib, host);
    hide Sound, IsHost, IsPort;
  }

  lemma NoForbidden(text: string)
    ensures NoForbiddenChar(text) ==> !HasForbidden(text) && !HasScheme(text)
    ensures !HasForbidden(text) ==> NoForbiddenChar(text)
  {
    if HasScheme(text) {
      var i :| 0 <= i < |text| && SchemeAt(text, i);
      assert IsForbidden(text[i + 1]);
    }
  }

  lemma PortIsPlain(port: string)
    requires port == "" || IsPort(port)
    ensures NoBrackets(port) && ':' !in port && NoForbiddenChar(port)
  {
    if port != "" {
      PortChars(port);
    }
  }

  lemma WrittenText(lib: Library, text: string, host: string, port: string)
    requires Sound(lib) && Writes(lib, text, host, port)
    ensures !HasForbidden(text) && !HasScheme(text)
  {
    hide IsHost, IsPort, HasForbidden, HasScheme;
    WrittenChars(lib, host);
    PortIsPlain(port);
    hide Sound;
    NoForbidden(text);
  }

  // ---- What has a form is taken ----

  lemma WrittenIsTaken(lib: Library, text: string, host: string, port: string)
    requires Sound(lib) && LowersCapitals(lib) && Writes(lib, text, host, port) && lib.trim(text) == text
    ensures Sanitized(lib, text) == if port == "" then Lowered(host) else JoinHostPort(Lowered(host), port)
  {
    WrittenText(lib, text, host, port);
    WrittenChars(lib, host);
    WrittenIsFinished(lib, host, port);
    PortIsPlain(port);
    hide Sound, LowersCapitals, IsHost, IsPort, HasForbidden, HasScheme, Finished, SplitHostPort, Count, NoBrackets;
    if text == "[" + host + "]:" + port {
      BracketsAround(host, port);
    } else if text == host + ":" + port {
      SplitOfPlain(host, port);
    } else {
      BareHost(host);
    }
  }

  lemma BareHost(host: string)
    requires ':' !in host && NoBrackets(host) && host != ""
    ensures Count(host, ':') == 0 && host[0] != '['
  {
    CountIs(host, ':');
  }

  lemma TakenIsKept(lib: Library, text: string, r: string)
    requires Sound(lib) && LowersCapitals(lib) && AllGraphic(text) && Takes(lib, text, r)
    ensures Sanitized(lib, text) == r && r != ""
  {
    Trimmed(lib, text);
    hide Sanitized, Writes, LowersCapitals, AllGraphic, IsHost, HasForbidden, HasScheme;
    if lib.isIP(text) && ':' in text && r == text {
      LiteralIsTaken(lib, text);
    } else if exists ip :: lib.isIP(ip) && text == "[" + ip + "]" && r == text {
      var ip :| lib.isIP(ip) && text == "[" + ip + "]" && r == text;
      BracketsAreTaken(lib, ip);
    } else {
      var host, port :| Writes(lib, text, host, port) &&
          r == if port == "" then Lowered(host) else JoinHostPort(Lowered(host), port);
      WrittenIsTaken(lib, text, host, port);
      WrittenIsSomething(lib, text, host, port);
    }
  }

  lemma WrittenIsSomething(lib: Library, text: string, host: string, port: string)
    requires Sound(lib) && Writes(lib, text, host, port)
    ensures Lowered(host) != "" && JoinHostPort(Lowered(host), port) != ""
  {
    hide IsHost, Sound;
    WrittenChars(lib, host);
  }

  lemma LiteralIsTaken(lib: Library, text: string)
    requires Sound(lib) && lib.isIP(text) && ':' in text
    ensures Sanitized(lib, text) == text && text != ""
  {
    hide Sanitized;
    SafeChars(lib, text, text, "");
    FixedBare(lib, text);
  }

  lemma BracketsAreTaken(lib: Library, ip: string)
    requires Sound(lib) && lib.isIP(ip)
    ensures Sanitized(lib, "[" + ip + "]") == "[" + ip + "]"
  {
    hide Sanitized;
    SafeChars(lib, "[" + ip + "]", ip, "");
    FixedInBrackets(lib, ip);
  }

  // ---- What is taken has a form ----

  /** The two shapes `net.SplitHostPort` splits. */
  lemma SplitShapes(s: string)
    requires SplitHostPort(s).Some?
    ensures var (host, port) := SplitHostPort(s).value;
            if s[0] == '[' then s == "[" + host + "]:" + port else s == host + ":" + port && ':' !in host
  {
    var i := LastIndex(s, ':');
    assert s == s[..i] + ":" + s[i + 1..];
    if s[0] == '[' {
      var end := Index(s, ']');
      assert s[..i] == "[" + s[1..end] + "]";
    }
  }

  lemma FinishedIsWritten(lib: Library, host: string, port: string)
    requires Sound(lib) && LowersCapitals(lib) && AllGraphic(host) && Finished(lib, host, port) != ""
    ensures IsHost(lib, Lowered(host)) && (port == "" || IsPort(port))
    ensures Finished(lib, host, port) == if port == "" then Lowered(host) else JoinHostPort(Lowered(host), port)
  {
    Trimmed(lib, host);
    hide Sound, IsHost, IsPort;
  }

  lemma GraphicParts(s: string)
    requires AllGraphic(s) && SplitHostPort(s).Some?
    ensures AllGraphic(SplitHostPort(s).value.0)
  {
    hide SplitHostPort;
    SplitShapes(s);
    var (host, port) := SplitHostPort(s).value;
    var k := if s[0] == '[' then 1 else 0;
    assert forall i | 0 <= i < |host| :: host[i] == s[i + k];
  }

  /** How the sanitizer came to its result. */
  lemma Branches(lib: Library, text: string)
    requires lib.trim(text) == text && Sanitized(lib, text) != ""
    ensures text != ""
    ensures var parts, r := SplitHostPort(text), Sanitized(lib, text);
            if parts.Some? && (text[0] == '[' || Count(text, ':') == 1) then
              r == Finished(lib, parts.value.0, parts.value.1)
            else if text[0] == '[' then
              |text| >= 2 && text[|text| - 1] == ']' && lib.isIP(text[1..|text| - 1]) && r == "[" + text[1..|text| - 1] + "]"
            else if ':' in text then lib.isIP(text) && r == text
            else r == Finished(lib, text, "")
  {
    hide SplitHostPort, Count, Finished, HasForbidden, HasScheme;
    CountIs(text, ':');
  }

  lemma SplitIsTaken(lib: Library, text: string)
    requires Sound(lib) && LowersCapitals(lib) && AllGraphic(text) && SplitHostPort(text).Some?
    requires var (host, port) := SplitHostPort(text).value; Finished(lib, host, port) != ""
    ensures var (host, port) := SplitHostPort(text).value; Takes(lib, text, Finished(lib, host, port))
  {
    var (host, port) := SplitHostPort(text).value;
    GraphicParts(text);
    SplitShapes(text);
    hide SplitHostPort, Sound, LowersCapitals, IsHost, IsPort, Finished, AllGraphic;
    FinishedIsWritten(lib, host, port);
    assert Writes(lib, text, host, port);
  }

  lemma WholeIsTaken(lib: Library, text: string)
    requires Sound(lib) && LowersCapitals(lib) && AllGraphic(text) && ':' !in text && Finished(lib, text, "") != ""
    ensures Takes(lib, text, Finished(lib, text, ""))
  {
    hide Sound, LowersCapitals, IsHost, IsPort, Finished, AllGraphic;
    FinishedIsWritten(lib, text, "");
    assert Writes(lib, text, text, "");
  }

  lemma InBracketsIsTaken(lib: Library, text: string)
    requires |text| >= 2 && text[0] == '[' && text[|text| - 1] == ']' && lib.isIP(text[1..|text| - 1])
    ensures Takes(lib, text, "[" + text[1..|text| - 1] + "]")
  {
    hide Writes;
    var ip := text[1..|text| - 1];
    assert text == "[" + ip + "]";
  }

  lemma KeptIsTaken(lib: Library, text: string)
    requires Sound(lib) && LowersCapitals(lib) && AllGraphic(text) && Sanitized(lib, text) != ""
    ensures Takes(lib, text, Sanitized(lib, text))
  {
    Trimmed(lib, text);
    hide SplitHostPort, Sound, LowersCapitals, Sanitized, Finished, Count, AllGraphic, Takes;
    Branches(lib, text);
    if SplitHostPort(text).Some? && (text[0] == '[' || Count(text, ':') == 1) {
      SplitIsTaken(lib, text);
    } else if text[0] == '[' {
      InBracketsIsTaken(lib, text);
    } else if ':' in text {
      LiteralHasForm(lib, text);
    } else {
      WholeIsTaken(lib, text);
    }
  }

  lemma LiteralHasForm(lib: Library, text: string)
    requires lib.isIP(text) && ':' in text
    ensures Takes(lib, text, text)
  {}

  /**
    The sanitizer takes exactly the hosts of those forms, whatever is trimmed off the input before, and turns
    each into what that form becomes.
  */
  lemma TakesIff(lib: Library, input: string, r: string)
    requires Sound(lib) && LowersCapitals(lib) && AllGraphic(lib.trim(input))
    ensures Sanitized(lib, input) == r && r != "" <==> Takes(lib, lib.trim(input), r)
  {
    var text := lib.trim(input);
    Trimmed(lib, text);
    assert Sanitized(lib, text) == Sanitized(lib, input);
    hide Sanitized, Takes, Sound, LowersCapitals, AllGraphic;
    if Takes(lib, text, r) {
      TakenIsKept(lib, text, r);
    }
    if Sanitized(lib, text) != "" {
      KeptIsTaken(lib, text);
    }
  }

  // ---- The parts of the base URL ----

  /** The first value of a forwarded header is what stands before its first comma. */
  lemma FirstForwardedIs(lib: Library, first: string, rest: string)
    requires Sound(lib) && ',' !in first && (rest == "" || rest[0] == ',')
    ensures FirstForwarded(lib, first + rest) == lib.trim(first)
  {
    var v := first + rest;
    assert AllGraphic("");
    hide Sound;
    if rest == "" {
      assert v == first;
    } else {
      assert v[|first|] == ',' && forall j | 0 <= j < |first| :: v[j] == first[j];
      assert Index(v, ',') == |first|;
      assert v[..|first|] == first;
    }
  }

  /**
    The base URL: the first forwarded protocol if it is http or https in any case, else https over TLS and http
    without; then the first forwarded host if it is taken, else the request's own, else localhost.
  */
  lemma BaseUrlIs(lib: Library, tls: bool, host: string, proto: string, protos: string, forwarded: string, others: string)
    requires Sound(lib) && LowersCapitals(lib) && AllGraphic(lib.trim(proto))
    requires ',' !in proto && (protos == "" || protos[0] == ',') && ',' !in forwarded && (others == "" || others[0] == ',')
    ensures var p, f, own := Lowered(lib.trim(proto)), Sanitized(lib, lib.trim(forwarded)), Sanitized(lib, host);
            BaseUrl(lib, tls, host, proto + protos, forwarded + others) ==
            (if p == "https" then "https://" else if p == "http" then "http://" else if tls then "https://" else "http://")
            + (if f != "" then f else if own != "" then own else "localhost")
  {
    FirstForwardedIs(lib, proto, protos);
    FirstForwardedIs(lib, forwarded, others);
    Trimmed(lib, lib.trim(proto));
    hide Sound, Sanitized, FirstForwarded, AllGraphic;
    Slashes();
  }

  lemma Slashes()
    ensures "http" + "://" == "http://" && "https" + "://" == "https://"
  {}
}
