/**
  The host sanitizer behind the base URL of a page. Strings are Go's byte strings. What the Go library
  knows about Unicode and about IP addresses is a parameter; the string functions are written out.
*/
module Hosts {
  import opened Options

  /** `net.ParseIP(s) != nil`, `strings.ToLower` and `strings.TrimSpace`. */
  datatype Library = Library(isIP: string -> bool, lower: string -> string, trim: string -> string)

  predicate IsGraphic(c: char) {
    '!' <= c <= '~'
  }

  predicate AllGraphic(s: string) {
    forall i | 0 <= i < |s| :: IsGraphic(s[i])
  }

  predicate HasUpper(s: string) {
    exists i | 0 <= i < |s| :: 'A' <= s[i] <= 'Z'
  }

  predicate IsAddressChar(c: char) {
    '0' <= c <= '9' || 'a' <= c <= 'f' || 'A' <= c <= 'F' || c == ':' || c == '.'
  }

  /**
    What is known of the library: an IP literal is made of hexadecimal digits, dots and colons, and not
    with exactly one colon; trimming changes no printable ASCII text; lowering leaves no capitals, and
    changes no printable ASCII text without them; neither adds or removes all colons.
  */
  ghost predicate Sound(lib: Library) {
    && (forall s :: lib.isIP(s) ==> s != "" && Count(s, ':') != 1 && forall i | 0 <= i < |s| :: IsAddressChar(s[i]))
    && (forall s :: AllGraphic(s) ==> lib.trim(s) == s)
    && (forall s :: AllGraphic(s) && !HasUpper(s) ==> lib.lower(s) == s)
    && (forall s :: !HasUpper(lib.lower(s)))
    && (forall s :: ':' in lib.trim(s) <==> ':' in s)
    && (forall s :: ':' in lib.lower(s) <==> ':' in s)
  }

  // ---- The string functions ----

  function Count(s: string, c: char): nat {
    if s == "" then 0 else Count(s[1..], c) + if s[0] == c then 1 else 0
  }

  /** The first place of a character, -1 if it does not occur. */
  function Index(s: string, c: char): (i: int)
    ensures -1 <= i < |s|
    ensures i >= 0 ==> s[i] == c && forall j | 0 <= j < i :: s[j] != c
    ensures i < 0 ==> c !in s
  {
    if s == "" then -1
    else if s[0] == c then 0
    else
      var i := Index(s[1..], c);
      if i < 0 then -1 else i + 1
  }

  function LastIndex(s: string, c: char): (i: int)
    ensures -1 <= i < |s|
    ensures i >= 0 ==> s[i] == c && c !in s[i + 1..]
    ensures i < 0 ==> c !in s
  {
    if s == "" then -1
    else if s[|s| - 1] == c then |s| - 1
    else LastIndex(s[..|s| - 1], c)
  }

  /** `net.SplitHostPort`. */
  function SplitHostPort(s: string): Option<(string, string)> {
    var i := LastIndex(s, ':');
    if i < 0 then None
    else if s[0] == '[' then
      var end := Index(s, ']');
      if end < 0 || end + 1 != i then None
      else if '[' in s[1..] || ']' in s[end + 1..] then None
      else Some((s[1..end], s[i + 1..]))
    else if ':' in s[..i] || '[' in s || ']' in s then None
    else Some((s[..i], s[i + 1..]))
  }

  function JoinHostPort(host: string, port: string): string {
    if ':' in host then "[" + host + "]:" + port else host + ":" + port
  }

  predicate AllDigits(s: string) {
    forall i | 0 <= i < |s| :: '0' <= s[i] <= '9'
  }

  function DecimalValue(s: string): nat
    requires AllDigits(s)
  {
    if s == "" then 0 else 10 * DecimalValue(s[..|s| - 1]) + (s[|s| - 1] as int - '0' as int)
  }

  /** `strconv.Atoi`, without the error on numbers too large for an `int`. */
  function Atoi(s: string): Option<int> {
    var signed := s != "" && (s[0] == '+' || s[0] == '-');
    var digits := if signed then s[1..] else s;
    if digits == "" || !AllDigits(digits) then None
    else
      var n: int := DecimalValue(digits);
      Some(if s[0] == '-' then -n else n)
  }

  /** What the sanitizer asks of a port. */
  predicate IsPort(s: string) {
    Atoi(s).Some? && 1 <= Atoi(s).value <= 65535
  }

  /** Digits for a number from 1 to 65535, perhaps after a plus sign. */
  predicate IsPortText(s: string) {
    var digits := if s != "" && s[0] == '+' then s[1..] else s;
    digits != "" && AllDigits(digits) && 1 <= DecimalValue(digits) <= 65535
  }

  lemma PortIsText(s: string)
    ensures IsPort(s) <==> IsPortText(s)
  {}

  /** `strings.Split` at dots. */
  function Split(s: string): (r: seq<string>)
    ensures r != []
  {
    var i := Index(s, '.');
    if i < 0 then [s] else [s[..i]] + Split(s[i + 1..])
  }

  function Join(labels: seq<string>): string
    requires labels != []
  {
    if |labels| == 1 then labels[0] else labels[0] + "." + Join(labels[1..])
  }

  // ---- Host names: section 2.1 of RFC 1123, in lower case ----

  predicate IsAlphaNum(c: char) {
    'a' <= c <= 'z' || '0' <= c <= '9'
  }

  predicate IsLabel(s: string) {
    && 1 <= |s| <= 63 && IsAlphaNum(s[0]) && IsAlphaNum(s[|s| - 1])
    && forall i | 0 <= i < |s| :: IsAlphaNum(s[i]) || s[i] == '-'
  }

  predicate AllLabels(labels: seq<string>) {
    forall i | 0 <= i < |labels| :: IsLabel(labels[i])
  }

  ghost predicate IsHostname(s: string) {
    |s| <= 253 && exists labels: seq<string> :: labels != [] && AllLabels(labels) && s == Join(labels)
  }

  lemma SplitStep(first: string, rest: string)
    requires '.' !in first
    ensures Split(first + "." + rest) == [first] + Split(rest)
  {
    var s := first + "." + rest;
    assert s[|first|] == '.' && forall j | 0 <= j < |first| :: s[j] == first[j];
    assert Index(s, '.') == |first|;
    assert s[..|first|] == first && s[|first| + 1..] == rest;
  }

  lemma JoinStep(first: string, labels: seq<string>)
    requires labels != []
    ensures Join([first] + labels) == first + "." + Join(labels)
  {
    assert ([first] + labels)[1..] == labels;
  }

  lemma {:induction false} JoinOfSplit(s: string)
    ensures Join(Split(s)) == s
    decreases |s|
  {
    hide Index, Join;
    var i := Index(s, '.');
    if i < 0 {
      JoinOfOne(s);
    } else {
      JoinOfSplit(s[i + 1..]);
      JoinStep(s[..i], Split(s[i + 1..]));
      assert s == s[..i] + "." + s[i + 1..];
    }
  }

  lemma JoinOfOne(s: string)
    ensures Join([s]) == s
  {}

  lemma {:induction false} SplitOfJoin(labels: seq<string>)
    requires labels != [] && AllLabels(labels)
    ensures Split(Join(labels)) == labels
    decreases |labels|
  {
    hide Split, IsLabel;
    LabelHasNoDot(labels[0]);
    if |labels| == 1 {
      SplitOfOne(labels[0]);
    } else {
      SplitOfJoin(labels[1..]);
      SplitStep(labels[0], Join(labels[1..]));
    }
  }

  lemma LabelHasNoDot(s: string)
    requires IsLabel(s)
    ensures '.' !in s
  {}

  lemma SplitOfOne(s: string)
    requires '.' !in s
    ensures Split(s) == [s]
  {}

  /** `isValidHostname`: no exceptions to the rule, `localhost` is a host name like any other. */
  method IsValidHostname(host: string) returns (ok: bool)
    ensures ok <==> IsHostname(host)
  {
    hide Split, IsHostname, Index;
    if host == "localhost" {
      LocalhostIsHostname();
      return true;
    }
    if |host| > 253 {
      TooLong(host);
      return false;
    }
    HostnameIff(host);
    if host != "" && (host[0] == '.' || host[|host| - 1] == '.') {
      DotAtTheEnd(host);
      return false;
    }
    var labels := Split(host);
    var k := 0;
    while k < |labels|
      invariant 0 <= k <= |labels| && AllLabels(labels[..k])
    {
      var name := labels[k];
      if name == "" || |name| > 63 {
        return false;
      }
      if !IsAlphaNum(name[0]) || !IsAlphaNum(name[|name| - 1]) {
        return false;
      }
      var i := 0;
      while i < |name|
        invariant 0 <= i <= |name| && forall j | 0 <= j < i :: IsAlphaNum(name[j]) || name[j] == '-'
      {
        if !(IsAlphaNum(name[i]) || name[i] == '-') {
          return false;
        }
        i := i + 1;
      }
      k := k + 1;
    }
    assert labels[..k] == labels;
    return true;
  }

  lemma HostnameIff(s: string)
    ensures IsHostname(s) <==> |s| <= 253 && AllLabels(Split(s))
  {
    JoinOfSplit(s);
    if IsHostname(s) {
      var labels: seq<string> :| labels != [] && AllLabels(labels) && s == Join(labels);
      SplitOfJoin(labels);
    }
  }

  lemma TooLong(s: string)
    requires |s| > 253
    ensures !IsHostname(s)
  {}

  lemma LocalhostIsHostname()
    ensures IsHostname("localhost")
  {
    assert AllLabels(["localhost"]) && Join(["localhost"]) == "localhost";
  }

  lemma {:induction false} DotAtTheEnd(s: string)
    requires s != "" && (s[0] == '.' || s[|s| - 1] == '.')
    ensures !AllLabels(Split(s))
    decreases |s|
  {
    var i := Index(s, '.');
    if i > 0 {
      var rest := s[i + 1..];
      assert Split(s)[1..] == Split(rest);
      if rest == "" {
        assert Split(s)[1] == "";
      } else {
        DotAtTheEnd(rest);
        var k :| 0 <= k < |Split(rest)| && !IsLabel(Split(rest)[k]);
        assert Split(s)[k + 1] == Split(rest)[k];
      }
    } else {
      assert Split(s)[0] == "";
    }
  }
}
