/** What the egress proxy reads out of a request: method, URL, host, port and path.  Text is a sequence of bytes;
    fields are what a C string shows of their buffer, that is, everything before the first NUL. */
module HttpRequest {
  import opened Wrappers
  import opened CText

  const METHOD_SIZE: nat := 16
  const URL_SIZE: nat := 2048
  const HOST_SIZE: nat := 256
  const PATH_SIZE: nat := 1024
  const PORT_TEXT_SIZE: nat := 16
  const TCP_PORT_MAX: nat := 65535

  datatype Error = EINVAL | ENAMETOOLONG
  datatype Result<+T> = Ok(value: T) | Err(error: Error)
  datatype Parsed = Parsed(method_: string, url: string, host: string, port: nat, path: string, isConnect: bool)

  // ---------- bytes and buffers ----------

  const NUL: char := 0 as char

  function CStr(s: string): (r: string)
    ensures r <= s && forall i :: 0 <= i < |r| ==> r[i] != NUL
    ensures |r| == |s| || s[|r|] == NUL
  {
    if s == "" || s[0] == NUL then "" else [s[0]] + CStr(s[1..])
  }

  lemma CStrOfTerminated(buffer: string, s: string)
    requires |s| < |buffer| && buffer[..|s|] == s && buffer[|s|] == NUL
    ensures CStr(buffer) == CStr(s)
  {
    if s != "" && s[0] != NUL {
      assert buffer[1..][..|s| - 1] == s[1..];
      CStrOfTerminated(buffer[1..], s[1..]);
    }
  }

  /** A token copied into a buffer of `size` bytes. */
  function Token(s: string, size: nat): string
    requires size > 0
  {
    CStr(Cut(s, size))
  }

  predicate EqNoCase(a: string, b: string) { Lower(a) == Lower(b) }

  predicate IsBlank(c: char) { c == ' ' || c == '\t' }

  function SkipBlanks(s: string): (r: string)
    ensures |r| <= |s|
  {
    if s != "" && IsBlank(s[0]) then SkipBlanks(s[1..]) else s
  }

  /** Length of the part before the first blank. */
  function WordLength(s: string): (n: nat)
    ensures n <= |s| && (n == |s| || IsBlank(s[n])) && forall i :: 0 <= i < n ==> !IsBlank(s[i])
  {
    if s == "" || IsBlank(s[0]) then 0 else 1 + WordLength(s[1..])
  }

  function TrimLineEnd(s: string): (r: string)
    ensures r <= s && (r == "" || (r[|r| - 1] != '\r' && r[|r| - 1] != '\n'))
  {
    if s != "" && (s[|s| - 1] == '\r' || s[|s| - 1] == '\n') then TrimLineEnd(s[..|s| - 1]) else s
  }

  function SkipLineEnds(s: string): string {
    if s != "" && (s[0] == '\r' || s[0] == '\n') then SkipLineEnds(s[1..]) else s
  }

  // ---------- host and port ----------

  function DigitsLength(s: string): (n: nat)
    ensures n <= |s| && forall i :: 0 <= i < n ==> IsDigit(s[i])
    ensures n == |s| || !IsDigit(s[n])
  {
    if s == "" || !IsDigit(s[0]) then 0 else 1 + DigitsLength(s[1..])
  }

  function DigitsValue(s: string, n: nat): nat
    requires n <= |s| && forall i :: 0 <= i < n ==> IsDigit(s[i])
  {
    if n == 0 then 0
    else
      assert IsDigit(s[n - 1]);
      DigitsValue(s, n - 1) * 10 + (s[n - 1] as int - '0' as int)
  }

  const HALF_WORD: nat := 0x1_0000_0000

  /** `strtoul` in base 10 on a text that must be used up: leading spaces and a sign are accepted, a minus sign
      negates in 64-bit arithmetic.  (At most 15 characters, so the digits themselves do not overflow.) */
  function ParseUnsigned(s: string): Option<nat> {
    var t := TrimLeft(s);
    var signed := t != "" && (t[0] == '-' || t[0] == '+');
    var u := if signed then t[1..] else t;
    var n := DigitsLength(u);
    if n == 0 || n < |u| then None
    else
      var v := DigitsValue(u, n) % WORD;
      Some(if signed && t[0] == '-' && v > 0 then WORD - v else v)
  }

  /** A port text, cut to 32 bits before its range is checked. */
  function ParsePort(s: string): (p: Option<nat>)
    ensures p.Some? ==> 0 < p.value <= TCP_PORT_MAX
  {
    if |s| >= PORT_TEXT_SIZE then None
    else match ParseUnsigned(CStr(s))
      case None => None
      case Some(v) => if 0 < v % HALF_WORD <= TCP_PORT_MAX then Some(v % HALF_WORD) else None
  }

  /** Where host and port are: a bracketed host, or a host with exactly one colon; otherwise all is host. */
  function HostAndPort(value: string): (r: (string, Option<string>))
    requires value != ""
  {
    if value[0] == '[' then
      var closing := IndexOf(value, ']');
      if closing == |value| then (value, None)
      else
        var hasPort := closing + 1 < |value| && value[closing + 1] == ':';
        (value[1..closing], if hasPort then Some(value[closing + 2..]) else None)
    else
      var colon := IndexOf(value, ':');
      if colon == |value| || ':' in value[colon + 1..] then (value, None)
      else (value[..colon], Some(value[colon + 1..]))
  }

  function SplitHostPort(value: string, defaultPort: nat): Result<(string, nat)> {
    if value == "" then Err(EINVAL)
    else
      var (host, port) := HostAndPort(value);
      if host == "" then Err(EINVAL)
      else
        var stored := Lower(Token(host, HOST_SIZE));
        if port.None? || port.value == "" then Ok((stored, defaultPort))
        else match ParsePort(port.value)
          case None => Err(EINVAL)
          case Some(p) => Ok((stored, p))
  }

  // ---------- request line and headers ----------

  predicate StartsWithScheme(target: string) {
    (|target| >= 7 && EqNoCase(target[..7], "http://")) || (|target| >= 8 && EqNoCase(target[..8], "https://"))
  }

  /** Host, port and path of a URL. */
  function ParseAbsolute(target: string): Result<(string, nat, string)> {
    var colon := IndexOf(target, ':');
    if colon + 2 >= |target| || target[colon + 1] != '/' || target[colon + 2] != '/' then Err(EINVAL)
    else
      var rest := target[colon + 3..];
      var slash := IndexOf(rest, '/');
      match SplitHostPort(rest[..slash], if EqNoCase(target[..colon], "https") then 443 else 80)
      case Err(e) => Err(e)
      case Ok((host, port)) => Ok((host, port, if slash < |rest| then Token(rest[slash..], PATH_SIZE) else "/"))
  }

  predicate IsHeader(line: string, name: string) {
    |line| > |name| && EqNoCase(line[..|name|], name) && line[|name|] == ':'
  }

  /** The value of the first header line with a name; the search goes on to the end of the data. */
  function HeaderValue(s: string, name: string): Option<string>
    decreases |s|
  {
    if s == "" then None
    else
      var n := IndexOf(s, '\n');
      var line := TrimLineEnd(s[..n]);
      if IsHeader(line, name) then Some(SkipBlanks(line[|name| + 1..]))
      else if n == |s| then None
      else HeaderValue(s[n + 1..], name)
  }

  function OriginUrl(target: string, host: Option<string>): Result<string> {
    if host.None? || host.value == "" || target == "" || target[0] != '/' then Ok(Token(target, URL_SIZE))
    else
      var url := "http://" + CStr(host.value) + CStr(target);
      if |url| >= URL_SIZE then Err(ENAMETOOLONG) else Ok(url)
  }

  function ParseTarget(method_: string, target: string, behind: string): Result<Parsed> {
    var m := Token(method_, METHOD_SIZE);
    if EqNoCase(m, "CONNECT") then
      match SplitHostPort(target, 443)
      case Err(e) => Err(e)
      case Ok((host, port)) => Ok(Parsed(m, Token(target, URL_SIZE), host, port, "", true))
    else if StartsWithScheme(target) then
      match ParseAbsolute(target)
      case Err(e) => Err(e)
      case Ok((host, port, path)) => Ok(Parsed(m, Token(target, URL_SIZE), host, port, path, false))
    else
      var host := HeaderValue(SkipLineEnds(behind), "Host");
      match OriginUrl(target, host)
      case Err(e) => Err(e)
      case Ok(url) =>
        match SplitHostPort(if host.Some? then host.value else "", 80)
        case Err(e) => Err(e)
        case Ok((name, port)) => Ok(Parsed(m, url, name, port, Token(target, PATH_SIZE), false))
  }

  /** The three words of a request line; the version word is only required to be there. */
  function RequestLine(line: string): Option<(string, string)> {
    var m := WordLength(line);
    var second := SkipBlanks(line[m..]);
    var t := WordLength(second);
    if m == 0 || t == 0 || SkipBlanks(second[t..]) == "" then None else Some((line[..m], second[..t]))
  }

  function ParseRequest(request: string): Result<Parsed> {
    var n := IndexOf(request, '\n');
    if n == |request| then Err(EINVAL)
    else
      var line := TrimLineEnd(request[..n]);
      match RequestLine(line)
      case None => Err(EINVAL)
      case Some((method_, target)) => ParseTarget(method_, target, request[|line|..])
  }

  // ---------- what is guaranteed about host and port ----------

  lemma {:induction false} DigitsPrefix(s: string, t: string, n: nat)
    requires n <= |s| && forall i :: 0 <= i < n ==> IsDigit(s[i])
    ensures DigitsValue(s + t, n) == DigitsValue(s, n)
  {
    if n > 0 { DigitsPrefix(s, t, n - 1); }
  }

  lemma {:induction false} DecimalValue(n: nat)
    ensures DigitsValue(Decimal(n), |Decimal(n)|) == n
  {
    if n >= 10 {
      var s, d := Decimal(n / 10), [('0' as int + n % 10) as char];
      DecimalValue(n / 10);
      DigitsPrefix(s, d, |s|);
      assert Decimal(n)[|s|] == d[0];
    }
  }

  /** 10 to the `k`. */
  ghost function Tens(k: nat): nat { if k == 0 then 1 else 10 * Tens(k - 1) }

  lemma {:induction false} DecimalShort(n: nat, k: nat)
    requires n < Tens(k) && k > 0
    ensures |Decimal(n)| <= k
  {
    if n >= 10 {
      assert k > 1 by { assert Tens(1) == 10 * Tens(0); }
      DecimalShort(n / 10, k - 1);
    }
  }

  lemma PlainCStr(s: string)
    requires forall i :: 0 <= i < |s| ==> s[i] != NUL
    ensures CStr(s) == s
  {
  }

  lemma AllDigits(s: string)
    requires forall i :: 0 <= i < |s| ==> IsDigit(s[i])
    ensures DigitsLength(s) == |s|
  {
  }

  lemma DigitsParse(s: string)
    requires s != "" && forall i :: 0 <= i < |s| ==> IsDigit(s[i])
    ensures ParseUnsigned(s) == Some(DigitsValue(s, |s|) % WORD)
  {
    AllDigits(s);
    assert IsDigit(s[0]);
    NothingToTrim(s);
    hide DigitsLength, DigitsValue, TrimLeft;
  }

  lemma DecimalParses(n: nat)
    requires n < WORD
    ensures ParseUnsigned(CStr(Decimal(n))) == Some(n)
  {
    hide Decimal, DigitsValue, CStr, ParseUnsigned;
    DecimalValue(n);
    PlainCStr(Decimal(n));
    DigitsParse(Decimal(n));
  }

  lemma NothingToTrim(s: string)
    requires s != "" && !IsSpace(s[0])
    ensures TrimLeft(s) == s
  {
  }

  lemma TensOfFifteen()
    ensures Tens(15) == 1_000_000_000_000_000
  {
    assert Tens(5) == 100_000;
    assert Tens(10) == 10_000_000_000;
  }

  /** A printed number of up to 15 digits is accepted as a port exactly when its low 32 bits are one. */
  lemma PrintedPort(n: nat)
    requires n < 1_000_000_000_000_000
    ensures ParsePort(Decimal(n)) == if 0 < n % HALF_WORD <= TCP_PORT_MAX then Some(n % HALF_WORD) else None
  {
    TensOfFifteen();
    DecimalShort(n, 15);
    DecimalParses(n);
    hide Decimal, ParseUnsigned, CStr;
  }

  /** A number above the range that is read as a port all the same. */
  lemma PortReadAs80()
    ensures ParsePort(Decimal(4294967376)) == Some(80)
  {
    hide Decimal;
    PrintedPort(4294967376);
  }

  /** A printed port reads back. */
  lemma PortRoundTrip(p: nat)
    requires 0 < p <= TCP_PORT_MAX
    ensures ParsePort(Decimal(p)) == Some(p)
  {
    hide ParsePort, Decimal;
    PrintedPort(p);
  }

  lemma IndexOfFirst(a: string, c: char, b: string)
    requires forall i :: 0 <= i < |a| ==> a[i] != c
    ensures IndexOf(a + [c] + b, c) == |a|
    ensures IndexOf(a, c) == |a|
  {
    var n := IndexOf(a + [c] + b, c);
    assert (a + [c] + b)[|a|] == c;
  }

  lemma SplitAs(value: string, host: string, port: nat, defaultPort: nat)
    requires value != "" && host != "" && 0 < port <= TCP_PORT_MAX && HostAndPort(value) == (host, Some(Decimal(port)))
    ensures SplitHostPort(value, defaultPort) == Ok((Lower(Token(host, HOST_SIZE)), port))
  {
    hide HostAndPort, Token, ParsePort, Decimal;
    PortRoundTrip(port);
  }

  /** A host without colons that does not start with a bracket, with a port behind it, comes apart again. */
  lemma HostPortRoundTrip(host: string, port: nat, defaultPort: nat)
    requires host != "" && host[0] != '[' && (forall i :: 0 <= i < |host| ==> host[i] != ':')
      && 0 < port <= TCP_PORT_MAX
    ensures SplitHostPort(host + ":" + Decimal(port), defaultPort) == Ok((Lower(Token(host, HOST_SIZE)), port))
  {
    hide Decimal, SplitHostPort, IndexOf, Token;
    var p := Decimal(port);
    var value := host + [':'] + p;
    assert value == host + ":" + p;
    IndexOfFirst(host, ':', p);
    assert value[0] == host[0];
    assert value[|host| + 1..] == p && value[..|host|] == host;
    assert ':' !in p;
    SplitAs(value, host, port, defaultPort);
  }

  /** So does a bracketed host, whatever colons are in it. */
  lemma BracketedRoundTrip(host: string, port: nat, defaultPort: nat)
    requires host != "" && (forall i :: 0 <= i < |host| ==> host[i] != ']') && 0 < port <= TCP_PORT_MAX
    ensures SplitHostPort("[" + host + "]:" + Decimal(port), defaultPort) == Ok((Lower(Token(host, HOST_SIZE)), port))
    ensures SplitHostPort("[" + host + "]", defaultPort) == Ok((Lower(Token(host, HOST_SIZE)), defaultPort))
  {
    hide Decimal, IndexOf, Token, ParsePort;
    var p := Decimal(port);
    var front := "[" + host;
    var value := front + [']'] + (":" + p);
    var bare := front + [']'] + "";
    assert value == "[" + host + "]:" + p && bare == "[" + host + "]";
    IndexOfFirst(front, ']', ":" + p);
    IndexOfFirst(front, ']', "");
    assert value[1..|front|] == host && value[|front| + 2..] == p && value[|front| + 1] == ':';
    assert bare[1..|front|] == host;
    SplitAs(value, host, port, defaultPort);
  }

  /** Without a port the default is used: no colon at all, a colon with nothing behind it, or more than one colon. */
  lemma DefaultPort(value: string, defaultPort: nat)
    requires value != "" && value[0] != '['
    ensures ':' !in value ==> SplitHostPort(value, defaultPort) == Ok((Lower(Token(value, HOST_SIZE)), defaultPort))
    ensures ':' !in value ==>
      SplitHostPort(value + ":", defaultPort) == Ok((Lower(Token(value, HOST_SIZE)), defaultPort))
    ensures ':' in value && ':' in value[IndexOf(value, ':') + 1..] ==>
      SplitHostPort(value, defaultPort) == Ok((Lower(Token(value, HOST_SIZE)), defaultPort))
  {
    if ':' !in value {
      IndexOfFirst(value, ':', "");
      hide Token, IndexOf;
      var t := value + [':'] + "";
      assert t == value + ":" && t[..|value|] == value && t[|value| + 1..] == "" && t[0] == value[0];
    }
  }

  ghost predicate Usable(host: string, port: nat) {
    0 < port <= TCP_PORT_MAX && |host| < HOST_SIZE && Lower(host) == host
  }

  /** Every successful split yields a port in range and a lower-case host that fits its buffer. */
  lemma SplitIsUsable(value: string, defaultPort: nat)
    requires 0 < defaultPort <= TCP_PORT_MAX
    ensures var r := SplitHostPort(value, defaultPort); r.Ok? ==> Usable(r.value.0, r.value.1)
  {
    hide ParsePort, HostAndPort;
    if value != "" {
      var h := Token(HostAndPort(value).0, HOST_SIZE);
      assert Lower(Lower(h)) == Lower(h);
    }
  }

  lemma AbsoluteIsUsable(target: string)
    ensures var r := ParseAbsolute(target); r.Ok? ==> Usable(r.value.0, r.value.1) && |r.value.2| < PATH_SIZE
  {
    hide SplitHostPort, IndexOf, EqNoCase, Usable, CStr;
    var colon := IndexOf(target, ':');
    if colon + 2 < |target| {
      var rest := target[colon + 3..];
      SplitIsUsable(rest[..IndexOf(rest, '/')], if EqNoCase(target[..colon], "https") then 443 else 80);
    }
  }

  ghost predicate FieldsFit(p: Parsed) {
    Usable(p.host, p.port) && |p.method_| < METHOD_SIZE && |p.url| < URL_SIZE && |p.path| < PATH_SIZE
  }

  /** So does every successful parse of a request, whose fields all fit their buffers. */
  lemma ParseIsUsable(request: string)
    requires ParseRequest(request).Ok?
    ensures FieldsFit(ParseRequest(request).value)
  {
    hide ParseTarget, IndexOf, RequestLine, TrimLineEnd, Usable;
    var line := TrimLineEnd(request[..IndexOf(request, '\n')]);
    var (m, target) := RequestLine(line).value;
    TargetIsUsable(m, target, request[|line|..]);
  }

  lemma TargetIsUsable(m: string, target: string, behind: string)
    ensures var r := ParseTarget(m, target, behind);
      r.Ok? ==> FieldsFit(r.value)
  {
    hide SplitHostPort, HeaderValue, EqNoCase, ParseAbsolute, CStr, Usable, StartsWithScheme, SkipLineEnds;
    SplitIsUsable(target, 443);
    AbsoluteIsUsable(target);
    var host := HeaderValue(SkipLineEnds(behind), "Host");
    SplitIsUsable(if host.Some? then host.value else "", 80);
  }
}
