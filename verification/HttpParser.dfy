/** The request parser as the proxy runs it: cursors over the received bytes, results copied into fixed buffers. */
module HttpParser {
  import opened Wrappers
  import opened CText
  import opened HttpRequest

  /** The C string a buffer holds. */
  function Text(buffer: array<char>): string
    reads buffer
  {
    CStr(buffer[..])
  }

  /** Copy a token, cut to the buffer, and terminate it. */
  method CopyToken(buffer: array<char>, s: string)
    requires buffer.Length > 0
    modifies buffer
    ensures Text(buffer) == Token(s, buffer.Length)
  {
    var len := |s|;
    if len >= buffer.Length { len := buffer.Length - 1; }
    for i := 0 to len
      invariant buffer[..i] == s[..i]
    {
      buffer[i] := s[i];
    }
    buffer[len] := NUL;
    assert s[..len] == Cut(s, buffer.Length);
    CStrOfTerminated(buffer[..], Cut(s, buffer.Length));
  }

  /** Lower the case of the C string in a buffer, in place. */
  method LowercaseAscii(buffer: array<char>)
    modifies buffer
    ensures Text(buffer) == Lower(old(Text(buffer)))
  {
    ghost var was := buffer[..];
    ghost var text := CStr(was);
    var i := 0;
    while i < buffer.Length && buffer[i] != NUL
      invariant i <= |text| <= buffer.Length
      invariant forall j :: 0 <= j < i ==> buffer[j] == LowerChar(was[j])
      invariant forall j :: i <= j < buffer.Length ==> buffer[j] == was[j]
    {
      if 'A' <= buffer[i] <= 'Z' { buffer[i] := (buffer[i] as int + 32) as char; }
      i := i + 1;
    }
    assert i == |text|;
    LoweredText(was, buffer[..], |text|);
  }

  lemma LoweredText(was: string, now: string, n: nat)
    requires |was| == |now| && n == |CStr(was)|
    requires forall j :: 0 <= j < n ==> now[j] == LowerChar(was[j])
    requires forall j :: n <= j < |was| ==> now[j] == was[j]
    ensures CStr(now) == Lower(CStr(was))
  {
    var a, b := CStr(now), Lower(CStr(was));
    assert forall j :: 0 <= j < n ==> now[j] != NUL;
    assert |a| == n;
  }

  method FindByte(s: string, from: nat, c: char) returns (at: nat)
    requires from <= |s|
    ensures at == from + IndexOf(s[from..], c) <= |s|
  {
    at := from;
    while at < |s| && s[at] != c
      invariant from <= at <= |s| && IndexOf(s[from..], c) == at - from + IndexOf(s[at..], c)
    {
      assert s[at..][1..] == s[at + 1..];
      at := at + 1;
    }
  }

  method FindBlank(s: string, from: nat, end: nat) returns (at: nat)
    requires from <= end <= |s|
    ensures at == from + WordLength(s[from..end]) <= end
  {
    at := from;
    while at < end && s[at] != ' ' && s[at] != '\t'
      invariant from <= at <= end && WordLength(s[from..end]) == at - from + WordLength(s[at..end])
    {
      assert s[at..end][1..] == s[at + 1..end];
      at := at + 1;
    }
  }

  method SkipBlanksIn(s: string, from: nat, end: nat) returns (at: nat)
    requires from <= end <= |s|
    ensures from <= at <= end && SkipBlanks(s[from..end]) == s[at..end]
  {
    at := from;
    while at < end && (s[at] == ' ' || s[at] == '\t')
      invariant from <= at <= end && SkipBlanks(s[from..end]) == SkipBlanks(s[at..end])
    {
      assert s[at..end][1..] == s[at + 1..end];
      at := at + 1;
    }
  }

  /** End of `s[from..end]` without the line-end characters it ends in. */
  method TrimEnd(s: string, from: nat, end: nat) returns (to: nat)
    requires from <= end <= |s|
    ensures from <= to <= end && TrimLineEnd(s[from..end]) == s[from..to]
  {
    to := end;
    while to > from && (s[to - 1] == '\r' || s[to - 1] == '\n')
      invariant from <= to <= end && TrimLineEnd(s[from..end]) == TrimLineEnd(s[from..to])
    {
      var t := s[from..to];
      assert t[|t| - 1] == s[to - 1] && t[..|t| - 1] == s[from..to - 1];
      to := to - 1;
    }
    if to > from { assert s[from..to][to - from - 1] == s[to - 1]; }
  }

  method FindHeader(s: string, from: nat, name: string) returns (found: bool, start: nat, end: nat)
    requires from <= |s|
    ensures found ==> start <= end <= |s|
    ensures HeaderValue(s[from..], name) == if found then Some(s[start..end]) else None
  {
    hide IndexOf, TrimLineEnd, IsHeader, SkipBlanks, HeaderValue;
    NoHeader(name);
    var cursor := from;
    while cursor < |s|
      invariant from <= cursor <= |s| && HeaderValue(s[from..], name) == HeaderValue(s[cursor..], name)
    {
      var lineEnd := FindByte(s, cursor, '\n');
      var trimmed := TrimEnd(s, cursor, lineEnd);
      var line := s[cursor..trimmed];
      HeaderStep(s, cursor, lineEnd, line, name);
      if IsHeader(line, name) {
        assert line[|name| + 1..] == s[cursor + |name| + 1..trimmed];
        start := SkipBlanksIn(s, cursor + |name| + 1, trimmed);
        return true, start, trimmed;
      }
      if lineEnd == |s| { return false, 0, 0; }
      cursor := lineEnd + 1;
    }
    assert s[cursor..] == "";
    return false, 0, 0;
  }

  lemma NoHeader(name: string)
    ensures HeaderValue("", name) == None
  {
  }

  /** One line of the header search. */
  lemma HeaderStep(s: string, from: nat, lineEnd: nat, line: string, name: string)
    requires from < |s| && from <= lineEnd <= |s| && lineEnd == from + IndexOf(s[from..], '\n')
    requires TrimLineEnd(s[from..lineEnd]) == line
    ensures IsHeader(line, name) ==>
      |line| > |name| && HeaderValue(s[from..], name) == Some(SkipBlanks(line[|name| + 1..]))
    ensures !IsHeader(line, name) ==>
      HeaderValue(s[from..], name) == if lineEnd == |s| then None else HeaderValue(s[lineEnd + 1..], name)
  {
    hide IndexOf, TrimLineEnd, SkipBlanks, IsHeader, HeaderValue;
    var rest := s[from..];
    assert rest[..lineEnd - from] == s[from..lineEnd];
    if lineEnd < |s| { assert rest[lineEnd - from + 1..] == s[lineEnd + 1..]; }
    HeaderUnfolds(rest, name);
  }

  lemma HeaderUnfolds(s: string, name: string)
    requires s != ""
    ensures var n := IndexOf(s, '\n');
      var line := TrimLineEnd(s[..n]);
      && (IsHeader(line, name) ==> |line| > |name| && HeaderValue(s, name) == Some(SkipBlanks(line[|name| + 1..])))
      && (!IsHeader(line, name) ==> HeaderValue(s, name) == if n == |s| then None else HeaderValue(s[n + 1..], name))
  {
    hide IndexOf, TrimLineEnd, SkipBlanks, EqNoCase;
  }

  /** Read the digits a text starts with. */
  method ReadDigits(u: string) returns (n: nat, value: nat)
    ensures n == DigitsLength(u) && value == DigitsValue(u, n)
  {
    n, value := 0, 0;
    while n < |u| && IsDigit(u[n])
      invariant n <= |u| && (forall i :: 0 <= i < n ==> IsDigit(u[i])) && value == DigitsValue(u, n)
      invariant DigitsLength(u) == n + DigitsLength(u[n..])
    {
      assert u[n..][1..] == u[n + 1..];
      value := value * 10 + (u[n] as int - '0' as int);
      n := n + 1;
    }
  }

  method ParseUnsignedText(s: string) returns (v: Option<nat>)
    requires |s| < PORT_TEXT_SIZE
    ensures v == ParseUnsigned(s)
  {
    hide TrimLeft, DigitsLength, DigitsValue;
    var t := TrimLeft(s);
    var signed := t != "" && (t[0] == '-' || t[0] == '+');
    var u := if signed then t[1..] else t;
    var n, value := ReadDigits(u);
    if n == 0 || n < |u| { return None; }
    value := value % WORD;
    return Some(if signed && t[0] == '-' && value > 0 then WORD - value else value);
  }

  /** Split an authority into a lower-case host, left in the buffer, and a port. */
  method SplitAuthority(value: string, defaultPort: nat, host: array<char>) returns (r: Result<nat>)
    requires host.Length == HOST_SIZE
    modifies host
    ensures match SplitHostPort(value, defaultPort)
      case Err(e) => r == Err(e)
      case Ok((name, port)) => r == Ok(port) && Text(host) == name
  {
    hide IndexOf, CStr, ParseUnsigned;
    if value == "" { return Err(EINVAL); }
    var start, end, port := 0, |value|, |value|;
    if value[0] == '[' {
      var closing := FindByte(value, 0, ']');
      assert value[0..] == value;
      if closing < |value| {
        start, end := 1, closing;
        if closing + 1 < |value| && value[closing + 1] == ':' { port := closing + 2; }
      }
    } else {
      var colon := FindByte(value, 0, ':');
      assert value[0..] == value;
      if colon < |value| {
        var second := FindByte(value, colon + 1, ':');
        SecondColon(value, colon);
        if second == |value| { end, port := colon, colon + 1; }
      }
    }
    ghost var text := HostAndPort(value).1;
    assert value[start..end] == HostAndPort(value).0;
    assert port < |value| <==> text.Some? && text.value != "";
    assert port < |value| ==> text.value == value[port..];
    if end <= start { return Err(EINVAL); }
    CopyToken(host, value[start..end]);
    LowercaseAscii(host);
    if port >= |value| { return Ok(defaultPort); }
    if |value| - port >= PORT_TEXT_SIZE { return Err(EINVAL); }
    var parsed := ParseUnsignedText(CStr(value[port..]));
    if parsed.None? || !(0 < parsed.value % HALF_WORD <= TCP_PORT_MAX) { return Err(EINVAL); }
    return Ok(parsed.value % HALF_WORD);
  }

  lemma SecondColon(value: string, colon: nat)
    requires colon < |value|
    ensures colon + 1 + IndexOf(value[colon + 1..], ':') == |value| <==> ':' !in value[colon + 1..]
  {
  }

  /** The method and target words of a request line that ends at `end`. */
  method SplitRequestLine(request: string, end: nat) returns (words: Option<(string, string)>)
    requires end <= |request|
    ensures words == RequestLine(request[..end])
  {
    hide WordLength, SkipBlanks;
    ghost var line := request[..end];
    var methodEnd := FindBlank(request, 0, end);
    var targetStart := SkipBlanksIn(request, methodEnd, end);
    var targetEnd := FindBlank(request, targetStart, end);
    var versionStart := SkipBlanksIn(request, targetEnd, end);
    assert request[0..end] == line && line[methodEnd..] == request[methodEnd..end];
    ghost var second := request[targetStart..end];
    assert second[targetEnd - targetStart..] == request[targetEnd..end];
    if methodEnd == 0 || targetStart == targetEnd || versionStart == end { return None; }
    assert line[..methodEnd] == request[..methodEnd];
    assert second[..targetEnd - targetStart] == request[targetStart..targetEnd];
    return Some((request[..methodEnd], request[targetStart..targetEnd]));
  }

  /** The parsed request: buffers that the parser fills. */
  class ProxyRequest {
    const method_: array<char>
    const url: array<char>
    const host: array<char>
    const path: array<char>
    var port: nat
    var isConnect: bool

    ghost predicate Valid() {
      && method_.Length == METHOD_SIZE && url.Length == URL_SIZE && host.Length == HOST_SIZE && path.Length == PATH_SIZE
      && method_ != url && method_ != host && method_ != path && url != host && url != path && host != path
    }

    /** What the buffers say. */
    function Value(): Parsed
      reads this, method_, url, host, path
    {
      Parsed(Text(method_), Text(url), Text(host), port, Text(path), isConnect)
    }

    constructor ()
      ensures Valid() && fresh(method_) && fresh(url) && fresh(host) && fresh(path)
    {
      method_ := new char[METHOD_SIZE](_ => NUL);
      url := new char[URL_SIZE](_ => NUL);
      host := new char[HOST_SIZE](_ => NUL);
      path := new char[PATH_SIZE](_ => NUL);
      port, isConnect := 0, false;
    }

    method ParseUrl(target: string) returns (r: Result<()>)
      requires Valid()
      modifies this`port, host, path
      ensures match ParseAbsolute(target)
        case Err(e) => r == Err(e)
        case Ok((name, p, way)) => r == Ok(()) && Text(host) == name && port == p && Text(path) == way
    {
      hide IndexOf, SplitHostPort, CStr, EqNoCase;
      var colon := FindByte(target, 0, ':');
      assert target[0..] == target;
      if colon + 2 >= |target| || target[colon + 1] != '/' || target[colon + 2] != '/' { return Err(EINVAL); }
      var authority := colon + 3;
      var slash := FindByte(target, authority, '/');
      assert target[authority..][..slash - authority] == target[authority..slash];
      assert target[authority..][slash - authority..] == target[slash..];
      var defaultPort := if EqNoCase(target[..colon], "https") then 443 else 80;
      var split := SplitAuthority(target[authority..slash], defaultPort, host);
      if split.Err? { return Err(split.error); }
      port := split.value;
      SlashToken();
      CopyToken(path, if slash < |target| then target[slash..] else "/");
      return Ok(());
    }

    method ParseOrigin(request: string, lineEnd: nat, target: string) returns (r: Result<()>)
      requires Valid() && lineEnd <= |request|
      modifies this`port, url, host, path
      ensures var name := HeaderValue(SkipLineEnds(request[lineEnd..]), "Host");
        match OriginUrl(target, name)
        case Err(e) => r == Err(e)
        case Ok(link) =>
          match SplitHostPort(if name.Some? then name.value else "", 80)
          case Err(e) => r == Err(e)
          case Ok((h, p)) =>
            && r == Ok(()) && Text(url) == link && Text(host) == h && port == p
            && Text(path) == Token(target, PATH_SIZE)
    {
      hide SplitHostPort, CStr, HeaderValue;
      var headers := lineEnd;
      while headers < |request| && (request[headers] == '\r' || request[headers] == '\n')
        invariant lineEnd <= headers <= |request|
        invariant SkipLineEnds(request[lineEnd..]) == SkipLineEnds(request[headers..])
      {
        assert request[headers..][1..] == request[headers + 1..];
        headers := headers + 1;
      }
      var found, start, end := FindHeader(request, headers, "Host");
      var name := if found then request[start..end] else "";
      if name == "" || target == "" || target[0] != '/' {
        CopyToken(url, target);
      } else {
        var link := "http://" + CStr(name) + CStr(target);
        if |link| >= URL_SIZE { return Err(ENAMETOOLONG); }
        CopyToken(url, link);
        LinkToken(name, target);
      }
      var split := SplitAuthority(name, 80, host);
      if split.Err? { return Err(split.error); }
      port := split.value;
      CopyToken(path, target);
      return Ok(());
    }

    /** Parse a request into the buffers. */
    method Parse(request: string) returns (r: Result<()>)
      requires Valid()
      modifies this, method_, url, host, path
      ensures match ParseRequest(request)
        case Err(e) => r == Err(e)
        case Ok(parsed) => r == Ok(()) && Value() == parsed
    {
      hide IndexOf, TrimLineEnd, RequestLine, ParseTarget;
      isConnect := false;
      var newline := FindByte(request, 0, '\n');
      assert request[0..] == request;
      if newline == |request| { return Err(EINVAL); }
      var lineEnd := TrimEnd(request, 0, newline);
      assert request[0..newline] == request[..newline];
      assert request[0..lineEnd] == request[..lineEnd];
      var words := SplitRequestLine(request, lineEnd);
      if words.None? { return Err(EINVAL); }
      r := ParseWords(request, lineEnd, words.value.0, words.value.1);
    }

    method ParseWords(request: string, lineEnd: nat, name: string, target: string) returns (r: Result<()>)
      requires Valid() && lineEnd <= |request| && !isConnect
      modifies this, method_, url, host, path
      ensures match ParseTarget(name, target, request[lineEnd..])
        case Err(e) => r == Err(e)
        case Ok(parsed) => r == Ok(()) && Value() == parsed
    {
      hide SplitHostPort, CStr, HeaderValue, EqNoCase, StartsWithScheme, ParseAbsolute, OriginUrl, SkipLineEnds;
      CopyToken(method_, name);
      if EqNoCase(Text(method_), "CONNECT") {
        CopyToken(url, target);
        isConnect := true;
        var split := SplitAuthority(target, 443, host);
        CopyToken(path, "");
        EmptyToken();
        if split.Err? { return Err(split.error); }
        port := split.value;
        return Ok(());
      }
      if StartsWithScheme(target) {
        CopyToken(url, target);
        r := ParseUrl(target);
        return;
      }
      r := ParseOrigin(request, lineEnd, target);
    }
  }

  lemma SlashToken()
    ensures Token("/", PATH_SIZE) == "/"
  {
    PlainCStr("/");
  }

  lemma EmptyToken()
    ensures Token("", PATH_SIZE) == ""
  {
  }

  lemma PlainToken(s: string, size: nat)
    requires |s| < size && forall i :: 0 <= i < |s| ==> s[i] != NUL
    ensures Token(s, size) == s
  {
    PlainCStr(s);
  }

  lemma PlainLink(front: string, name: string, target: string)
    requires forall i :: 0 <= i < |front| ==> front[i] != NUL
    ensures var link := front + CStr(name) + CStr(target); forall i :: 0 <= i < |link| ==> link[i] != NUL
  {
    hide CStr;
  }

  lemma LinkToken(name: string, target: string)
    requires |"http://" + CStr(name) + CStr(target)| < URL_SIZE
    ensures Token("http://" + CStr(name) + CStr(target), URL_SIZE) == "http://" + CStr(name) + CStr(target)
  {
    hide CStr, Token;
    PlainLink("http://", name, target);
    PlainToken("http://" + CStr(name) + CStr(target), URL_SIZE);
  }
}
