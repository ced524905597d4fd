/** The two ways a client can write the same plain HTTP request to a proxy: absolute-form, and origin-form with a
    Host header (sections 3.2.1 and 3.2.2 of RFC 9112). */
module HttpForms {
  import opened Wrappers
  import opened CText
  import opened HttpRequest

  /** Text as it may stand in a request line or header value: no blanks, line ends or NUL. */
  ghost predicate Visible(s: string) {
    forall i :: 0 <= i < |s| ==> !IsBlank(s[i]) && s[i] != '\r' && s[i] != '\n' && s[i] != NUL
  }

  ghost predicate OneLine(s: string) { forall i :: 0 <= i < |s| ==> s[i] != '\r' && s[i] != '\n' }

  function Line(method_: string, target: string, version: string): string {
    method_ + (" " + (target + (" " + version)))
  }

  function Request(method_: string, target: string, version: string, headers: string): string {
    Line(method_, target, version) + ("\r\n" + headers)
  }

  /** Header lines, each with its line end, and then the rest. */
  function LinesThen(lines: seq<string>, rest: string): string {
    if lines == [] then rest else lines[0] + ("\r\n" + LinesThen(lines[1..], rest))
  }

  function AbsoluteForm(method_: string, authority: string, path: string, version: string, headers: string): string {
    Request(method_, "http://" + authority + path, version, headers)
  }

  /** `name` is "Host" in any case, `space` the white space in front of its value and `blank` that behind it. */
  function OriginForm(method_: string, authority: string, path: string, version: string, before: seq<string>,
                      name: string, space: string, blank: string, after: string): string {
    Request(method_, path, version, LinesThen(before, HostHeader(name, space, authority + blank, after)))
  }

  /** A header line and what follows it. */
  function HostHeader(name: string, space: string, value: string, after: string): string {
    name + (":" + (space + (value + ("\r\n" + after))))
  }

  ghost predicate Blanks(s: string) { forall i :: 0 <= i < |s| ==> IsBlank(s[i]) }

  /** The lines in front of the Host header, its name and the white space around its value. */
  ghost predicate IsHostLine(before: seq<string>, name: string, space: string, blank: string) {
    && EqNoCase(name, "Host") && Blanks(space) && Blanks(blank)
    && forall l :: 0 <= l < |before| ==> OneLine(before[l]) && !IsHeader(before[l], "Host")
  }

  /** A header value as it is read: it starts with no blank. */
  ghost predicate IsValue(value: string) { value != "" && !IsBlank(value[0]) && OneLine(value) }

  // ---------- the request line ----------

  lemma {:induction false} WordEnds(w: string, rest: string)
    requires Visible(w) && (rest == "" || IsBlank(rest[0]))
    ensures WordLength(w + rest) == |w|
  {
    if w == "" { assert w + rest == rest; }
    else {
      assert (w + rest)[1..] == w[1..] + rest && (w + rest)[0] == w[0];
      WordEnds(w[1..], rest);
    }
  }

  lemma OneBlank(s: string)
    requires s != "" && !IsBlank(s[0])
    ensures SkipBlanks(" " + s) == s
  {
    assert (" " + s)[1..] == s && SkipBlanks(s) == s;
  }

  lemma LineWords(m: string, target: string, version: string)
    requires Visible(m) && Visible(target) && Visible(version) && m != "" && target != "" && version != ""
    ensures RequestLine(Line(m, target, version)) == Some((m, target))
  {
    hide WordLength, SkipBlanks;
    var second := target + (" " + version);
    var line := m + (" " + second);
    WordEnds(m, " " + second);
    assert line[|m|..] == " " + second && line[..|m|] == m;
    assert second[0] == target[0];
    OneBlank(second);
    WordEnds(target, " " + version);
    assert second[|target|..] == " " + version && second[..|target|] == target;
    OneBlank(version);
  }

  lemma LineEndFound(line: string, rest: string)
    requires OneLine(line)
    ensures IndexOf(line + ("\r\n" + rest), '\n') == |line| + 1
    ensures TrimLineEnd((line + ("\r\n" + rest))[..|line| + 1]) == line
  {
    var s := line + ("\r\n" + rest);
    hide IndexOf, TrimLineEnd;
    assert s[|line|] == '\r' && s[|line| + 1] == '\n';
    assert forall i :: 0 <= i < |line| ==> s[i] == line[i];
    assert s[..|line| + 1] == line + ['\r'];
    OneCrTrimmed(line);
  }

  lemma OneCrTrimmed(line: string)
    requires OneLine(line)
    ensures TrimLineEnd(line + ['\r']) == line
  {
    var t := line + ['\r'];
    assert t[..|t| - 1] == line;
  }

  lemma LineIsOneLine(m: string, target: string, version: string)
    requires Visible(m) && Visible(target) && Visible(version)
    ensures OneLine(Line(m, target, version))
  {
    VisibleOneLine(m);
    VisibleOneLine(target);
    VisibleOneLine(version);
    OneLineConcat(" ", version);
    OneLineConcat(target, " " + version);
    OneLineConcat(" ", target + (" " + version));
    OneLineConcat(m, " " + (target + (" " + version)));
  }

  lemma RequestParses(m: string, target: string, version: string, headers: string)
    requires Visible(m) && Visible(target) && Visible(version) && m != "" && target != "" && version != ""
    ensures ParseRequest(Request(m, target, version, headers)) == ParseTarget(m, target, "\r\n" + headers)
  {
    hide ParseTarget, RequestLine, IndexOf, TrimLineEnd, Line;
    var line := Line(m, target, version);
    var request := line + ("\r\n" + headers);
    LineIsOneLine(m, target, version);
    LineEndFound(line, headers);
    LineWords(m, target, version);
    assert request[|line|..] == "\r\n" + headers;
  }

  // ---------- headers ----------

  lemma HeaderLine(line: string, rest: string, name: string)
    requires OneLine(line)
    ensures HeaderValue(line + ("\r\n" + rest), name) ==
      if IsHeader(line, name) then Some(SkipBlanks(line[|name| + 1..])) else HeaderValue(rest, name)
  {
    hide IndexOf, TrimLineEnd, IsHeader, SkipBlanks;
    var s := line + ("\r\n" + rest);
    LineEndFound(line, rest);
    assert s[|line| + 2..] == rest;
  }

  lemma HostLine(name: string, space: string, value: string)
    requires EqNoCase(name, "Host") && IsValue(value) && Blanks(space)
    ensures var line := name + (":" + (space + value));
      OneLine(line) && IsHeader(line, "Host") && SkipBlanks(line[5..]) == value
  {
    hide EqNoCase, IsBlank, SkipBlanks;
    NameChars(name);
    var spaced := space + value;
    SpacesSkipped(space, value);
    BlanksOneLine(space);
    OneLineConcat(space, value);
    OneLineConcat(":", spaced);
    OneLineConcat(name, ":" + spaced);
    NameIsHeader(name, spaced);
  }

  lemma NameIsHeader(name: string, value: string)
    requires EqNoCase(name, "Host") && |name| == 4 && |"Host"| == 4
    ensures var line := name + (":" + value); IsHeader(line, "Host") && line[5..] == value
  {
    hide EqNoCase;
    var line := name + (":" + value);
    assert line[..4] == name && line[4] == ':';
  }

  /** White space behind the value is not trimmed. */
  lemma ValueWithBlanks(authority: string, blank: string)
    requires Visible(authority) && authority != "" && Blanks(blank)
    ensures IsValue(authority + blank) && CStr(authority + blank) == authority + blank
  {
    VisibleOneLine(authority);
    BlanksOneLine(blank);
    OneLineConcat(authority, blank);
    PlainCStr(authority + blank);
  }

  lemma VisibleOneLine(s: string)
    requires Visible(s)
    ensures OneLine(s)
  {
  }

  lemma OneLineConcat(a: string, b: string)
    requires OneLine(a) && OneLine(b)
    ensures OneLine(a + b)
  {
  }

  lemma NameChars(name: string)
    requires EqNoCase(name, "Host")
    ensures |name| == 4 && OneLine(name) && |"Host"| == 4
  {
    assert |Lower(name)| == 4;
    forall i | 0 <= i < 4 ensures name[i] != '\r' && name[i] != '\n' {
      assert LowerChar(name[i]) == Lower(name)[i] == Lower("Host")[i];
    }
  }

  lemma BlanksOneLine(space: string)
    requires Blanks(space)
    ensures OneLine(space)
  {
  }

  lemma {:induction false} SpacesSkipped(space: string, s: string)
    requires s != "" && !IsBlank(s[0]) && Blanks(space)
    ensures SkipBlanks(space + s) == s
  {
    if space == "" { assert space + s == s; }
    else {
      assert (space + s)[1..] == space[1..] + s && (space + s)[0] == space[0];
      SpacesSkipped(space[1..], s);
    }
  }

  lemma {:induction false} HostFound(before: seq<string>, name: string, space: string, value: string, after: string)
    requires IsHostLine(before, name, space, "") && IsValue(value)
    ensures HeaderValue(LinesThen(before, HostHeader(name, space, value, after)), "Host") == Some(value)
  {
    var host := HostHeader(name, space, value, after);
    hide HeaderValue, IsHeader, EqNoCase, SkipBlanks, IsValue, Blanks;
    if before == [] {
      var line := name + (":" + (space + value));
      assert host == line + ("\r\n" + after);
      HostLine(name, space, value);
      HeaderLine(line, after, "Host");
    } else {
      HeaderLine(before[0], LinesThen(before[1..], host), "Host");
      HostFound(before[1..], name, space, value, after);
    }
  }

  /** Skipping line ends in front of the headers drops empty lines only. */
  lemma {:induction false} SkippedLines(before: seq<string>, host: string)
    requires host == "" || (host[0] != '\r' && host[0] != '\n')
    requires forall l :: 0 <= l < |before| ==> OneLine(before[l])
    ensures exists k: nat ::
      k <= |before| && SkipLineEnds("\r\n" + LinesThen(before, host)) == LinesThen(before[k..], host)
  {
    var body := LinesThen(before, host);
    assert ("\r\n" + body)[1..] == "\n" + body && ("\n" + body)[1..] == body;
    assert SkipLineEnds("\r\n" + body) == SkipLineEnds(body);
    assert before[0..] == before;
    if before == [] {
    } else if before[0] == "" {
      assert body == "\r\n" + LinesThen(before[1..], host);
      SkippedLines(before[1..], host);
      var k: nat :| k <= |before| - 1
        && SkipLineEnds("\r\n" + LinesThen(before[1..], host)) == LinesThen(before[1..][k..], host);
      assert before[1..][k..] == before[k + 1..];
    } else {
      assert body[0] == before[0][0];
    }
  }

  lemma LaterLines(before: seq<string>, k: nat)
    requires k <= |before| && forall l :: 0 <= l < |before| ==> OneLine(before[l]) && !IsHeader(before[l], "Host")
    ensures forall l :: 0 <= l < |before[k..]| ==> OneLine(before[k..][l]) && !IsHeader(before[k..][l], "Host")
  {
    hide OneLine, IsHeader;
    forall l | 0 <= l < |before[k..]| ensures OneLine(before[k..][l]) && !IsHeader(before[k..][l], "Host") {
      assert before[k..][l] == before[k + l];
    }
  }

  lemma HostOfRequest(before: seq<string>, name: string, space: string, value: string, after: string)
    requires IsHostLine(before, name, space, "") && IsValue(value)
    ensures HeaderValue(SkipLineEnds("\r\n" + LinesThen(before, HostHeader(name, space, value, after))), "Host")
      == Some(value)
  {
    var host := HostHeader(name, space, value, after);
    NameIsLetters(name);
    hide HeaderValue, IsHeader, EqNoCase, SkipLineEnds, LinesThen, IsValue, OneLine, Blanks;
    assert host[0] == name[0];
    SkippedLines(before, host);
    var k: nat :| k <= |before| && SkipLineEnds("\r\n" + LinesThen(before, host)) == LinesThen(before[k..], host);
    LaterLines(before, k);
    HostFound(before[k..], name, space, value, after);
  }

  lemma NameIsLetters(name: string)
    requires EqNoCase(name, "Host")
    ensures name != "" && name[0] != '\r' && name[0] != '\n'
  {
    assert |Lower(name)| == 4;
    assert LowerChar(name[0]) == Lower(name)[0] == Lower("Host")[0];
  }

  // ---------- the two forms ----------

  ghost predicate IsRequest(m: string, authority: string, path: string, version: string) {
    && Visible(m) && Visible(authority) && Visible(path) && Visible(version)
    && m != "" && authority != "" && version != "" && path != "" && path[0] == '/'
    && (forall i :: 0 <= i < |authority| ==> authority[i] != '/')
    && !EqNoCase(Token(m, METHOD_SIZE), "CONNECT")
  }

  /** What both forms agree on, with the URL as one of them has it. */
  function Outcome(m: string, authority: string, path: string, url: string): Result<Parsed> {
    match SplitHostPort(authority, 80)
    case Err(e) => Err(e)
    case Ok((host, port)) => Ok(Parsed(Token(m, METHOD_SIZE), url, host, port, Token(path, PATH_SIZE), false))
  }

  lemma AbsoluteTarget(authority: string, path: string)
    requires path != "" && path[0] == '/' && forall i :: 0 <= i < |authority| ==> authority[i] != '/'
    ensures var target := "http://" + authority + path;
      && StartsWithScheme(target)
      && ParseAbsolute(target) == match SplitHostPort(authority, 80)
           case Err(e) => Err(e)
           case Ok((host, port)) => Ok((host, port, Token(path, PATH_SIZE)))
  {
    HttpIsHttp();
    hide SplitHostPort, Token, StartsWithScheme, ParseAbsolute, EqNoCase;
    SchemeTarget("http", authority, path);
    assert "http" + (":" + ("//" + (authority + path))) == "http://" + authority + path;
  }

  lemma HttpIsHttp()
    ensures EqNoCase("http", "http") && !EqNoCase("http", "https")
  {
    assert |Lower("http")| == 4 && |Lower("https")| == 5;
  }

  lemma BareTarget(authority: string)
    requires forall i :: 0 <= i < |authority| ==> authority[i] != '/'
    ensures var target := "http://" + authority;
      && (|authority| > 0 ==> StartsWithScheme(target))
      && (|authority| > 0 ==> ParseAbsolute(target) == match SplitHostPort(authority, 80)
            case Err(e) => Err(e)
            case Ok((host, port)) => Ok((host, port, "/")))
  {
    var target := "http://" + authority;
    if |authority| > 0 {
      assert target[..7] == "http://";
      assert |"http"| == 4 && target == "http" + [':'] + ("//" + authority);
      IndexOfFirst("http", ':', "//" + authority);
      assert target[4 + 3..] == authority && target[5] == '/' && target[6] == '/';
      IndexOfFirst(authority, '/', "");
      assert authority[..|authority|] == authority;
      assert |Lower("https")| == 5 && |Lower(target[..4])| == 4;
      hide SplitHostPort, Token, IndexOf;
    }
  }

  /** What stands behind the authority of the absolute form: the path, or nothing for the path "/". */
  predicate Stands(sent: string, path: string) { sent == path || (sent == "" && path == "/") }

  lemma AbsoluteParses(m: string, authority: string, path: string, sent: string, version: string, headers: string)
    requires IsRequest(m, authority, path, version) && Stands(sent, path)
    ensures ParseRequest(AbsoluteForm(m, authority, sent, version, headers)) ==
            Outcome(m, authority, path, Token("http://" + authority + sent, URL_SIZE))
  {
    var target := "http://" + authority + sent;
    hide ParseRequest, SplitHostPort, Request, StartsWithScheme, ParseAbsolute, EqNoCase, CStr, HeaderValue;
    hide SkipLineEnds;
    if sent == path {
      AbsoluteTarget(authority, path);
    } else {
      BareTarget(authority);
      assert target == "http://" + authority;
      SlashPath();
    }
    RequestParses(m, target, version, headers);
  }

  lemma SlashPath()
    ensures Token("/", PATH_SIZE) == "/"
  {
    PlainCStr("/");
  }

  /** White space in front of the Host value is skipped, and white space behind it is read as a part of it. */
  lemma OriginParses(m: string, authority: string, path: string, version: string, before: seq<string>,
                     name: string, space: string, blank: string, after: string)
    requires IsRequest(m, authority, path, version) && IsHostLine(before, name, space, blank)
    ensures ParseRequest(OriginForm(m, authority, path, version, before, name, space, blank, after)) ==
            var url := "http://" + (authority + blank) + path;
            if |url| >= URL_SIZE then Err(ENAMETOOLONG) else Outcome(m, authority + blank, path, url)
  {
    NoScheme(path);
    ValueWithBlanks(authority, blank);
    PlainCStr(path);
    hide ParseRequest, SplitHostPort, Request, StartsWithScheme, ParseAbsolute, EqNoCase, CStr, HeaderValue;
    hide SkipLineEnds, LinesThen, Visible, IsHeader, HostHeader, IsValue, Blanks;
    var headers := LinesThen(before, HostHeader(name, space, authority + blank, after));
    RequestParses(m, path, version, headers);
    HostOfRequest(before, name, space, authority + blank, after);
  }

  lemma NoScheme(path: string)
    requires path != "" && path[0] == '/'
    ensures !StartsWithScheme(path)
  {
    if |path| >= 7 { assert Lower(path[..7])[0] == '/' && Lower("http://")[0] == 'h'; }
    if |path| >= 8 { assert Lower(path[..8])[0] == '/' && Lower("https://")[0] == 'h'; }
  }

  /** Two results that differ in the URL at most. */
  ghost predicate SameButUrl(a: Result<Parsed>, b: Result<Parsed>) {
    if a.Err? || b.Err? then a == b else a.value.(url := b.value.url) == b.value
  }

  lemma FormsAre(m: string, authority: string, path: string, sent: string, version: string, headers: string,
                 before: seq<string>, name: string, space: string, blank: string, after: string)
    requires IsRequest(m, authority, path, version) && Stands(sent, path) && IsHostLine(before, name, space, blank)
    ensures var url := "http://" + (authority + blank) + path;
      && ParseRequest(AbsoluteForm(m, authority, sent, version, headers)) ==
         Outcome(m, authority, path, Token("http://" + authority + sent, URL_SIZE))
      && ParseRequest(OriginForm(m, authority, path, version, before, name, space, blank, after)) ==
         (if |url| >= URL_SIZE then Err(ENAMETOOLONG) else Outcome(m, authority + blank, path, url))
      && (|url| < URL_SIZE ==> Token("http://" + authority + sent, URL_SIZE) == "http://" + authority + sent)
  {
    hide ParseRequest, AbsoluteForm, OriginForm, SplitHostPort, CStr, EqNoCase, IsHeader, Outcome, IsHostLine;
    AbsoluteParses(m, authority, path, sent, version, headers);
    OriginParses(m, authority, path, version, before, name, space, blank, after);
    var url := "http://" + authority + sent;
    assert forall i :: 0 <= i < |url| ==> url[i] != NUL;
    if |url| < URL_SIZE { PlainCStr(url); }
  }

  /** White space behind the authority changes nothing: it cannot be split either way, or it gives no port and its host
      is in brackets or cut. */
  predicate BlankIsNoMatter(authority: string)
    requires authority != ""
  {
    || SplitHostPort(authority, 80).Err?
    || (var (host, port) := HostAndPort(authority); port.None? && (host != authority || |authority| >= HOST_SIZE - 1))
  }

  lemma BlankBehindAuthority(authority: string, blank: string)
    requires authority != "" && Visible(authority) && Blanks(blank) && blank != ""
    ensures SplitHostPort(authority + blank, 80) == SplitHostPort(authority, 80) <==> BlankIsNoMatter(authority)
  {
    hide ParsePort, Token, IsBlank, HostAndPort;
    HostBeforeBlank(authority, blank);
    var (host, port) := HostAndPort(authority);
    if port.Some? {
      BlankBehindPort(port.value, blank);
    } else if host == authority {
      BlankBehindHost(authority, blank);
    }
  }

  /** The white space goes to the port if there is one, to the host if there is none, and nowhere behind a bracket. */
  lemma HostBeforeBlank(authority: string, blank: string)
    requires authority != "" && Visible(authority) && Blanks(blank) && blank != ""
    ensures var (host, port) := HostAndPort(authority);
      && HostAndPort(authority + blank) ==
         (if port.Some? then (host, Some(port.value + blank)) else if host == authority then (authority + blank, None)
          else (host, None))
      && (port.Some? ==> Visible(port.value))
  {
    hide IndexOf, IsBlank;
    IndexBeforeBlank(authority, blank, if authority[0] == '[' then ']' else ':') by { ColonIsNoBlank(blank); }
    ColonIsNoBlank(blank);
    PiecesBeforeBlank(authority, blank, IndexOf(authority, if authority[0] == '[' then ']' else ':'));
  }

  lemma ColonIsNoBlank(blank: string)
    requires Blanks(blank)
    ensures ':' !in blank && !IsBlank(':') && !IsBlank(']')
    ensures blank != "" ==> blank[0] != ':'
  {
  }

  lemma PiecesBeforeBlank(s: string, blank: string, n: nat)
    requires n <= |s|
    ensures var t := s + blank;
      && t[..n] == s[..n] && (0 < n ==> t[1..n] == s[1..n])
      && (n < |s| ==> t[n + 1..] == s[n + 1..] + blank)
      && (n + 2 <= |s| ==> t[n + 2..] == s[n + 2..] + blank)
  {
    var t := s + blank;
    assert t[..n] == s[..n];
    if 0 < n { assert t[1..n] == s[1..n]; }
    if n < |s| { assert t[n + 1..] == s[n + 1..] + blank; }
    if n + 2 <= |s| { assert t[n + 2..] == s[n + 2..] + blank; }
  }

  lemma {:induction false} IndexBeforeBlank(s: string, blank: string, c: char)
    requires Blanks(blank) && !IsBlank(c)
    ensures IndexOf(s + blank, c) == if IndexOf(s, c) == |s| then |s + blank| else IndexOf(s, c)
  {
    if s == "" {
      assert s + blank == blank;
    } else {
      assert (s + blank)[1..] == s[1..] + blank;
      IndexBeforeBlank(s[1..], blank, c);
    }
  }

  lemma BlankBehindPort(port: string, blank: string)
    requires Visible(port) && Blanks(blank) && blank != ""
    ensures ParsePort(port + blank) == None
  {
    var s := port + blank;
    PlainCStr(s);
    LastKept(s);
    hide CStr, TrimLeft;
  }

  lemma {:induction false} LastKept(s: string)
    requires s != ""
    ensures TrimLeft(s) == "" || TrimLeft(s)[|TrimLeft(s)| - 1] == s[|s| - 1]
  {
    if IsSpace(s[0]) && |s| > 1 { LastKept(s[1..]); }
  }

  lemma BlankBehindHost(host: string, blank: string)
    requires host != "" && Visible(host) && Blanks(blank) && blank != ""
    ensures Lower(Token(host + blank, HOST_SIZE)) == Lower(Token(host, HOST_SIZE)) <==> |host| >= HOST_SIZE - 1
  {
    var value := host + blank;
    if |host| >= HOST_SIZE - 1 {
      assert value[..HOST_SIZE - 1] == host[..HOST_SIZE - 1];
      assert host[..|host|] == host;
    } else {
      PlainCStr(host);
      PlainCStr(Cut(value, HOST_SIZE));
    }
  }

  /** The two forms of a request parse to the same method, host, port and path, whatever other header lines surround the
      Host header, exactly when the URL fits its buffer (beyond that the absolute form is cut where the origin form is
      refused) and no white space behind the Host value gets into the host or the port. */
  lemma FormsAgreeIff(m: string, authority: string, path: string, sent: string, version: string, headers: string,
                      before: seq<string>, name: string, space: string, blank: string, after: string)
    requires IsRequest(m, authority, path, version) && Stands(sent, path) && IsHostLine(before, name, space, blank)
    ensures SameButUrl(ParseRequest(AbsoluteForm(m, authority, sent, version, headers)),
                       ParseRequest(OriginForm(m, authority, path, version, before, name, space, blank, after)))
            <==> |"http://" + (authority + blank) + path| < URL_SIZE && (blank == "" || BlankIsNoMatter(authority))
  {
    hide ParseRequest, AbsoluteForm, OriginForm, SplitHostPort, Token, EqNoCase, IsHeader, BlankIsNoMatter, Stands;
    FormsAre(m, authority, path, sent, version, headers, before, name, space, blank, after);
    SplitNeverTooLong(authority);
    if blank == "" { assert authority + blank == authority; } else { BlankBehindAuthority(authority, blank); }
  }

  /** They agree on the URL as well exactly when the absolute form writes the path out, even where it is just "/" (the
      code does not add it), and there is no white space behind the Host value.  (Or when there is no URL, because the
      authority cannot be split.) */
  lemma UrlsAgreeIff(m: string, authority: string, path: string, sent: string, version: string, headers: string,
                     before: seq<string>, name: string, space: string, blank: string, after: string)
    requires IsRequest(m, authority, path, version) && Stands(sent, path) && IsHostLine(before, name, space, blank)
    ensures ParseRequest(AbsoluteForm(m, authority, sent, version, headers)) ==
            ParseRequest(OriginForm(m, authority, path, version, before, name, space, blank, after))
            <==> |"http://" + (authority + blank) + path| < URL_SIZE
                 && ((blank == "" && sent == path) || SplitHostPort(authority, 80).Err?)
  {
    hide ParseRequest, AbsoluteForm, OriginForm, SplitHostPort, Token, EqNoCase, IsHeader, BlankIsNoMatter;
    FormsAre(m, authority, path, sent, version, headers, before, name, space, blank, after);
    SplitNeverTooLong(authority);
    if blank == "" { assert authority + blank == authority; } else { BlankBehindAuthority(authority, blank); }
    assert |sent| <= |path| && (|sent| == |path| ==> sent == path);
    if SplitHostPort(authority, 80).Err? { ErrIsNoMatter(authority); }
  }

  lemma ErrIsNoMatter(authority: string)
    requires authority != "" && SplitHostPort(authority, 80).Err?
    ensures BlankIsNoMatter(authority)
  {
    hide SplitHostPort, HostAndPort;
  }

  /** A blank behind the Host value: behind a port the request is refused, and behind a host it becomes a part of it,
      while the absolute form of either is read without it. */
  lemma TrailingBlank()
    ensures ParseRequest(AbsoluteForm("GET", "h:80", "/", "HTTP/1.1", "")) ==
      Ok(Parsed("GET", "http://h:80/", "h", 80, "/", false))
    ensures ParseRequest(OriginForm("GET", "h:80", "/", "HTTP/1.1", [], "Host", " ", " ", "")) == Err(EINVAL)
    ensures ParseRequest(OriginForm("GET", "h", "/", "HTTP/1.1", [], "Host", " ", " ", "")) ==
      Ok(Parsed("GET", "http://h /", "h ", 80, "/", false))
  {
    PortOfH();
    hide ParseRequest, AbsoluteForm, OriginForm, SplitHostPort;
    SlashForms("h:80", " ");
    SlashForms("h", " ");
    assert "h:80" + " " == "h:80 " && "h" + " " == "h ";
    PlainOutcomes("h:80", "http://h:80/", "h");
    PlainOutcomes("h ", "http://h /", "h ");
    hide Outcome;
    assert "http://" + "h:80" + "/" == "http://h:80/" && "http://" + "h " + "/" == "http://h /";
    RefusedOutcome("h:80 ", "http://h:80 /");
    assert "http://" + "h:80 " + "/" == "http://h:80 /";
  }

  lemma SlashForms(authority: string, blank: string)
    requires (authority == "h:80" || authority == "h") && blank == " "
    ensures ParseRequest(AbsoluteForm("GET", authority, "/", "HTTP/1.1", "")) ==
      Outcome("GET", authority, "/", "http://" + authority + "/")
    ensures ParseRequest(OriginForm("GET", authority, "/", "HTTP/1.1", [], "Host", " ", blank, "")) ==
      Outcome("GET", authority + blank, "/", "http://" + (authority + blank) + "/")
  {
    GetSlash(authority);
    EmptyBefore(" ", blank);
    hide ParseRequest, AbsoluteForm, OriginForm, IsRequest, SplitHostPort, Token, IsHostLine, Outcome;
    FormsAre("GET", authority, "/", "/", "HTTP/1.1", "", [], "Host", " ", blank, "");
  }

  lemma PlainOutcomes(authority: string, url: string, host: string)
    requires SplitHostPort(authority, 80) == Ok((host, 80))
    ensures Outcome("GET", authority, "/", url) == Ok(Parsed("GET", url, host, 80, "/", false))
  {
    hide SplitHostPort, Token;
    PlainTokens();
  }

  lemma RefusedOutcome(authority: string, url: string)
    requires SplitHostPort(authority, 80) == Err(EINVAL)
    ensures Outcome("GET", authority, "/", url) == Err(EINVAL)
  {
    hide SplitHostPort, Token;
  }

  lemma PlainTokens()
    ensures Token("GET", METHOD_SIZE) == "GET" && Token("/", PATH_SIZE) == "/"
  {
    PlainCStr("GET");
    PlainCStr("/");
  }

  lemma EmptyBefore(space: string, blank: string)
    requires Blanks(space) && Blanks(blank)
    ensures IsHostLine([], "Host", space, blank)
  {
    SameNoCase("Host");
    hide EqNoCase, IsHeader;
  }

  lemma GetSlash(authority: string)
    requires authority == "h:80" || authority == "h"
    ensures IsRequest("GET", authority, "/", "HTTP/1.1")
  {
    GetIsNotConnect();
    hide EqNoCase;
    assert Visible("GET") && Visible(authority) && Visible("/") && Visible("HTTP/1.1");
  }

  /** With white space behind a port nothing is accepted. */
  lemma BlankRefused(authority: string, blank: string)
    requires authority != "" && Visible(authority) && Blanks(blank) && blank != "" && HostAndPort(authority).1.Some?
    ensures SplitHostPort(authority + blank, 80) == Err(EINVAL)
  {
    hide ParsePort, Token, IsBlank, HostAndPort;
    HostBeforeBlank(authority, blank);
    BlankBehindPort(HostAndPort(authority).1.value, blank);
  }

  lemma PortOfH()
    ensures SplitHostPort("h:80", 80) == Ok(("h", 80)) && SplitHostPort("h:80 ", 80) == Err(EINVAL)
    ensures SplitHostPort("h ", 80) == Ok(("h ", 80))
  {
    hide SplitHostPort, Lower, Token, HostAndPort;
    PortIsEighty("h", "80", "h:80");
    DefaultPort("h ", 80);
    LowerH("h ");
    BlankRefused("h:80", " ");
    assert "h:80" + " " == "h:80 ";
  }

  lemma PortIsEighty(host: string, port: string, authority: string)
    requires host == "h" && port == "80" && authority == "h:80"
    ensures SplitHostPort(authority, 80) == Ok((host, 80)) && HostAndPort(authority).1 == Some(port)
  {
    hide SplitHostPort, Decimal, Lower, Token, IndexOf;
    EightyIs();
    LowerH(host);
    HostPortRoundTrip(host, 80, 80);
    assert authority == host + ":" + port;
    assert authority[..1] == host && authority[2..] == port;
    ColonInMiddle(authority);
  }

  lemma ColonInMiddle(authority: string)
    requires authority == "h:80"
    ensures IndexOf(authority, ':') == 1 && ':' !in authority[2..]
  {
  }

  lemma EightyIs()
    ensures Decimal(80) == "80"
  {
    assert Decimal(8) == "8";
  }

  lemma LowerH(host: string)
    requires host == "h" || host == "h "
    ensures Lower(Token(host, HOST_SIZE)) == host
  {
    PlainCStr(host);
  }

  /** A query directly behind the authority is taken for a part of the host. */
  lemma QueryJoinsHost(host: string, query: string)
    requires host != "" && host[0] != '[' && (forall i :: 0 <= i < |host| ==> host[i] != ':' && host[i] != '/')
    requires forall i :: 0 <= i < |query| ==> query[i] != ':' && query[i] != '/'
    ensures var authority := host + "?" + query;
      ParseAbsolute("http://" + authority) == Ok((Lower(Token(authority, HOST_SIZE)), 80, "/"))
  {
    hide ParseAbsolute, SplitHostPort, Token, IndexOf;
    var authority := host + "?" + query;
    BareTarget(authority);
    DefaultPort(authority, 80);
  }

  /** The same request in two forms with different URLs. */
  lemma EmptyPath()
    ensures var a, b := ParseRequest(AbsoluteForm("GET", "h", "", "HTTP/1.1", "")),
                        ParseRequest(OriginForm("GET", "h", "/", "HTTP/1.1", [], "Host", " ", "", ""));
      SameButUrl(a, b) && a != b
  {
    GetSlash("h");
    DefaultPort("h", 80);
    EmptyBefore(" ", "");
    hide ParseRequest, AbsoluteForm, OriginForm, IsRequest, SplitHostPort, IsHostLine;
    FormsAgreeIff("GET", "h", "/", "", "HTTP/1.1", "", [], "Host", " ", "", "");
    UrlsAgreeIff("GET", "h", "/", "", "HTTP/1.1", "", [], "Host", " ", "", "");
  }

  lemma SameNoCase(s: string)
    ensures EqNoCase(s, s)
  {
  }

  lemma GetIsNotConnect()
    ensures !EqNoCase(Token("GET", METHOD_SIZE), "CONNECT")
  {
    PlainCStr("GET");
    assert |Lower("GET")| == 3 && |Lower("CONNECT")| == 7;
  }

  /** A URL one byte too long: the absolute form is parsed, the origin form is refused. */
  lemma LongUrl()
    ensures var path := "/" + seq(URL_SIZE, _ => 'a');
      var a, b := ParseRequest(AbsoluteForm("GET", "h", path, "HTTP/1.1", "")),
                  ParseRequest(OriginForm("GET", "h", path, "HTTP/1.1", [], "Host", " ", "", ""));
      a.Ok? && b == Err(ENAMETOOLONG)
  {
    var path := "/" + seq(URL_SIZE, _ => 'a');
    assert Visible("GET") && Visible("h") && Visible(path) && Visible("HTTP/1.1");
    GetIsNotConnect();
    assert IsRequest("GET", "h", path, "HTTP/1.1");
    DefaultPort("h", 80);
    EmptyBefore(" ", "");
    hide ParseRequest, AbsoluteForm, OriginForm, IsRequest, EqNoCase, SplitHostPort, IsHostLine;
    FormsAre("GET", "h", path, path, "HTTP/1.1", "", [], "Host", " ", "", "");
    assert "h" + "" == "h";
  }

  lemma SplitNeverTooLong(value: string)
    ensures SplitHostPort(value, 80) != Err(ENAMETOOLONG)
  {
    hide ParsePort, HostAndPort, Token;
  }

  /** When the host and port can be split, that common result is a success with the authority's host and port. */
  lemma FormsSucceed(m: string, host: string, port: nat, path: string, version: string, headers: string)
    requires host != "" && host[0] != '[' && (forall i :: 0 <= i < |host| ==> host[i] != ':')
      && 0 < port <= TCP_PORT_MAX
    requires IsRequest(m, host + ":" + Decimal(port), path, version)
    ensures var r := ParseRequest(AbsoluteForm(m, host + ":" + Decimal(port), path, version, headers));
      r.Ok? && r.value.host == Lower(Token(host, HOST_SIZE)) && r.value.port == port
  {
    hide ParseRequest, AbsoluteForm, SplitHostPort, Token, Decimal, IsRequest;
    AbsoluteParses(m, host + ":" + Decimal(port), path, path, version, headers);
    HostPortRoundTrip(host, port, 80);
  }

  // ---------- CONNECT ----------

  /** What a CONNECT request parses to, by which HTTPS reaches the proxy (section 9.3.6 of RFC 9110). */
  lemma ConnectParses(m: string, authority: string, version: string, headers: string)
    requires Visible(m) && Visible(authority) && Visible(version) && m != "" && authority != "" && version != ""
    requires EqNoCase(m, "CONNECT")
    ensures ParseRequest(Request(m, authority, version, headers)) ==
      match SplitHostPort(authority, 443)
      case Err(e) => Err(e)
      case Ok((host, port)) => Ok(Parsed(m, Token(authority, URL_SIZE), host, port, "", true))
  {
    ConnectMethod(m);
    hide ParseRequest, SplitHostPort, Token, EqNoCase, Request, HeaderValue, ParseAbsolute, SkipLineEnds;
    RequestParses(m, authority, version, headers);
  }

  lemma ConnectMethod(m: string)
    requires EqNoCase(m, "CONNECT") && Visible(m)
    ensures Token(m, METHOD_SIZE) == m
  {
    assert |Lower(m)| == |Lower("CONNECT")| == 7;
    PlainCStr(m);
  }

  /** Of the requests that parse exactly those with the method CONNECT, in any case, are marked as such. */
  lemma ConnectIff(request: string)
    requires ParseRequest(request).Ok?
    ensures var p := ParseRequest(request).value; p.isConnect <==> EqNoCase(p.method_, "CONNECT")
  {
    hide SplitHostPort, HeaderValue, Token, EqNoCase, ParseAbsolute, StartsWithScheme, OriginUrl, SkipLineEnds;
    hide IndexOf, TrimLineEnd, RequestLine;
  }

  // ---------- schemes ----------

  /** The scheme of an absolute URL, in any case, decides the port that stands in for none. */
  lemma SchemeParses(m: string, scheme: string, authority: string, path: string, version: string, headers: string)
    requires IsRequest(m, authority, path, version)
    requires EqNoCase(scheme, "http") || EqNoCase(scheme, "https")
    ensures var url := scheme + (":" + ("//" + (authority + path)));
      ParseRequest(Request(m, url, version, headers)) ==
        match SplitHostPort(authority, if EqNoCase(scheme, "https") then 443 else 80)
        case Err(e) => Err(e)
        case Ok((host, port)) =>
          Ok(Parsed(Token(m, METHOD_SIZE), Token(url, URL_SIZE), host, port, Token(path, PATH_SIZE), false))
  {
    var url := scheme + (":" + ("//" + (authority + path)));
    SchemeLetters(scheme);
    SchemeTarget(scheme, authority, path);
    hide ParseRequest, SplitHostPort, Request, StartsWithScheme, ParseAbsolute, EqNoCase, Token, HeaderValue;
    hide SkipLineEnds;
    VisibleUrl(scheme, authority + path);
    hide Visible;
    RequestParses(m, url, version, headers);
  }

  lemma VisibleUrl(scheme: string, rest: string)
    requires Visible(scheme) && Visible(rest)
    ensures Visible(scheme + (":" + ("//" + rest)))
  {
    assert Visible("//") && Visible(":");
  }

  lemma SchemeLetters(scheme: string)
    requires EqNoCase(scheme, "http") || EqNoCase(scheme, "https")
    ensures Visible(scheme) && ':' !in scheme && |scheme| == (if EqNoCase(scheme, "https") then 5 else 4)
  {
    var name := if EqNoCase(scheme, "https") then "https" else "http";
    assert |Lower(scheme)| == |Lower(name)| == |name|;
    forall i | 0 <= i < |scheme| ensures 'A' <= scheme[i] <= 'z' {
      assert LowerChar(scheme[i]) == Lower(scheme)[i] == Lower(name)[i] == LowerChar(name[i]);
    }
  }

  lemma SchemeTarget(scheme: string, authority: string, path: string)
    requires EqNoCase(scheme, "http") || EqNoCase(scheme, "https")
    requires path != "" && path[0] == '/' && forall i :: 0 <= i < |authority| ==> authority[i] != '/'
    ensures var target := scheme + (":" + ("//" + (authority + path)));
      && StartsWithScheme(target)
      && ParseAbsolute(target) == match SplitHostPort(authority, if EqNoCase(scheme, "https") then 443 else 80)
           case Err(e) => Err(e)
           case Ok((host, port)) => Ok((host, port, Token(path, PATH_SIZE)))
  {
    hide SplitHostPort, Token, IndexOf, EqNoCase, StartsWithScheme;
    SchemeLetters(scheme);
    SchemeStarts(scheme, authority + path);
    SchemeEnds(scheme, authority + path);
    AuthorityEnds(authority, path);
  }

  lemma SchemeEnds(scheme: string, rest: string)
    requires ':' !in scheme
    ensures var target, n := scheme + (":" + ("//" + rest)), |scheme|;
      && IndexOf(target, ':') == n && |target| == n + 3 + |rest|
      && target[n + 1] == '/' && target[n + 2] == '/' && target[n + 3..] == rest && target[..n] == scheme
  {
    hide IndexOf;
    assert scheme + (":" + ("//" + rest)) == scheme + [':'] + ("//" + rest);
    IndexOfFirst(scheme, ':', "//" + rest);
  }

  lemma AuthorityEnds(authority: string, path: string)
    requires path != "" && path[0] == '/' && forall i :: 0 <= i < |authority| ==> authority[i] != '/'
    ensures var rest, n := authority + path, |authority|;
      IndexOf(rest, '/') == n < |rest| && rest[..n] == authority && rest[n..] == path
  {
    hide IndexOf;
    assert authority + path == authority + ['/'] + path[1..];
    IndexOfFirst(authority, '/', path[1..]);
  }

  lemma SchemeStarts(scheme: string, rest: string)
    requires EqNoCase(scheme, "http") || EqNoCase(scheme, "https")
    ensures StartsWithScheme(scheme + (":" + ("//" + rest)))
  {
    SchemeLetters(scheme);
    var target := scheme + (":" + ("//" + rest));
    var name := if EqNoCase(scheme, "https") then "https" else "http";
    var n := |scheme|;
    assert target[..n + 3] == scheme + "://";
    assert name + "://" == if n == 5 then "https://" else "http://";
    SameWithEnding(scheme, name, "://");
  }

  lemma SameWithEnding(a: string, b: string, ending: string)
    requires EqNoCase(a, b)
    ensures EqNoCase(a + ending, b + ending)
  {
    assert Lower(a + ending) == Lower(a) + Lower(ending) && Lower(b + ending) == Lower(b) + Lower(ending);
  }

  /** So https without a port has port 443, and http port 80. */
  lemma SchemePort(m: string, scheme: string, host: string, path: string, version: string, headers: string)
    requires IsRequest(m, host, path, version) && host[0] != '[' && ':' !in host
    requires EqNoCase(scheme, "http") || EqNoCase(scheme, "https")
    ensures var r := ParseRequest(Request(m, scheme + (":" + ("//" + (host + path))), version, headers));
      && r.Ok? && r.value.host == Lower(Token(host, HOST_SIZE))
      && r.value.port == (if |scheme| == 5 then 443 else 80)
  {
    SchemeLetters(scheme);
    hide ParseRequest, SplitHostPort, Request, EqNoCase, Token;
    SchemeParses(m, scheme, host, path, version, headers);
    DefaultPort(host, 443);
    DefaultPort(host, 80);
  }

  // ---------- what is not a request ----------

  /** A request without a line end, or whose line has fewer than three words, is refused. */
  lemma NoRequest(m: string, target: string, headers: string)
    requires Visible(m) && Visible(target)
    ensures '\n' !in headers ==> ParseRequest(headers) == Err(EINVAL)
    ensures ParseRequest(m + (" " + target) + ("\r\n" + headers)) == Err(EINVAL)
  {
    hide RequestLine, TrimLineEnd, IndexOf, ParseTarget, OneLine, Visible;
    TwoWords(m, target);
    TwoWordsLine(m, target);
    RefusedLine(m + (" " + target), headers);
    if '\n' !in headers { NoLineEnd(headers); }
  }

  lemma NoLineEnd(s: string)
    requires '\n' !in s
    ensures ParseRequest(s) == Err(EINVAL)
  {
    hide ParseTarget, RequestLine, TrimLineEnd;
  }

  lemma RefusedLine(line: string, headers: string)
    requires OneLine(line) && RequestLine(line) == None
    ensures ParseRequest(line + ("\r\n" + headers)) == Err(EINVAL)
  {
    hide RequestLine, TrimLineEnd, IndexOf, ParseTarget, OneLine;
    LineEndFound(line, headers);
  }

  lemma TwoWordsLine(m: string, target: string)
    requires Visible(m) && Visible(target)
    ensures OneLine(m + (" " + target))
  {
    VisibleOneLine(m);
    VisibleOneLine(target);
    OneLineConcat(" ", target);
    OneLineConcat(m, " " + target);
  }

  lemma TwoWords(m: string, target: string)
    requires Visible(m) && Visible(target)
    ensures RequestLine(m + (" " + target)) == None
  {
    hide WordLength, SkipBlanks;
    var line := m + (" " + target);
    WordEnds(m, " " + target);
    assert line[|m|..] == " " + target;
    if target != "" {
      OneBlank(target);
      WordEnds(target, "");
      assert target + "" == target && target[|target|..] == "";
    }
    NoBlanks();
  }

  lemma NoBlanks()
    ensures SkipBlanks("") == "" && SkipBlanks(" ") == "" && WordLength("") == 0
  {
    assert " "[1..] == "";
  }

  // ---------- without a host ----------

  /** A text is neither an absolute URL nor a request to CONNECT. */
  ghost predicate IsOriginTarget(m: string, target: string) {
    !EqNoCase(Token(m, METHOD_SIZE), "CONNECT") && !StartsWithScheme(target)
  }

  lemma {:induction false} NoHostFound(lines: seq<string>)
    requires forall l :: 0 <= l < |lines| ==> OneLine(lines[l]) && !IsHeader(lines[l], "Host")
    ensures HeaderValue(LinesThen(lines, ""), "Host") == None
  {
    hide IsHeader;
    if lines != [] {
      HeaderLine(lines[0], LinesThen(lines[1..], ""), "Host");
      NoHostFound(lines[1..]);
    }
  }

  /** A request in origin form without a Host header is refused: there is nothing to take its host from. */
  lemma NoHost(m: string, target: string, version: string, lines: seq<string>)
    requires Visible(m) && Visible(target) && Visible(version) && m != "" && target != "" && version != ""
    requires IsOriginTarget(m, target)
    requires forall l :: 0 <= l < |lines| ==> OneLine(lines[l]) && !IsHeader(lines[l], "Host")
    ensures ParseRequest(Request(m, target, version, LinesThen(lines, ""))) == Err(EINVAL)
  {
    hide ParseRequest, StartsWithScheme, ParseAbsolute, EqNoCase, HeaderValue, LinesThen, IsHeader, OneLine, Visible;
    hide Request, Token, SkipLineEnds;
    RequestParses(m, target, version, LinesThen(lines, ""));
    HostlessLines(lines);
  }

  lemma HostlessLines(lines: seq<string>)
    requires forall l :: 0 <= l < |lines| ==> OneLine(lines[l]) && !IsHeader(lines[l], "Host")
    ensures HeaderValue(SkipLineEnds("\r\n" + LinesThen(lines, "")), "Host") == None
  {
    hide HeaderValue, IsHeader, OneLine;
    SkippedLines(lines, "");
    var k: nat :| k <= |lines| && SkipLineEnds("\r\n" + LinesThen(lines, "")) == LinesThen(lines[k..], "");
    LaterLines(lines, k);
    NoHostFound(lines[k..]);
  }

  /** A target that is neither a path nor an absolute URL is the URL as it stands, and its host that of the header. */
  lemma OtherTarget(m: string, target: string, version: string, before: seq<string>, name: string, space: string,
                    value: string, after: string)
    requires Visible(m) && Visible(target) && Visible(version) && m != "" && target != "" && version != ""
    requires IsOriginTarget(m, target) && target[0] != '/'
    requires IsHostLine(before, name, space, "") && IsValue(value)
    ensures ParseRequest(Request(m, target, version, LinesThen(before, HostHeader(name, space, value, after)))) ==
      Outcome(m, value, target, Token(target, URL_SIZE))
  {
    hide ParseRequest, StartsWithScheme, ParseAbsolute, EqNoCase, HeaderValue, LinesThen, IsHeader, OneLine, Visible;
    hide Request, Token, SkipLineEnds, SplitHostPort, HostHeader, Blanks;
    RequestParses(m, target, version, LinesThen(before, HostHeader(name, space, value, after)));
    HostOfRequest(before, name, space, value, after);
  }

  /** Nothing, a port alone and empty brackets name no host. */
  lemma NoHostName(port: string, rest: string)
    requires ':' !in port
    ensures SplitHostPort("", 80) == Err(EINVAL)
    ensures SplitHostPort(":" + port, 80) == Err(EINVAL)
    ensures SplitHostPort("[]" + rest, 80) == Err(EINVAL)
  {
    var a, b := ":" + port, "[]" + rest;
    assert a[0] == ':' && IndexOf(a, ':') == 0 && a[1..] == port && a[..0] == "";
    assert b[0] == '[' && b[1] == ']' && IndexOf(b, ']') == 1;
    assert b[1..1] == "";
    hide Token, ParsePort;
  }

  /** A port text of 16 characters or more is refused, whatever number it stands for. */
  lemma LongPortText(host: string, port: string)
    requires host != "" && host[0] != '[' && ':' !in host && ':' !in port && |port| >= 16
    ensures SplitHostPort(host + ":" + port, 80) == Err(EINVAL)
  {
    hide IndexOf, Token, ParseUnsigned, CStr;
    assert host + ":" + port == host + [':'] + port;
    IndexOfFirst(host, ':', port);
    var value := host + ":" + port;
    assert value[..|host|] == host && value[|host| + 1..] == port && value[0] == host[0];
  }

  /** A sign in front of a port is read as strtoul() reads it: a plus changes nothing, and a minus counts from the end
      of the 64-bit numbers. */
  lemma SignedPort(n: nat)
    requires n < 100_000_000_000_000
    ensures ParsePort("+" + Decimal(n)) == ParsePort(Decimal(n))
    ensures var low := (WORD - n) % HALF_WORD;
      ParsePort("-" + Decimal(n)) == if 0 < low <= TCP_PORT_MAX then Some(low) else None
  {
    hide Decimal, ParsePort;
    TensOfFourteen();
    DecimalShort(n, 14);
    DecimalParses(n);
    PlainCStr(Decimal(n));
    PrintedPort(n);
    SignedText('+', Decimal(n), n);
    SignedText('-', Decimal(n), n);
    LowWord(n);
    assert ['+'] + Decimal(n) == "+" + Decimal(n) && ['-'] + Decimal(n) == "-" + Decimal(n);
  }

  lemma LowWord(n: nat)
    requires n < WORD
    ensures n == 0 ==> (WORD - n) % HALF_WORD == 0
  {
  }

  lemma SignedText(sign: char, digits: string, n: nat)
    requires (sign == '+' || sign == '-') && digits != "" && |digits| <= 14
    requires ParseUnsigned(digits) == Some(n) && n < WORD
    requires forall i :: 0 <= i < |digits| ==> IsDigit(digits[i])
    ensures var v := if sign == '-' && n > 0 then WORD - n else n;
      ParsePort([sign] + digits) == if 0 < v % HALF_WORD <= TCP_PORT_MAX then Some(v % HALF_WORD) else None
  {
    hide ParseUnsigned, CStr;
    SignedParses(sign, digits);
    PlainCStr([sign] + digits);
  }

  lemma TensOfFourteen()
    ensures Tens(14) == 100_000_000_000_000
  {
    assert Tens(7) == 10_000_000;
  }

  lemma SignedParses(sign: char, digits: string)
    requires (sign == '+' || sign == '-') && digits != "" && IsDigit(digits[0])
    ensures var plain, signed := ParseUnsigned(digits), ParseUnsigned([sign] + digits);
      signed == if plain.None? then None else Some(if sign == '-' && plain.value > 0 then WORD - plain.value
                                                  else plain.value)
  {
    hide DigitsLength, DigitsValue;
    assert ([sign] + digits)[1..] == digits;
    assert TrimLeft(digits) == digits && TrimLeft([sign] + digits) == [sign] + digits;
  }
}
