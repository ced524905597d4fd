/** The proxy's side of the broker wire: a bounded JSON writer for one request line, and the reader of
    one answer line. */
module BrokerWire {
  import opened Wrappers
  import opened CText
  import opened HttpRequest

  // ---------- JSON text of a request ----------

  /** Names with their values, in the order they are written. */
  type Fields = seq<(string, string)>

  const BACKSPACE: char := 8 as char
  const FORM_FEED: char := 12 as char

  function EscapeChar(c: char): string {
    if c == '"' then "\\\""
    else if c == '\\' then "\\\\"
    else if c == BACKSPACE then "\\b"
    else if c == FORM_FEED then "\\f"
    else if c == '\n' then "\\n"
    else if c == '\r' then "\\r"
    else if c == '\t' then "\\t"
    else if c < ' ' then "\\u00" + [HexDigit(c as int / 16), HexDigit(c as int % 16)]
    else [c]
  }

  function Escape(s: string): string {
    if s == "" then "" else EscapeChar(s[0]) + Escape(s[1..])
  }

  function Quoted(s: string): string { "\"" + (Escape(s) + "\"") }

  function Field(name: string, value: string, first: bool): string {
    (if first then "" else ",") + Quoted(name) + ":" + Quoted(value)
  }

  function Members(fields: Fields, first: bool): string {
    if fields == [] then "" else Field(fields[0].0, fields[0].1, first) + Members(fields[1..], false)
  }

  /** One request, without the newline that ends it on the wire. */
  function Line(fields: Fields): string { "{" + Members(fields, true) + "}" }

  function RequestFields(agentId: string, kind: string, subject: string, verb: string, path: string): Fields {
    [("agent_id", agentId), ("kind", kind), ("subject", subject), ("method", verb), ("path", path)]
  }

  // ---------- reading JSON (RFC 8259), for flat objects of strings ----------

  predicate IsJsonSpace(c: char) { c == ' ' || c == '\t' || c == '\n' || c == '\r' }

  function SkipJsonSpaces(s: string): (r: string)
    ensures |r| <= |s|
  {
    if s != "" && IsJsonSpace(s[0]) then SkipJsonSpaces(s[1..]) else s
  }

  function HexValue(c: char): Option<nat> {
    if '0' <= c <= '9' then Some(c as int - '0' as int)
    else if 'a' <= c <= 'f' then Some(c as int - 'a' as int + 10)
    else if 'A' <= c <= 'F' then Some(c as int - 'A' as int + 10)
    else None
  }

  /** The code that four hexadecimal digits name. */
  function FourHex(s: string): Option<nat>
    requires |s| >= 4
  {
    match (HexValue(s[0]), HexValue(s[1]), HexValue(s[2]), HexValue(s[3]))
    case (Some(a), Some(b), Some(c), Some(d)) => Some(((a * 16 + b) * 16 + c) * 16 + d)
    case _ => None
  }

  /** What an escape means, and its length behind the backslash. */
  function Unescape(s: string): (r: Option<(char, nat)>)
    ensures r.Some? ==> 1 <= r.value.1 <= |s|
  {
    if s == "" then None
    else if s[0] == '"' || s[0] == '\\' || s[0] == '/' then Some((s[0], 1))
    else if s[0] == 'b' then Some((BACKSPACE, 1))
    else if s[0] == 'f' then Some((FORM_FEED, 1))
    else if s[0] == 'n' then Some(('\n', 1))
    else if s[0] == 'r' then Some(('\r', 1))
    else if s[0] == 't' then Some(('\t', 1))
    else if s[0] == 'u' && |s| >= 5 then
      match FourHex(s[1..])
      case Some(code) => if code < 0xD800 || 0xE000 <= code < 0x1_0000 then Some((code as char, 5)) else None
      case None => None
    else None
  }

  /** A string, read from behind its opening quote, and what follows its closing quote. */
  function ReadString(s: string): (r: Option<(string, string)>)
    ensures r.Some? ==> |r.value.1| < |s|
  {
    if s == "" || s[0] < ' ' then None
    else if s[0] == '"' then Some(("", s[1..]))
    else if s[0] == '\\' then
      match Unescape(s[1..])
      case None => None
      case Some((c, n)) =>
        (match ReadString(s[1..][n..])
         case None => None
         case Some((text, rest)) => Some(([c] + text, rest)))
    else
      match ReadString(s[1..])
      case None => None
      case Some((text, rest)) => Some(([s[0]] + text, rest))
  }

  /** The text behind spaces and a given character. */
  function Expect(s: string, c: char): (r: Option<string>)
    ensures r.Some? ==> |r.value| < |s|
  {
    var t := SkipJsonSpaces(s);
    if t != "" && t[0] == c then Some(t[1..]) else None
  }

  function ReadMember(s: string): (r: Option<((string, string), string)>)
    ensures r.Some? ==> |r.value.1| < |s|
  {
    match Expect(s, '"')
    case None => None
    case Some(nameText) =>
      match ReadString(nameText)
      case None => None
      case Some((name, afterName)) =>
        match Expect(afterName, ':')
        case None => None
        case Some(behind) =>
          match Expect(behind, '"')
          case None => None
          case Some(valueText) =>
            match ReadString(valueText)
            case None => None
            case Some((value, rest)) => Some(((name, value), rest))
  }

  /** One or more members, up to and with the closing brace. */
  function ReadMembers(s: string): Option<(Fields, string)>
    decreases |s|
  {
    match ReadMember(s)
    case None => None
    case Some((member, rest)) =>
      if Expect(rest, '}').Some? then Some(([member], Expect(rest, '}').value))
      else match Expect(rest, ',')
        case None => None
        case Some(more) =>
          match ReadMembers(more)
          case None => None
          case Some((fields, end)) => Some(([member] + fields, end))
  }

  /** The members of a text that is one object whose values are strings; nothing for any other text. */
  function ReadObject(s: string): Option<Fields> {
    match Expect(s, '{')
    case None => None
    case Some(inside) =>
      var r := if Expect(inside, '}').Some? then Some(([], Expect(inside, '}').value)) else ReadMembers(inside);
      if r.Some? && SkipJsonSpaces(r.value.1) == "" then Some(r.value.0) else None
  }

  // ---------- what is written reads back ----------

  lemma HexRoundTrip(c: char, rest: string)
    requires c < ' '
    ensures var s := ['0', '0', HexDigit(c as int / 16), HexDigit(c as int % 16)] + rest; FourHex(s) == Some(c as int)
  {
  }

  /** What reading `c` in front of `rest` gives. */
  function Before(c: char, rest: string): Option<(string, string)> {
    match ReadString(rest) case None => None case Some((text, end)) => Some(([c] + text, end))
  }

  lemma ShortEscapeReads(c: char, e: char, rest: string)
    requires Unescape([e] + rest) == Some((c, 1))
    ensures ReadString(['\\', e] + rest) == Before(c, rest)
  {
    hide Unescape;
    var s := ['\\', e] + rest;
    assert s[1..] == [e] + rest && ([e] + rest)[1..] == rest;
  }

  lemma HexEscapeReads(c: char, rest: string)
    requires c < ' '
    ensures ReadString("\\u00" + [HexDigit(c as int / 16), HexDigit(c as int % 16)] + rest) == Before(c, rest)
  {
    var digits := ['0', '0', HexDigit(c as int / 16), HexDigit(c as int % 16)];
    HexRoundTrip(c, rest);
    hide HexDigit, FourHex;
    var s := "\\u00" + [HexDigit(c as int / 16), HexDigit(c as int % 16)] + rest;
    assert s[1..][1..] == digits + rest;
    assert s[1..][5..] == rest;
    assert Unescape(s[1..]) == Some((c, 5));
    hide Unescape;
  }

  /** Reading one escaped character gives the character and goes on behind it. */
  lemma EscapedCharReads(c: char, rest: string)
    ensures ReadString(EscapeChar(c) + rest) == Before(c, rest)
  {
    var e := EscapeChar(c);
    if |e| == 1 {
      assert (e + rest)[1..] == rest;
    } else {
      hide ReadString;
      if |e| == 2 {
        assert e == ['\\', e[1]];
        ShortEscapeReads(c, e[1], rest);
      } else {
        HexEscapeReads(c, rest);
      }
    }
  }

  /** A written string is valid and reads back as the text, for every text. */
  lemma {:induction false} StringRoundTrip(s: string, rest: string)
    ensures ReadString(Escape(s) + "\"" + rest) == Some((s, rest))
  {
    hide EscapeChar;
    if s == "" {
      assert (Escape(s) + "\"" + rest)[1..] == rest;
    } else {
      StringRoundTrip(s[1..], rest);
      EscapedCharReads(s[0], Escape(s[1..]) + "\"" + rest);
      assert Escape(s) + "\"" + rest == EscapeChar(s[0]) + (Escape(s[1..]) + "\"" + rest);
      assert [s[0]] + s[1..] == s;
      hide ReadString, Escape;
    }
  }

  lemma ExpectFirst(c: char, rest: string)
    requires !IsJsonSpace(c)
    ensures Expect([c] + rest, c) == Some(rest)
    ensures forall d :: d != c ==> Expect([c] + rest, d).None?
  {
    assert ([c] + rest)[1..] == rest;
  }

  /** A written member reads back. */
  lemma MemberRoundTrip(name: string, value: string, rest: string)
    ensures ReadMember(Field(name, value, true) + rest) == Some(((name, value), rest))
  {
    hide Escape, ReadString, Expect;
    var afterName := ":" + Quoted(value) + rest;
    var all := Field(name, value, true) + rest;
    assert all == ['"'] + (Escape(name) + "\"" + afterName);
    ExpectFirst('"', Escape(name) + "\"" + afterName);
    StringRoundTrip(name, afterName);
    assert afterName == [':'] + (Quoted(value) + rest);
    ExpectFirst(':', Quoted(value) + rest);
    assert Quoted(value) + rest == ['"'] + (Escape(value) + "\"" + rest);
    ExpectFirst('"', Escape(value) + "\"" + rest);
    StringRoundTrip(value, rest);
  }

  lemma {:induction false} MembersRoundTrip(fields: Fields, rest: string)
    requires fields != []
    ensures ReadMembers(Members(fields, true) + "}" + rest) == Some((fields, rest))
  {
    hide Field, ReadMember, Expect;
    var (name, value) := fields[0];
    var tail := Members(fields[1..], false) + "}" + rest;
    assert Members(fields, true) + "}" + rest == Field(name, value, true) + tail;
    MemberRoundTrip(name, value, tail);
    if |fields| == 1 {
      assert tail == ['}'] + rest;
      ExpectFirst('}', rest);
      assert fields == [fields[0]];
    } else {
      MembersRoundTrip(fields[1..], rest);
      LaterMembers(fields[1..]);
      assert tail == [','] + (Members(fields[1..], true) + "}" + rest);
      ExpectFirst(',', Members(fields[1..], true) + "}" + rest);
      assert fields == [fields[0]] + fields[1..];
    }
  }

  lemma LaterMembers(fields: Fields)
    requires fields != []
    ensures Members(fields, false) == "," + Members(fields, true)
  {
    hide Quoted;
    var (name, value) := fields[0];
    assert Field(name, value, false) == "," + Field(name, value, true);
  }

  /** A written line is an object with exactly the fields, whatever characters are in them. */
  lemma LineRoundTrip(fields: Fields)
    ensures ReadObject(Line(fields)) == Some(fields)
  {
    hide Expect, ReadMembers, Members;
    var inside := Members(fields, true) + "}" + "";
    assert Line(fields) == ['{'] + inside;
    ExpectFirst('{', inside);
    if fields == [] {
      assert Members(fields, true) == "" by { NoMembers(); }
      ExpectFirst('}', "");
      assert inside == ['}'] + "";
    } else {
      MembersRoundTrip(fields, "");
      MembersStart(fields);
      assert inside == ['"'] + inside[1..];
      ExpectFirst('"', inside[1..]);
    }
  }

  lemma NoMembers()
    ensures Members([], true) == ""
  {
  }

  lemma MembersStart(fields: Fields)
    requires fields != []
    ensures Members(fields, true) != "" && Members(fields, true)[0] == '"'
  {
    hide Escape;
  }

  predicate Printable(s: string) { forall i :: 0 <= i < |s| ==> s[i] >= ' ' }

  lemma {:induction false} EscapePrintable(s: string)
    ensures Printable(Escape(s))
  {
    if s != "" {
      EscapePrintable(s[1..]);
      hide Escape;
    }
  }

  lemma FieldPrintable(name: string, value: string, first: bool)
    ensures Printable(Field(name, value, first))
  {
    hide Escape;
    EscapePrintable(name);
    EscapePrintable(value);
    assert Printable(Quoted(name)) && Printable(Quoted(value));
    hide Quoted;
  }

  /** Nothing written is a control character, so a line never holds a newline. */
  lemma {:induction false} MembersPrintable(fields: Fields, first: bool)
    ensures Printable(Members(fields, first))
  {
    hide Field;
    if fields != [] {
      MembersPrintable(fields[1..], false);
      FieldPrintable(fields[0].0, fields[0].1, first);
    }
  }

  lemma LinePrintable(fields: Fields)
    ensures Printable(Line(fields)) && Line(fields) != ""
  {
    hide Members;
    MembersPrintable(fields, true);
  }

  // ---------- the bounded writer ----------

  /** What is written of a string after `n` of its characters. */
  ghost function Started(before: string, value: string, n: nat): string
    requires n <= |value|
  {
    before + "\"" + Escape(value[..n])
  }

  lemma {:induction false} EscapeConcat(a: string, b: string)
    ensures Escape(a + b) == Escape(a) + Escape(b)
  {
    hide EscapeChar;
    if a == "" {
      assert a + b == b;
    } else {
      EscapeConcat(a[1..], b);
      assert (a + b)[0] == a[0] && (a + b)[1..] == a[1..] + b;
    }
  }

  lemma EscapeOne(c: char)
    ensures Escape([c]) == EscapeChar(c)
  {
    hide EscapeChar;
    assert [c][1..] == "";
  }

  lemma QuoteOpens(before: string, value: string)
    ensures before + "\"" == Started(before, value, 0) <= before + Quoted(value)
  {
    assert value[..0] == "" && Escape("") == "";
    hide Escape;
    Regroup(before, "\"", Escape(value) + "\"", before + Quoted(value));
  }

  lemma QuoteGrows(before: string, value: string, i: nat)
    requires i < |value|
    ensures before <= Started(before, value, i) <= before + Quoted(value)
    ensures Started(before, value, i) + EscapeChar(value[i]) == Started(before, value, i + 1) <= before + Quoted(value)
  {
    hide Escape, EscapeChar;
    var done, c, rest := value[..i], [value[i]], value[i + 1..];
    assert value == done + (c + rest) && value[..i + 1] == done + c;
    EscapeConcat(done, c + rest);
    EscapeConcat(c, rest);
    EscapeConcat(done, c);
    EscapeOne(value[i]);
    var s := before + "\"" + Escape(done);
    assert before + Quoted(value) == s + (EscapeChar(value[i]) + (Escape(rest) + "\""));
    assert before + Quoted(value) == (s + EscapeChar(value[i])) + (Escape(rest) + "\"");
  }

  lemma QuoteCloses(before: string, value: string)
    ensures before <= Started(before, value, |value|)
      && Started(before, value, |value|) + "\"" == before + Quoted(value)
  {
    hide Escape;
    assert value[..|value|] == value;
  }

  lemma FieldGrows(before: string, name: string, value: string, first: bool)
    ensures var start, all := if first then before else before + ",", before + Field(name, value, first);
      var named := start + Quoted(name);
      && before <= start <= named <= named + ":" <= all
      && named + ":" + Quoted(value) == all
  {
    hide Quoted;
    var start := if first then before else before + ",";
    assert before + Field(name, value, first) == start + Quoted(name) + ":" + Quoted(value);
  }

  lemma Regroup(was: string, part: string, rest: string, all: string)
    requires was + (part + rest) == all
    ensures (was + part) + rest == all && was + part <= all && was <= was + part
  {
    assert was + (part + rest) == (was + part) + rest;
  }

  class Writer {
    const buffer: array<char>
    var offset: nat

    /** The offset never reaches the end of the buffer: there is always room for the terminator. */
    ghost predicate Valid()
      reads this
    {
      offset < buffer.Length
    }

    ghost function Text(): string
      reads this, buffer
      requires Valid()
    {
      buffer[..offset]
    }

    constructor (size: nat)
      requires size > 0
      ensures Valid() && fresh(buffer) && buffer.Length == size && offset == 0
    {
      buffer := new char[size](_ => NUL);
      offset := 0;
    }

    /** `what` was appended to `before` in full if it fits; if not, a part of it from its start may have been. */
    ghost predicate Appended(before: string, what: string, ok: bool)
      reads this, buffer
    {
      && Valid()
      && ok == (|before| + |what| < buffer.Length)
      && before <= Text() <= before + what
      && (ok ==> Text() == before + what)
    }

    method AppendText(value: string) returns (ok: bool)
      requires Valid()
      modifies this`offset, buffer
      ensures Valid() && ok == (old(offset) + |value| < buffer.Length)
      ensures Text() == if ok then old(Text()) + value else old(Text())
    {
      if offset + |value| >= buffer.Length { return false; }
      for i := 0 to |value|
        invariant offset == old(offset) && buffer[..offset + i] == old(Text()) + value[..i]
      {
        buffer[offset + i] := value[i];
      }
      offset := offset + |value|;
      buffer[offset] := NUL;
      assert value[..|value|] == value;
      return true;
    }

    method AppendJsonString(value: string) returns (ok: bool)
      requires Valid()
      modifies this`offset, buffer
      ensures Appended(old(Text()), Quoted(value), ok)
    {
      hide EscapeChar, Quoted, Started;
      ghost var before := Text();
      QuoteOpens(before, value);
      ok := AppendText("\"");
      if !ok { return; }
      for i := 0 to |value|
        invariant Valid() && Text() == Started(before, value, i)
      {
        QuoteGrows(before, value, i);
        ok := AppendText(EscapeChar(value[i]));
        if !ok { return; }
      }
      QuoteCloses(before, value);
      ok := AppendText("\"");
    }

    method AppendJsonField(name: string, value: string, first: bool) returns (ok: bool)
      requires Valid()
      modifies this`offset, buffer
      ensures Appended(old(Text()), Field(name, value, first), ok)
    {
      hide Quoted, Field;
      ghost var before := Text();
      FieldGrows(before, name, value, first);
      ghost var all := before + Field(name, value, first);
      if !first {
        ok := AppendText(",");
        if !ok { return; }
      }
      assert Text() == if first then before else before + ",";
      ok := AppendJsonString(name);
      if !ok { return; }
      ok := AppendText(":");
      if !ok { return; }
      ok := AppendJsonString(value);
    }
  }

  // ---------- reading an answer ----------

  /** What one read of a byte brings; no more events means the end of the stream. */
  datatype Event = Byte(c: char) | Interrupted | Failed(errno: nat)
  datatype WireError = EmptyBuffer | NoSpace | BrokenPipe | BadAnswer | Errno(errno: nat)
  datatype Answer<+T> = Good(value: T) | Bad(error: WireError)

  /** The answer line that a stream begins with, kept in a buffer of `size`, and the events after it. */
  function ReadAnswer(events: seq<Event>, got: string, size: nat): (r: (Answer<string>, seq<Event>))
    requires |got| < size
    ensures |r.1| <= |events|
    ensures r.0.Good? ==> |r.0.value| < size
  {
    if events == [] then (Bad(BrokenPipe), [])
    else match events[0]
      case Failed(e) => (Bad(Errno(e)), events[1..])
      case Interrupted => ReadAnswer(events[1..], got, size)
      case Byte(c) =>
        if c == '\n' then (Good(got), events[1..])
        else if c == '\r' then ReadAnswer(events[1..], got, size)
        else if |got| + 1 >= size then (Bad(NoSpace), events[1..])
        else ReadAnswer(events[1..], got + [c], size)
  }

  function NoReturns(s: string): string {
    if s == "" then "" else (if s[0] == '\r' then "" else [s[0]]) + NoReturns(s[1..])
  }

  function Bytes(s: string): (r: seq<Event>)
    ensures |r| == |s| && forall i :: 0 <= i < |s| ==> r[i] == Byte(s[i])
  {
    seq(|s|, i requires 0 <= i < |s| => Byte(s[i]))
  }

  /** The events other than interruptions. */
  function Uninterrupted(events: seq<Event>): seq<Event> {
    if events == [] then [] else (if events[0].Interrupted? then [] else [events[0]]) + Uninterrupted(events[1..])
  }

  lemma {:induction false} InterruptionsDoNotMatter(events: seq<Event>, got: string, size: nat)
    requires |got| < size
    ensures ReadAnswer(Uninterrupted(events), got, size).0 == ReadAnswer(events, got, size).0
    ensures ReadAnswer(Uninterrupted(events), got, size).1 == Uninterrupted(ReadAnswer(events, got, size).1)
  {
    if events != [] {
      var e := events[0];
      var u := Uninterrupted(events[1..]);
      assert Uninterrupted(events) == if e.Interrupted? then u else [e] + u;
      assert ([e] + u)[1..] == u;
      if e.Interrupted? || (e.Byte? && e.c == '\r') {
        InterruptionsDoNotMatter(events[1..], got, size);
      } else if e.Byte? && e.c != '\n' && |got| + 1 < size {
        InterruptionsDoNotMatter(events[1..], got + [e.c], size);
      }
    }
  }

  /** A line is read whole, without its carriage returns, exactly when the rest of it leaves room for the terminator;
      what follows stays for the next read. */
  lemma {:induction false} AnswerLine(line: string, got: string, after: seq<Event>, size: nat)
    requires |got| < size && '\n' !in line
    ensures var r := ReadAnswer(Bytes(line) + [Byte('\n')] + after, got, size);
      if |got| + |NoReturns(line)| < size then r == (Good(got + NoReturns(line)), after) else r.0 == Bad(NoSpace)
  {
    var events := Bytes(line) + [Byte('\n')] + after;
    if line == "" {
      assert events[1..] == after;
      assert got + NoReturns(line) == got;
    } else {
      var c, rest := line[0], line[1..];
      assert events[1..] == Bytes(rest) + [Byte('\n')] + after;
      assert c in line && '\n' !in rest;
      assert events[0] == Byte(c);
      if c == '\r' {
        AnswerLine(rest, got, after, size);
        assert NoReturns(line) == NoReturns(rest);
      } else if |got| + 1 < size {
        AnswerLine(rest, got + [c], after, size);
        assert got + [c] + NoReturns(rest) == got + ([c] + NoReturns(rest));
      }
    }
  }

  // ---------- asking for a decision ----------

  datatype Decision = DENY | APPROVE

  const PAYLOAD_SIZE: nat := 1400
  const ANSWER_SIZE: nat := 32

  function Meaning(answer: string): Answer<Decision> {
    if answer == "always" || answer == "approve" || answer == "ask" then Good(APPROVE)
    else if answer == "never" || answer == "deny" then Good(DENY)
    else Bad(BadAnswer)
  }

  /** The decision for a request, and the events left on the stream.  Nothing is read when the request is too long. */
  function Decide(fields: Fields, written: Answer<()>, events: seq<Event>): (Answer<Decision>, seq<Event>) {
    if |Line(fields) + "\n"| >= PAYLOAD_SIZE then (Bad(NoSpace), events)
    else if written.Bad? then (Bad(written.error), events)
    else
      var (answer, rest) := ReadAnswer(events, "", ANSWER_SIZE);
      (if answer.Good? then Meaning(CStr(answer.value)) else Bad(answer.error), rest)
  }

  class BrokerSocket {
    const incoming: seq<Event>
    const written: Answer<()>
    var next: nat
    var sent: string

    ghost predicate Valid()
      reads this
    {
      next <= |incoming|
    }

    /** What has not been read yet. */
    ghost function Ahead(): seq<Event>
      reads this
      requires Valid()
    {
      incoming[next..]
    }

    /** A socket that brings some events and on which every write ends in the same way. */
    constructor (incoming: seq<Event>, written: Answer<()>)
      ensures Valid() && Ahead() == incoming && this.written == written && sent == ""
    {
      this.incoming, this.written, next, sent := incoming, written, 0, "";
    }

    method ReadBrokerResponse(response: array<char>) returns (r: Answer<()>)
      requires Valid()
      modifies this`next, response
      ensures Valid()
      ensures response.Length == 0 ==> r == Bad(EmptyBuffer) && Ahead() == old(Ahead())
      ensures response.Length > 0 ==>
        var (answer, rest) := ReadAnswer(old(Ahead()), "", response.Length);
        && Ahead() == rest
        && (if answer.Good? then r == Good(()) && CStr(response[..]) == CStr(answer.value) else r == Bad(answer.error))
    {
      if response.Length == 0 { return Bad(EmptyBuffer); }
      ghost var spec := ReadAnswer(Ahead(), "", response.Length);
      var offset := 0;
      while true
        invariant Valid() && offset < response.Length
        invariant spec == ReadAnswer(Ahead(), response[..offset], response.Length)
        decreases |incoming| - next
      {
        if next == |incoming| { return Bad(BrokenPipe); }
        ghost var ahead := Ahead();
        var event := incoming[next];
        next := next + 1;
        assert ahead[0] == event && ahead[1..] == Ahead();
        match event
        case Interrupted =>
        case Failed(e) => return Bad(Errno(e));
        case Byte(c) =>
          if c == '\n' {
            ghost var text := response[..offset];
            response[offset] := NUL;
            assert response[..offset] == text;
            CStrOfTerminated(response[..], text);
            return Good(());
          }
          if c != '\r' {
            if offset + 1 >= response.Length { return Bad(NoSpace); }
            ghost var text := response[..offset];
            response[offset] := c;
            assert response[..offset + 1] == text + [c];
            offset := offset + 1;
          }
      }
    }

    method RequestBrokerDecision(agentId: string, kind: string, subject: string, verb: string, path: string)
      returns (r: Answer<Decision>)
      requires Valid()
      modifies this
      ensures Valid()
      ensures var fields := RequestFields(agentId, kind, subject, verb, path);
        && (r, Ahead()) == Decide(fields, written, old(Ahead()))
        && sent == old(sent) + (if |Line(fields) + "\n"| < PAYLOAD_SIZE && written.Good? then Line(fields) + "\n"
          else "")
    {
      hide Line, ReadAnswer, CStr;
      var payload := new Writer(PAYLOAD_SIZE);
      var ok := WritePayload(payload, agentId, kind, subject, verb, path);
      if !ok { return Bad(NoSpace); }
      if written.Bad? { return Bad(written.error); }
      sent := sent + payload.buffer[..payload.offset];
      var response := new char[ANSWER_SIZE](_ => NUL);
      var got := ReadBrokerResponse(response);
      if got.Bad? { return Bad(got.error); }
      r := Meaning(CStr(response[..]));
    }
  }

  lemma OneMoreMember(m: (string, string), fields: Fields, first: bool, end: string)
    ensures Members([m] + fields, first) + end == Field(m.0, m.1, first) + (Members(fields, false) + end)
  {
    hide Field;
    assert ([m] + fields)[1..] == fields;
  }

  lemma FiveMembers(a: (string, string), b: (string, string), c: (string, string), d: (string, string),
                    e: (string, string), end: string)
    ensures Members([a, b, c, d, e], true) + end
      == Field(a.0, a.1, true) + (Field(b.0, b.1, false) + (Field(c.0, c.1, false)
      + (Field(d.0, d.1, false) + (Field(e.0, e.1, false) + end))))
  {
    OneMoreMember(e, [], false, end);
    assert [e] + [] == [e] && Members([], false) + end == end;
    hide Field, Members;
    assert [a, b, c, d, e] == [a] + [b, c, d, e] && [b, c, d, e] == [b] + [c, d, e] && [c, d, e] == [c] + [d, e]
      && [d, e] == [d] + [e];
    OneMoreMember(d, [e], false, end);
    OneMoreMember(c, [d, e], false, end);
    OneMoreMember(b, [c, d, e], false, end);
    OneMoreMember(a, [b, c, d, e], true, end);
  }

  /** `rest` is all that is missing, or what is written is a part of `all`, which does not fit. */
  ghost predicate Missing(payload: Writer, rest: string, all: string, ok: bool)
    reads payload, payload.buffer
  {
    && payload.Valid()
    && (if ok then payload.Text() + rest == all else payload.Text() <= all && |all| >= payload.buffer.Length)
  }

  /** Append one field unless an earlier one did not fit. */
  method AppendNext(payload: Writer, sofar: bool, name: string, value: string, first: bool, ghost rest: string,
                    ghost all: string)
    returns (ok: bool)
    requires Missing(payload, Field(name, value, first) + rest, all, sofar)
    modifies payload`offset, payload.buffer
    ensures Missing(payload, rest, all, ok)
  {
    hide Field;
    ok := sofar;
    if ok {
      Regroup(payload.Text(), Field(name, value, first), rest, all);
      ok := payload.AppendJsonField(name, value, first);
    }
  }

  /** Write a request and its newline into an empty buffer. */
  method WritePayload(payload: Writer, agentId: string, kind: string, subject: string, verb: string, path: string)
    returns (ok: bool)
    requires payload.Valid() && payload.offset == 0
    modifies payload`offset, payload.buffer
    ensures payload.Appended("", Line(RequestFields(agentId, kind, subject, verb, path)) + "\n", ok)
  {
    hide Field, Members;
    ghost var fields := RequestFields(agentId, kind, subject, verb, path);
    FiveMembers(fields[0], fields[1], fields[2], fields[3], fields[4], "}\n");
    ghost var all := Line(fields) + "\n";
    ghost var r5 := "}\n";
    ghost var r4 := Field("path", path, false) + r5;
    ghost var r3 := Field("method", verb, false) + r4;
    ghost var r2 := Field("subject", subject, false) + r3;
    ghost var r1 := Field("kind", kind, false) + r2;
    ghost var r0 := Field("agent_id", agentId, true) + r1;
    assert all == "{" + (Members(fields, true) + r5);
    assert Members(fields, true) + r5 == r0;
    ok := payload.AppendText("{");
    hide Line;
    ok := AppendNext(payload, ok, "agent_id", agentId, true, r1, all);
    ok := AppendNext(payload, ok, "kind", kind, false, r2, all);
    ok := AppendNext(payload, ok, "subject", subject, false, r3, all);
    ok := AppendNext(payload, ok, "method", verb, false, r4, all);
    ok := AppendNext(payload, ok, "path", path, false, r5, all);
    if ok { ok := payload.AppendText("}\n"); }
  }
}
