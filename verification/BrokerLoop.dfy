/** The broker loop at the other end of the wire: it cuts a stream of chunks into lines, asks a callback about each
    request and answers in one line. */
module BrokerLoop {
  import opened Wrappers
  import opened CText
  import opened HttpRequest
  import opened BrokerWire

  // ---------- UTF-8 ----------

  type Octet = b: int | 0 <= b < 256

  predicate Continuation(b: Octet) { 0x80 <= b < 0xC0 }

  /** The bits a continuation octet brings. */
  function Bits(b: Octet): int { b as int - 0x80 }

  /** The first character of a well-formed text and the number of its octets. */
  function FirstChar(b: seq<Octet>): (r: Option<(char, nat)>)
    ensures r.Some? ==> 1 <= r.value.1 <= |b| && !Continuation(b[0])
    ensures r.Some? ==> forall i :: 1 <= i < r.value.1 ==> Continuation(b[i])
  {
    if b == [] then None
    else
      var lead: int := b[0];
      if lead < 0x80 then Some((lead as char, 1))
      else if |b| < 2 || !Continuation(b[1]) then None
      else if 0xC2 <= lead < 0xE0 then Some((((lead - 0xC0) * 64 + Bits(b[1])) as char, 2))
      else if |b| < 3 || !Continuation(b[2]) then None
      else if 0xE0 <= lead < 0xF0 && (lead == 0xE0 ==> b[1] >= 0xA0) && (lead == 0xED ==> b[1] < 0xA0) then
        Some((((lead - 0xE0) * 4096 + Bits(b[1]) * 64 + Bits(b[2])) as char, 3))
      else if |b| < 4 || !Continuation(b[3]) then None
      else if 0xF0 <= lead < 0xF5 && (lead == 0xF0 ==> b[1] >= 0x90) && (lead == 0xF4 ==> b[1] < 0x90) then
        Some((((lead - 0xF0) * 262144 + Bits(b[1]) * 4096 + Bits(b[2]) * 64 + Bits(b[3])) as char, 4))
      else None
  }

  /** Strict decoding: nothing unless all of the octets are well formed. */
  function Utf8(b: seq<Octet>): Option<string> {
    if b == [] then Some("")
    else match FirstChar(b)
      case None => None
      case Some((c, n)) => match Utf8(b[n..]) case None => None case Some(s) => Some([c] + s)
  }

  /** A character is recognised from its own octets only. */
  lemma FirstCharIsLocal(a: seq<Octet>, b: seq<Octet>)
    requires a != []
    ensures FirstChar(a).Some? ==> FirstChar(a + b) == FirstChar(a)
    ensures FirstChar(a + b).Some? && FirstChar(a + b).value.1 <= |a| ==> FirstChar(a) == FirstChar(a + b)
  {
  }

  lemma {:induction false} Utf8Concat(a: seq<Octet>, b: seq<Octet>)
    requires Utf8(a).Some? && Utf8(b).Some?
    ensures Utf8(a + b) == Some(Utf8(a).value + Utf8(b).value)
  {
    if a == [] {
      assert a + b == b && "" + Utf8(b).value == Utf8(b).value;
    } else {
      FirstCharIsLocal(a, b);
      hide FirstChar;
      var (c, n) := FirstChar(a).value;
      assert (a + b)[n..] == a[n..] + b;
      Utf8Concat(a[n..], b);
      var s, t := Utf8(a[n..]).value, Utf8(b).value;
      assert Utf8(a).value == [c] + s;
      assert Utf8(a + b).value == [c] + (s + t);
      assert [c] + (s + t) == ([c] + s) + t;
    }
  }

  /** A well-formed text can be cut exactly where the second part does not start inside a character. */
  lemma {:induction false} CutIff(a: seq<Octet>, b: seq<Octet>)
    requires Utf8(a + b).Some?
    ensures (Utf8(a).Some? && Utf8(b).Some?) <==> (b == [] || !Continuation(b[0]))
    decreases |a|
  {
    if a == [] {
      assert a + b == b;
    } else {
      FirstCharIsLocal(a, b);
      hide FirstChar;
      var (c, n) := FirstChar(a + b).value;
      if n <= |a| {
        assert (a + b)[n..] == a[n..] + b;
        CutIff(a[n..], b);
      } else {
        assert (a + b)[|a|] == b[0];
      }
    }
  }

  function Concat(chunks: seq<seq<Octet>>): seq<Octet> {
    if chunks == [] then [] else chunks[0] + Concat(chunks[1..])
  }

  /** Chunks of a well-formed stream all decode exactly when no chunk starts inside a character. */
  lemma {:induction false} ChunksDecodeIff(chunks: seq<seq<Octet>>)
    requires Utf8(Concat(chunks)).Some?
    ensures (forall i :: 0 <= i < |chunks| ==> Utf8(chunks[i]).Some?)
      <==> (forall i :: 0 <= i < |chunks| ==> chunks[i] == [] || !Continuation(chunks[i][0]))
  {
    hide FirstChar;
    if chunks != [] {
      var first, later := chunks[0], chunks[1..];
      CutIff(first, Concat(later));
      StartOf(later);
      if Utf8(Concat(later)).Some? {
        ChunksDecodeIff(later);
        assert forall i :: 0 < i < |chunks| ==> chunks[i] == later[i - 1];
      } else {
        Undecodable(first, later);
      }
    }
  }

  /** Here the text cannot be cut behind the first chunk, and some chunk shows it. */
  lemma Undecodable(first: seq<Octet>, later: seq<seq<Octet>>)
    requires Utf8(first + Concat(later)).Some? && Utf8(Concat(later)).None?
    ensures exists i :: 0 <= i < |later| && later[i] != [] && Continuation(later[i][0])
    ensures exists i :: 0 <= i < |later| && Utf8(later[i]).None?
  {
    CutIff(first, Concat(later));
    StartOf(later);
    var i :| 0 <= i < |later| && later[i] != [] && later[i][0] == Concat(later)[0];
    assert Utf8(later[i]).None?;
  }

  lemma {:induction false} StartOf(chunks: seq<seq<Octet>>)
    ensures Concat(chunks) != [] ==>
      exists i :: 0 <= i < |chunks| && chunks[i] != [] && chunks[i][0] == Concat(chunks)[0]
  {
    if chunks != [] {
      StartOf(chunks[1..]);
      if chunks[0] == [] && Concat(chunks) != [] {
        var i :| 0 <= i < |chunks[1..]| && chunks[1..][i] != [] && chunks[1..][i][0] == Concat(chunks[1..])[0];
        assert chunks[i + 1] == chunks[1..][i];
      } else if chunks[0] != [] {
        assert chunks[0][0] == Concat(chunks)[0];
      }
    }
  }

  lemma {:induction false} ChunksDecode(chunks: seq<seq<Octet>>)
    requires forall i :: 0 <= i < |chunks| ==> Utf8(chunks[i]).Some?
    ensures Utf8(Concat(chunks)).Some?
  {
    if chunks != [] {
      ChunksDecode(chunks[1..]);
      Utf8Concat(chunks[0], Concat(chunks[1..]));
    }
  }

  /** One two-octet character cut in half: the stream is well formed, its first chunk is not. */
  lemma CutCharacter()
    ensures var chunks: seq<seq<Octet>> := [[0xC3], [0xA9]];
      Utf8(Concat(chunks)) == Some([0xE9 as char]) && Utf8(chunks[0]) == None
  {
    var chunks: seq<seq<Octet>> := [[0xC3], [0xA9]];
    assert chunks[1..] == [[0xA9]] && chunks[1..][1..] == [];
    assert Concat(chunks) == [0xC3, 0xA9];
    var whole: seq<Octet> := [0xC3, 0xA9];
    assert FirstChar(whole) == Some((0xE9 as char, 2)) && whole[2..] == [];
    assert [0xE9 as char] + "" == [0xE9 as char];
    var half: seq<Octet> := [0xC3];
    assert FirstChar(half) == None;
  }

  // ---------- lines ----------

  /** The complete lines of a text. */
  function Lines(text: string): seq<string>
    decreases |text|
  {
    var n := IndexOf(text, '\n');
    if n == |text| then [] else [text[..n]] + Lines(text[n + 1..])
  }

  /** What follows the last complete line. */
  function Rest(text: string): string
    decreases |text|
  {
    var n := IndexOf(text, '\n');
    if n == |text| then text else Rest(text[n + 1..])
  }

  lemma {:induction false} LinesAppend(a: string, b: string)
    ensures Lines(a + b) == Lines(a) + Lines(Rest(a) + b)
    ensures Rest(a + b) == Rest(Rest(a) + b)
    decreases |a|
  {
    hide IndexOf;
    var n := IndexOf(a, '\n');
    if n < |a| {
      IndexIn(a, b);
      assert (a + b)[..n] == a[..n] && (a + b)[n + 1..] == a[n + 1..] + b;
      LinesAppend(a[n + 1..], b);
      assert Lines(a) == [a[..n]] + Lines(a[n + 1..]);
    }
  }

  lemma IndexIn(a: string, b: string)
    requires IndexOf(a, '\n') < |a|
    ensures IndexOf(a + b, '\n') == IndexOf(a, '\n')
  {
    var n := IndexOf(a, '\n');
    assert (a + b)[n] == '\n';
  }

  lemma OneLine(line: string, b: string)
    requires forall i :: 0 <= i < |line| ==> line[i] != '\n'
    ensures Lines(line + "\n" + b) == [line] + Lines(b) && Rest(line + "\n" + b) == Rest(b)
  {
    hide IndexOf;
    var t := line + "\n" + b;
    var n := IndexOf(t, '\n');
    assert t[|line|] == '\n';
    assert n == |line| by { assert n <= |line|; }
    assert t[..n] == line && t[n + 1..] == b;
  }

  // ---------- requests and answers ----------

  datatype Reply = Said(text: string) | Raised

  /** The two things the loop calls: the JSON reader, which gives nothing for text that is not an object, and the
      callback, given the number of calls before this one. */
  datatype Peer<!R> = Peer(loads: string -> Option<R>, broker: (nat, R) -> Reply)

  function WireAnswer(reply: Reply): string {
    if reply == Said("always") then "approve" else if reply == Said("ask") then "ask" else "deny"
  }

  /** The requests the callback is asked about, in order. */
  function Calls<R>(peer: Peer<R>, lines: seq<string>): seq<R> {
    if lines == [] then []
    else
      var before, line := Calls(peer, lines[..|lines| - 1]), lines[|lines| - 1];
      if line != "" && peer.loads(line).Some? then before + [peer.loads(line).value] else before
  }

  function LineAnswer<R>(peer: Peer<R>, line: string, calls: nat): string {
    match peer.loads(line)
    case None => "deny"
    case Some(request) => WireAnswer(peer.broker(calls, request))
  }

  /** What is sent back. */
  function Sent<R>(peer: Peer<R>, lines: seq<string>): string {
    if lines == [] then ""
    else
      var before, line := lines[..|lines| - 1], lines[|lines| - 1];
      Sent(peer, before) + (if line == "" then "" else LineAnswer(peer, line, |Calls(peer, before)|) + "\n")
  }

  class Loop<R> {
    const peer: Peer<R>
    var childBuffer: string
    var sent: string
    var calls: seq<R>
    /** All text so far. */
    ghost var received: string

    /** The state is a function of the text received, not of its chunks. */
    ghost predicate Valid()
      reads this
    {
      && childBuffer == Rest(received)
      && sent == Sent(peer, Lines(received))
      && calls == Calls(peer, Lines(received))
    }

    constructor (peer: Peer<R>)
      ensures Valid() && this.peer == peer && received == ""
    {
      this.peer, childBuffer, sent, calls, received := peer, "", "", [], "";
    }

    /** Take in one chunk; a chunk that does not decode ends the loop. */
    method Receive(chunk: seq<Octet>) returns (ok: bool)
      requires Valid()
      modifies this
      ensures Valid() && ok == Utf8(chunk).Some?
      ensures received == if ok then old(received) + Utf8(chunk).value else old(received)
    {
      hide IndexOf, Utf8, FirstChar, Sent, Calls;
      var text := Utf8(chunk);
      if text.None? { return false; }
      LinesAppend(received, text.value);
      ghost var served := Lines(received);
      received := received + text.value;
      childBuffer := childBuffer + text.value;
      var n := IndexOf(childBuffer, '\n');
      while n < |childBuffer|
        invariant n == IndexOf(childBuffer, '\n')
        invariant received == old(received) + text.value
        invariant Lines(received) == served + Lines(childBuffer) && Rest(received) == Rest(childBuffer)
        invariant sent == Sent(peer, served) && calls == Calls(peer, served)
        decreases |childBuffer|
      {
        var raw := childBuffer[..n];
        ghost var tail := Lines(childBuffer[n + 1..]);
        assert Lines(childBuffer) == [raw] + tail;
        assert served + ([raw] + tail) == (served + [raw]) + tail;
        OneMoreLine(peer, served, raw);
        childBuffer := childBuffer[n + 1..];
        served := served + [raw];
        n := IndexOf(childBuffer, '\n');
        if raw != "" { Answer(raw); }
      }
      assert Lines(childBuffer) == [] && served + [] == served;
      return true;
    }

    /** Answer one line. */
    method Answer(raw: string)
      modifies this`sent, this`calls
      ensures sent == old(sent) + LineAnswer(peer, raw, |old(calls)|) + "\n"
      ensures calls == if peer.loads(raw).Some? then old(calls) + [peer.loads(raw).value] else old(calls)
    {
      var request := peer.loads(raw);
      var response := "never";
      if request.Some? {
        var reply := peer.broker(|calls|, request.value);
        calls := calls + [request.value];
        if reply.Said? { response := reply.text; }
      }
      if response != "always" && response != "never" && response != "ask" { response := "never"; }
      var wire := if response == "always" then "approve" else if response == "never" then "deny" else "ask";
      sent := sent + (wire + "\n");
    }

    /** Take in chunks until one does not decode. */
    method Run(chunks: seq<seq<Octet>>) returns (ok: bool)
      requires Valid()
      modifies this
      ensures Valid() && ok == (forall i :: 0 <= i < |chunks| ==> Utf8(chunks[i]).Some?)
      ensures ok ==> Utf8(Concat(chunks)).Some? && received == old(received) + Utf8(Concat(chunks)).value
    {
      hide Utf8, FirstChar, Rest, Lines, Sent, Calls;
      ghost var rest := chunks;
      NoOctets();
      for k := 0 to |chunks|
        invariant Valid() && forall i :: 0 <= i < k ==> Utf8(chunks[i]).Some?
        invariant Utf8(Concat(chunks[..k])).Some? && received == old(received) + Utf8(Concat(chunks[..k])).value
      {
        ok := Receive(chunks[k]);
        if !ok { return; }
        OneMoreChunk(chunks, k);
        Utf8Concat(Concat(chunks[..k]), chunks[k]);
      }
      assert chunks[..|chunks|] == chunks;
      return true;
    }
  }

  /** The whole loop: chunks in, answers out. */
  method RunWithAccessBroker<R>(peer: Peer<R>, chunks: seq<seq<Octet>>) returns (ok: bool, sent: string, calls: seq<R>)
    ensures ok == (forall i :: 0 <= i < |chunks| ==> Utf8(chunks[i]).Some?)
    ensures ok ==> Utf8(Concat(chunks)).Some?
    ensures ok ==> sent == Sent(peer, Lines(Utf8(Concat(chunks)).value))
    ensures ok ==> calls == Calls(peer, Lines(Utf8(Concat(chunks)).value))
  {
    hide Utf8, Sent, Calls, Lines;
    var loop := new Loop(peer);
    ok := loop.Run(chunks);
    sent, calls := loop.sent, loop.calls;
    assert ok ==> "" + Utf8(Concat(chunks)).value == Utf8(Concat(chunks)).value;
  }

  lemma NoOctets()
    ensures Concat([]) == [] && Utf8([]) == Some("")
  {
  }

  lemma {:induction false} OneMoreChunk(chunks: seq<seq<Octet>>, k: nat)
    requires k < |chunks|
    ensures Concat(chunks[..k + 1]) == Concat(chunks[..k]) + chunks[k]
  {
    if k > 0 {
      OneMoreChunk(chunks[1..], k - 1);
      assert chunks[1..][..k] == chunks[..k + 1][1..] && chunks[1..][..k - 1] == chunks[..k][1..];
      assert Concat(chunks[..k + 1]) == chunks[0] + (Concat(chunks[..k][1..]) + chunks[k]);
    } else {
      assert chunks[..1] == [chunks[0]] && chunks[..1][1..] == [] && chunks[..0] == [];
    }
  }

  lemma OneMoreLine<R>(peer: Peer<R>, lines: seq<string>, line: string)
    ensures Calls(peer, lines + [line]) ==
      if line != "" && peer.loads(line).Some? then Calls(peer, lines) + [peer.loads(line).value] else Calls(peer, lines)
    ensures Sent(peer, lines + [line]) ==
      if line == "" then Sent(peer, lines) else Sent(peer, lines) + LineAnswer(peer, line, |Calls(peer, lines)|) + "\n"
  {
    var all := lines + [line];
    assert all[..|all| - 1] == lines;
    hide LineAnswer;
  }

  // ---------- every line is answered, in order ----------

  function NonEmpty(lines: seq<string>): seq<string> {
    if lines == [] then []
    else NonEmpty(lines[..|lines| - 1]) + (if lines[|lines| - 1] == "" then [] else [lines[|lines| - 1]])
  }

  /** The answers, one for each line that is not empty. */
  function Answers<R>(peer: Peer<R>, lines: seq<string>): (r: seq<string>)
    ensures |r| == |NonEmpty(lines)|
  {
    if lines == [] then []
    else
      var before, line := lines[..|lines| - 1], lines[|lines| - 1];
      Answers(peer, before) + (if line == "" then [] else [LineAnswer(peer, line, |Calls(peer, before)|)])
  }

  lemma AnswerIsOneWord<R>(peer: Peer<R>, line: string, calls: nat)
    ensures LineAnswer(peer, line, calls) in ["approve", "ask", "deny"]
    ensures forall i :: 0 <= i < |LineAnswer(peer, line, calls)| ==> LineAnswer(peer, line, calls)[i] != '\n'
  {
  }

  /** The lines sent back are exactly the answers, one for each line that is not empty. */
  lemma {:induction false} LinesSentBack<R>(peer: Peer<R>, lines: seq<string>)
    ensures Lines(Sent(peer, lines)) == Answers(peer, lines) && Rest(Sent(peer, lines)) == ""
  {
    hide IndexOf, LineAnswer;
    if lines != [] {
      var before, line := lines[..|lines| - 1], lines[|lines| - 1];
      LinesSentBack(peer, before);
      if line != "" {
        var answer := LineAnswer(peer, line, |Calls(peer, before)|);
        AnswerIsOneWord(peer, line, |Calls(peer, before)|);
        assert Sent(peer, lines) == Sent(peer, before) + (answer + "\n");
        LinesAppend(Sent(peer, before), answer + "\n");
        assert answer + "\n" == answer + "\n" + "";
        OneLine(answer, "");
        assert "" + (answer + "\n") == answer + "\n";
      } else {
        assert Sent(peer, lines) == Sent(peer, before);
      }
    }
  }

  // ---------- which answer each line gets ----------

  /** How many of the lines are read as an object. */
  function Readable<R>(peer: Peer<R>, lines: seq<string>): nat {
    if lines == [] then 0
    else Readable(peer, lines[..|lines| - 1]) + if peer.loads(lines[|lines| - 1]).Some? then 1 else 0
  }

  lemma {:induction false} CallsAreReadable<R>(peer: Peer<R>, lines: seq<string>)
    ensures |Calls(peer, lines)| == Readable(peer, NonEmpty(lines))
  {
    if lines != [] {
      var before, line := lines[..|lines| - 1], lines[|lines| - 1];
      CallsAreReadable(peer, before);
      var all := NonEmpty(lines);
      assert all == NonEmpty(before) + if line == "" then [] else [line];
      if line != "" {
        assert all[..|all| - 1] == NonEmpty(before) && all[|all| - 1] == line;
      } else {
        assert all == NonEmpty(before);
      }
    }
  }

  /** A line is approved exactly when it is read as an object and the callback, asked about it as one call more than
      lines were read before, says "always"; "ask" is passed on, and whatever else happens is a denial. */
  lemma {:induction false} AnswersAre<R>(peer: Peer<R>, lines: seq<string>, k: nat)
    requires k < |NonEmpty(lines)|
    ensures var answer, line := Answers(peer, lines)[k], NonEmpty(lines)[k];
      var said := if peer.loads(line).None? then None else
        Some(peer.broker(Readable(peer, NonEmpty(lines)[..k]), peer.loads(line).value));
      && (answer == "approve" <==> said == Some(Said("always")))
      && (answer == "ask" <==> said == Some(Said("ask")))
      && (answer == "deny" <==> said != Some(Said("always")) && said != Some(Said("ask")))
  {
    var before, line := lines[..|lines| - 1], lines[|lines| - 1];
    if k < |NonEmpty(before)| {
      AnswersAre(peer, before, k);
      assert NonEmpty(lines)[..k] == NonEmpty(before)[..k];
    } else {
      assert NonEmpty(lines)[..k] == NonEmpty(before);
      CallsAreReadable(peer, before);
      AnswerWords();
    }
  }

  lemma AnswerWords()
    ensures |"approve"| == 7 && |"ask"| == 3 && |"deny"| == 4 && |"always"| == 6
  {
  }
}
