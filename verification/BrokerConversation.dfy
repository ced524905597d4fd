/** Proxy and broker loop together: every request gets the decision its own callback made. */
module BrokerConversation {
  import opened Wrappers
  import opened CText
  import opened HttpRequest
  import opened BrokerWire
  import opened BrokerLoop

  /** All requests of one proxy on the wire. */
  function Wire(requests: seq<Fields>): string {
    if requests == [] then "" else Wire(requests[..|requests| - 1]) + (Line(requests[|requests| - 1]) + "\n")
  }

  /** The members of an object as a dictionary holds them: one for each name, in the place where the name first stands,
      with the value that stands last. */
  function Dict(fields: Fields): Fields {
    if fields == [] then [] else Put(Dict(fields[..|fields| - 1]), fields[|fields| - 1].0, fields[|fields| - 1].1)
  }

  function Put(fields: Fields, name: string, value: string): Fields {
    if fields == [] then [(name, value)]
    else if fields[0].0 == name then [(name, value)] + fields[1..]
    else [fields[0]] + Put(fields[1..], name, value)
  }

  /** The last value given for a name. */
  function LastValue(fields: Fields, name: string): Option<string> {
    if fields == [] then None
    else if fields[|fields| - 1].0 == name then Some(fields[|fields| - 1].1)
    else LastValue(fields[..|fields| - 1], name)
  }

  function Lookup(fields: Fields, name: string): Option<string> {
    if fields == [] then None else if fields[0].0 == name then Some(fields[0].1) else Lookup(fields[1..], name)
  }

  lemma {:induction false} PutLookup(fields: Fields, name: string, value: string, other: string)
    ensures Lookup(Put(fields, name, value), other) == if other == name then Some(value) else Lookup(fields, other)
  {
    if fields != [] && fields[0].0 != name {
      PutLookup(fields[1..], name, value, other);
      assert Put(fields, name, value)[1..] == Put(fields[1..], name, value);
    } else if fields != [] {
      assert Put(fields, name, value)[1..] == fields[1..];
    } else {
      assert [(name, value)][1..] == [];
    }
  }

  /** A dictionary gives each name the last value that stood for it. */
  lemma {:induction false} DictLooksUp(fields: Fields, name: string)
    ensures Lookup(Dict(fields), name) == LastValue(fields, name)
  {
    if fields != [] {
      var n := |fields| - 1;
      DictLooksUp(fields[..n], name);
      PutLookup(Dict(fields[..n]), fields[n].0, fields[n].1, name);
    }
  }

  predicate DistinctNames(fields: Fields) { forall i, j :: 0 <= i < j < |fields| ==> fields[i].0 != fields[j].0 }

  lemma {:induction false} PutNew(fields: Fields, name: string, value: string)
    requires forall i :: 0 <= i < |fields| ==> fields[i].0 != name
    ensures Put(fields, name, value) == fields + [(name, value)]
  {
    if fields != [] { PutNew(fields[1..], name, value); }
  }

  /** Members with distinct names are read as they stand. */
  lemma {:induction false} DictOfDistinct(fields: Fields)
    requires DistinctNames(fields)
    ensures Dict(fields) == fields
  {
    if fields != [] {
      var n := |fields| - 1;
      DictOfDistinct(fields[..n]);
      PutNew(fields[..n], fields[n].0, fields[n].1);
      assert fields == fields[..n] + [(fields[n].0, fields[n].1)];
    }
  }

  /** So is every request the proxy sends. */
  lemma RequestAsSent(agentId: string, kind: string, subject: string, verb: string, path: string)
    ensures var fields := RequestFields(agentId, kind, subject, verb, path); Dict(fields) == fields
  {
    assert |"agent_id"| == 8 && |"kind"| == 4 && |"subject"| == 7 && |"method"| == 6 && "path"[0] == 'p'
      && "kind"[0] == 'k';
    DictOfDistinct(RequestFields(agentId, kind, subject, verb, path));
  }

  /** The loop's reader makes dictionaries of flat objects of strings; of other texts it may make anything. */
  ghost predicate ReadsJson(peer: Peer<Fields>) {
    forall s: string :: ReadObject(s).Some? ==> peer.loads(s) == Some(Dict(ReadObject(s).value))
  }

  /** The requests as the callback gets them. */
  function Dicts(requests: seq<Fields>): (r: seq<Fields>)
    ensures |r| == |requests| && forall i :: 0 <= i < |r| ==> r[i] == Dict(requests[i])
  {
    seq(|requests|, i requires 0 <= i < |requests| => Dict(requests[i]))
  }

  function Approves(reply: Reply): bool { reply == Said("always") || reply == Said("ask") }

  lemma NoLines()
    ensures Lines("") == [] && Rest("") == ""
  {
  }

  /** Each request is one line on the wire. */
  lemma {:induction false} WireGrows(requests: seq<Fields>)
    ensures Rest(Wire(requests)) == ""
    ensures requests != [] ==>
      Lines(Wire(requests)) == Lines(Wire(requests[..|requests| - 1])) + [Line(requests[|requests| - 1])]
  {
    hide IndexOf, Line, Lines, Rest;
    NoLines();
    if requests != [] {
      var before, text := requests[..|requests| - 1], Line(requests[|requests| - 1]);
      WireGrows(before);
      LinePrintable(requests[|requests| - 1]);
      LinesAppend(Wire(before), text + "\n");
      assert text + "\n" == text + "\n" + "" && "" + (text + "\n") == text + "\n";
      OneLine(text, "");
    }
  }

  lemma NothingAsked(peer: Peer<Fields>)
    ensures Calls(peer, Lines(Wire([]))) == []
  {
    NoLines();
  }

  /** The callback is asked about exactly the requests sent, in order. */
  lemma {:induction false} CallsAreRequests(peer: Peer<Fields>, requests: seq<Fields>)
    requires ReadsJson(peer)
    ensures Calls(peer, Lines(Wire(requests))) == Dicts(requests)
  {
    hide IndexOf, Line, Lines, ReadObject, Calls, Wire, LineAnswer, Sent, Dict;
    if requests == [] {
      NothingAsked(peer);
    } else {
      var before, last := requests[..|requests| - 1], requests[|requests| - 1];
      CallsAreRequests(peer, before);
      WireGrows(requests);
      LinePrintable(last);
      LineRoundTrip(last);
      OneMoreLine(peer, Lines(Wire(before)), Line(last));
      assert Dicts(before) + [Dict(last)] == Dicts(requests);
    }
  }

  lemma SentGrows(peer: Peer<Fields>, requests: seq<Fields>)
    requires ReadsJson(peer) && requests != []
    ensures var n := |requests| - 1;
      Sent(peer, Lines(Wire(requests)))
        == Sent(peer, Lines(Wire(requests[..n]))) + WireAnswer(peer.broker(n, Dict(requests[n]))) + "\n"
  {
    hide IndexOf, Line, Lines, ReadObject, Wire, Calls, Sent, WireAnswer, Dict;
    var before, last := requests[..|requests| - 1], requests[|requests| - 1];
    CallsAreRequests(peer, before);
    WireGrows(requests);
    LinePrintable(last);
    LineRoundTrip(last);
    OneMoreLine(peer, Lines(Wire(before)), Line(last));
  }

  /** The proxy's decisions when it sends requests one after another and reads one answer after each. */
  function Ask(requests: seq<Fields>, events: seq<Event>): (seq<Answer<Decision>>, seq<Event>) {
    if requests == [] then ([], events)
    else
      var (decisions, rest) := Ask(requests[..|requests| - 1], events);
      var (decision, after) := Decide(requests[|requests| - 1], Good(()), rest);
      (decisions + [decision], after)
  }

  predicate Fits(request: Fields) { |Line(request)| + 1 < PAYLOAD_SIZE }

  lemma WireWord(reply: Reply)
    ensures var word := WireAnswer(reply);
      && (word == "approve" || word == "ask" || word == "deny") && |word| < ANSWER_SIZE
      && Meaning(word) == Good(if Approves(reply) then APPROVE else DENY)
  {
  }

  lemma BytesConcat(s: string, t: string, after: seq<Event>)
    ensures Bytes(s + t) + after == Bytes(s) + (Bytes(t) + after)
  {
  }

  /** What the proxy takes an answer line for, with the words of the loop and those of the rules. */
  lemma AnswerDecides(request: Fields, word: string, after: seq<Event>)
    requires Fits(request) && |word| < ANSWER_SIZE
    requires forall i :: 0 <= i < |word| ==> word[i] != '\n' && word[i] != '\r' && word[i] != NUL
    ensures var (decision, rest) := Decide(request, Good(()), Bytes(word + "\n") + after);
      && rest == after
      && (decision == Good(APPROVE) <==> word in {"approve", "always", "ask"})
      && (decision == Good(DENY) <==> word in {"deny", "never"})
      && (decision.Bad? <==> word !in {"approve", "always", "ask", "deny", "never"})
  {
    DecisionWords();
    hide Line, ReadAnswer, NoReturns, CStr;
    KeepsAll(word);
    PlainCStr(word);
    AnswerLine(word, "", after, ANSWER_SIZE);
    assert "" + word == word;
    assert Bytes(word + "\n") + after == Bytes(word) + [Byte('\n')] + after;
  }

  lemma DecisionWords()
    ensures "approve" !in {"deny", "never"} && "always" !in {"deny", "never"} && "ask" !in {"deny", "never"}
  {
    assert |"approve"| == 7 && |"always"| == 6 && |"ask"| == 3 && |"deny"| == 4 && |"never"| == 5;
  }

  lemma AnswerIsUnderstood(request: Fields, reply: Reply, after: seq<Event>)
    requires Fits(request)
    ensures Decide(request, Good(()), Bytes(WireAnswer(reply) + "\n") + after)
      == (Good(if Approves(reply) then APPROVE else DENY), after)
  {
    hide Line, ReadAnswer, WireAnswer, Meaning, Approves, NoReturns, CStr;
    var word := WireAnswer(reply);
    WireWord(reply);
    PlainWord(word);
    AnswerLine(word, "", after, ANSWER_SIZE);
    assert "" + word == word;
    assert Bytes(word + "\n") + after == Bytes(word) + [Byte('\n')] + after;
  }

  lemma PlainWord(word: string)
    requires word == "approve" || word == "ask" || word == "deny"
    ensures NoReturns(word) == word && CStr(word) == word && '\n' !in word
  {
    assert forall i :: 0 <= i < |word| ==> word[i] != '\r' && word[i] != NUL;
    KeepsAll(word);
    PlainCStr(word);
  }

  lemma KeepsAll(s: string)
    requires forall i :: 0 <= i < |s| ==> s[i] != '\r'
    ensures NoReturns(s) == s
  {
    if s != "" { KeepsAll(s[1..]); }
  }

  /** Request by request, the proxy approves exactly when the callback said "always" or "ask" to that request, and
      denies otherwise: no answer is lost, repeated or taken for another request's. */
  lemma {:induction false} DecisionsFollowCallback(peer: Peer<Fields>, requests: seq<Fields>, after: seq<Event>)
    requires ReadsJson(peer) && forall i :: 0 <= i < |requests| ==> Fits(requests[i])
    ensures var (decisions, rest) := Ask(requests, Bytes(Sent(peer, Lines(Wire(requests)))) + after);
      && rest == after && |decisions| == |requests|
      && forall k :: 0 <= k < |requests| ==>
        decisions[k] == Good(if Approves(peer.broker(k, Dict(requests[k]))) then APPROVE else DENY)
  {
    hide IndexOf, Line, Lines, Wire, Fits, Decide, WireAnswer, Approves, Ask, Sent, Dict;
    if requests == [] {
      NothingSent(peer, after);
    } else {
      var n := |requests| - 1;
      var before := requests[..n];
      var sent, answer := Sent(peer, Lines(Wire(before))), WireAnswer(peer.broker(n, Dict(requests[n]))) + "\n";
      SentGrows(peer, requests);
      BytesConcat(sent, answer, after);
      assert sent + WireAnswer(peer.broker(n, Dict(requests[n]))) + "\n" == sent + answer;
      DecisionsFollowCallback(peer, before, Bytes(answer) + after);
      AnswerIsUnderstood(requests[n], peer.broker(n, Dict(requests[n])), after);
      hide Sent, Bytes;
      AskGrows(requests, Bytes(sent + answer) + after);
    }
  }

  lemma AskGrows(requests: seq<Fields>, events: seq<Event>)
    requires requests != []
    ensures var (decisions, rest) := Ask(requests[..|requests| - 1], events);
      var (decision, after) := Decide(requests[|requests| - 1], Good(()), rest);
      Ask(requests, events) == (decisions + [decision], after)
  {
  }

  lemma NothingSent(peer: Peer<Fields>, after: seq<Event>)
    ensures Ask([], Bytes(Sent(peer, Lines(Wire([])))) + after) == ([], after)
  {
    NoLines();
    assert Bytes("") + after == after;
  }

  // ---------- chunks ----------

  ghost predicate Ascii(text: string) { forall i :: 0 <= i < |text| ==> text[i] < 128 as char }

  ghost function Octets(text: string): seq<Octet>
    requires Ascii(text)
  {
    seq(|text|, i requires 0 <= i < |text| => text[i] as int)
  }

  lemma {:induction false} AsciiDecodes(text: string)
    requires Ascii(text)
    ensures Utf8(Octets(text)) == Some(text)
  {
    if text != "" {
      AsciiDecodes(text[1..]);
      assert Octets(text)[1..] == Octets(text[1..]);
      assert FirstChar(Octets(text)) == Some((text[0], 1));
      assert [text[0]] + text[1..] == text;
      hide FirstChar;
    }
  }

  lemma {:induction false} ChunkWithin(chunks: seq<seq<Octet>>, k: nat, j: nat)
    requires k < |chunks| && j < |chunks[k]|
    ensures chunks[k][j] in Concat(chunks)
  {
    if k > 0 { ChunkWithin(chunks[1..], k - 1, j); }
  }

  /** However ASCII text is cut into chunks, they decode to the text. */
  lemma AsciiChunks(text: string, chunks: seq<seq<Octet>>)
    requires Ascii(text) && Concat(chunks) == Octets(text)
    ensures forall k :: 0 <= k < |chunks| ==> Utf8(chunks[k]).Some?
    ensures Utf8(Concat(chunks)) == Some(text)
  {
    AsciiDecodes(text);
    forall k | 0 <= k < |chunks|
      ensures chunks[k] == [] || !Continuation(chunks[k][0])
    {
      if chunks[k] != [] { ChunkWithin(chunks, k, 0); }
    }
    ChunksDecodeIff(chunks);
  }

  /** End to end: whatever the chunks, the callback is asked about the requests in order, and the proxy, reading what
      the loop sends back, decides as the callback answered. */
  method Converse(peer: Peer<Fields>, requests: seq<Fields>, chunks: seq<seq<Octet>>)
    returns (calls: seq<Fields>, decisions: seq<Answer<Decision>>)
    requires ReadsJson(peer) && forall i :: 0 <= i < |requests| ==> Fits(requests[i])
    requires Ascii(Wire(requests)) && Concat(chunks) == Octets(Wire(requests))
    ensures calls == Dicts(requests) && |decisions| == |requests|
    ensures forall k :: 0 <= k < |requests| ==>
      decisions[k] == Good(if Approves(peer.broker(k, Dict(requests[k]))) then APPROVE else DENY)
  {
    AsciiChunks(Wire(requests), chunks);
    hide *;
    var ok, sent;
    ok, sent, calls := RunWithAccessBroker(peer, chunks);
    CallsAreRequests(peer, requests);
    DecisionsFollowCallback(peer, requests, []);
    assert Bytes(sent) + [] == Bytes(sent);
    decisions := Ask(requests, Bytes(sent)).0;
  }
}
