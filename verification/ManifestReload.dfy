/** Printing a manifest and loading it back. */
module ManifestReload {
  import opened Wrappers
  import opened CText
  import opened AccessRules
  import opened ManifestText
  import opened ManifestRoundTrip

  // ---------- brackets ----------

  /** Text without quotes or brackets is passed over. */
  lemma {:induction false} ScanPlain(t: string, rest: string, open: char, close: char, depth: int)
    requires forall i :: 0 <= i < |t| ==> t[i] != '"' && t[i] != open && t[i] != close
    ensures ScanClose(t + rest, open, close, depth, false, false) == ScanClose(rest, open, close, depth, false, false)
  {
    if t == "" {
      assert t + rest == rest;
    } else {
      assert (t + rest)[0] == t[0] && (t + rest)[1..] == t[1..] + rest;
      ScanPlain(t[1..], rest, open, close, depth);
    }
  }

  lemma {:induction false} ScanPlainInString(t: string, rest: string, open: char, close: char, depth: int)
    requires forall i :: 0 <= i < |t| ==> t[i] != '"' && t[i] != '\\'
    ensures ScanClose(t + rest, open, close, depth, true, false) == ScanClose(rest, open, close, depth, true, false)
  {
    if t == "" {
      assert t + rest == rest;
    } else {
      assert (t + rest)[0] == t[0] && (t + rest)[1..] == t[1..] + rest;
      ScanPlainInString(t[1..], rest, open, close, depth);
    }
  }

  lemma ScanChar(c: char, u: string, open: char, close: char, depth: int)
    ensures ScanClose(EscChar(c) + u, open, close, depth, true, false) == ScanClose(u, open, close, depth, true, false)
  {
    var e := EscChar(c);
    hide EscChar;
    if IsPlain(c) {
      ScanPlainInString(e, u, open, close, depth);
    } else {
      var s, d := e + u, e[2..];
      assert s[0] == '\\' && s[1..][0] == e[1] && s[1..][1..] == d + u;
      ScanPlainInString(d, u, open, close, depth);
    }
  }

  /** A quoted value is passed over, whatever brackets, quotes and backslashes are in it. */
  lemma {:induction false} ScanInside(v: string, rest: string, open: char, close: char, depth: int)
    ensures ScanClose(EscThen(v, "\"" + rest), open, close, depth, true, false)
      == ScanClose(rest, open, close, depth, false, false)
  {
    if v == "" {
      assert ("\"" + rest)[1..] == rest;
    } else {
      hide EscChar, ScanClose;
      ScanChar(v[0], EscThen(v[1..], "\"" + rest), open, close, depth);
      ScanInside(v[1..], rest, open, close, depth);
    }
  }

  lemma ScanQuoted(v: string, rest: string, open: char, close: char, depth: int)
    ensures ScanClose(QuotedThen(v, rest), open, close, depth, false, false)
      == ScanClose(rest, open, close, depth, false, false)
  {
    var u := EscThen(v, "\"" + rest);
    assert ("\"" + u)[0] == '"' && ("\"" + u)[1..] == u;
    ScanInside(v, rest, open, close, depth);
  }

  ghost predicate Brackets(open: char, close: char) { (open == '[' && close == ']') || (open == '{' && close == '}') }

  lemma {:induction false} ScanFields(ps: seq<Pair>, rest: string, open: char, close: char, depth: int)
    requires Brackets(open, close)
    ensures ScanClose(FieldsThen(ps, rest), open, close, depth, false, false)
      == ScanClose(rest, open, close, depth, false, false)
  {
    if ps != [] {
      hide ScanClose, QuotedThen;
      var tail := if |ps| == 1 then rest else "," + FieldsThen(ps[1..], rest);
      ScanQuoted(ps[0].key, ":" + QuotedThen(ps[0].val, tail), open, close, depth);
      ScanPlain(":", QuotedThen(ps[0].val, tail), open, close, depth);
      ScanQuoted(ps[0].val, tail, open, close, depth);
      if |ps| > 1 {
        ScanPlain(",", FieldsThen(ps[1..], rest), open, close, depth);
        ScanFields(ps[1..], rest, open, close, depth);
      }
    }
  }

  lemma ScanNumber(number: Option<(string, nat)>, rest: string, open: char, close: char, depth: int)
    requires Brackets(open, close)
    ensures ScanClose(NumberThen(number, rest), open, close, depth, false, false)
      == ScanClose(rest, open, close, depth, false, false)
  {
    hide ScanClose, QuotedThen, Decimal;
    if number.Some? {
      var (key, n) := number.value;
      var digits := Decimal(n);
      assert ":" + digits + rest == (":" + digits) + rest;
      ScanPlain(",", QuotedThen(key, ":" + digits + rest), open, close, depth);
      ScanQuoted(key, ":" + digits + rest, open, close, depth);
      ScanPlain(":" + digits, rest, open, close, depth);
    }
  }

  /** The brace that closes a printed object is its last one; square brackets never see an object. */
  lemma ScanEntry(e: Entry, rest: string, depth: int)
    ensures ScanClose(EntryThen(e, rest), '{', '}', 0, false, false) == Some(|rest| + 1)
    ensures ScanClose(EntryThen(e, rest), '[', ']', depth, false, false)
      == ScanClose(rest, '[', ']', depth, false, false)
  {
    var inner := FieldsThen(e.fields, NumberThen(e.number, "}" + rest));
    assert ("{" + inner)[0] == '{' && ("{" + inner)[1..] == inner;
    ScanFields(e.fields, NumberThen(e.number, "}" + rest), '{', '}', 1);
    ScanNumber(e.number, "}" + rest, '{', '}', 1);
    ScanFields(e.fields, NumberThen(e.number, "}" + rest), '[', ']', depth);
    ScanNumber(e.number, "}" + rest, '[', ']', depth);
    assert ("}" + rest)[0] == '}' && ("}" + rest)[1..] == rest;
  }

  lemma {:induction false} ScanList(es: seq<Entry>, first: bool, rest: string, depth: int)
    ensures ScanClose(ListThen(es, first, rest), '[', ']', depth, false, false)
      == ScanClose(rest, '[', ']', depth, false, false)
  {
    if es != [] {
      hide ScanClose, EntryThen;
      var tail := ListThen(es[1..], false, rest);
      ScanPlain(if first then "\n    " else ",\n    ", EntryThen(es[0], tail), '[', ']', depth);
      ScanEntry(es[0], tail, depth);
      ScanList(es[1..], false, rest, depth);
    }
  }

  // ---------- text in front of other text ----------

  lemma {:induction false} EscAppend(v: string, a: string, b: string)
    ensures EscThen(v, a) + b == EscThen(v, a + b)
  {
    hide EscChar;
    if v != "" {
      EscAppend(v[1..], a, b);
      assert EscChar(v[0]) + EscThen(v[1..], a) + b == EscChar(v[0]) + (EscThen(v[1..], a) + b);
    }
  }

  lemma QuotedAppend(v: string, a: string, b: string)
    ensures QuotedThen(v, a) + b == QuotedThen(v, a + b)
  {
    EscAppend(v, "\"" + a, b);
    assert "\"" + a + b == "\"" + (a + b);
    assert "\"" + EscThen(v, "\"" + a) + b == "\"" + (EscThen(v, "\"" + a) + b);
  }

  lemma {:induction false} FieldsAppend(ps: seq<Pair>, a: string, b: string)
    ensures FieldsThen(ps, a) + b == FieldsThen(ps, a + b)
  {
    if ps != [] {
      hide QuotedThen;
      var tail := if |ps| == 1 then a else "," + FieldsThen(ps[1..], a);
      FieldsAppend(ps[1..], a, b);
      assert |ps| > 1 ==> tail + b == "," + (FieldsThen(ps[1..], a) + b);
      QuotedAppend(ps[0].val, tail, b);
      QuotedAppend(ps[0].key, ":" + QuotedThen(ps[0].val, tail), b);
      assert ":" + QuotedThen(ps[0].val, tail) + b == ":" + (QuotedThen(ps[0].val, tail) + b);
    }
  }

  lemma EntryAppend(e: Entry, a: string, b: string)
    ensures EntryThen(e, a) + b == EntryThen(e, a + b)
  {
    hide QuotedThen, FieldsThen;
    var end := "}" + a;
    assert end + b == "}" + (a + b);
    if e.number.Some? {
      var (key, n) := e.number.value;
      QuotedAppend(key, ":" + Decimal(n) + end, b);
      assert ":" + Decimal(n) + end + b == ":" + Decimal(n) + (end + b);
      assert "," + QuotedThen(key, ":" + Decimal(n) + end) + b == "," + (QuotedThen(key, ":" + Decimal(n) + end) + b);
    }
    assert NumberThen(e.number, end) + b == NumberThen(e.number, end + b);
    FieldsAppend(e.fields, NumberThen(e.number, end), b);
    assert "{" + FieldsThen(e.fields, NumberThen(e.number, end)) + b
      == "{" + (FieldsThen(e.fields, NumberThen(e.number, end)) + b);
  }

  lemma {:induction false} ListAppend(es: seq<Entry>, first: bool, a: string, b: string)
    ensures ListThen(es, first, a) + b == ListThen(es, first, a + b)
  {
    if es != [] {
      hide EntryThen;
      var sep, tail := if first then "\n    " else ",\n    ", ListThen(es[1..], false, a);
      ListAppend(es[1..], false, a, b);
      EntryAppend(es[0], tail, b);
      assert sep + EntryThen(es[0], tail) + b == sep + (EntryThen(es[0], tail) + b);
    }
  }

  // ---------- the next object of a printed list ----------

  lemma {:induction false} SkipToBrace(s: string, at: nat, brace: nat)
    requires at <= brace <= |s| && forall i :: at <= i < brace ==> s[i] != '{'
    ensures NextObject(s, at) == NextObject(s, brace)
    decreases brace - at
  {
    if at < brace { SkipToBrace(s, at + 1, brace); }
  }

  lemma NextOfList(es: seq<Entry>, first: bool)
    ensures var s := ListThen(es, first, "\n  ");
      if es == [] then NextObject(s, 0) == None
      else
        var sep, tail := if first then "\n    " else ",\n    ", ListThen(es[1..], false, "\n  ");
        && |s| == |sep| + |EntryThen(es[0], tail)| && |tail| < |EntryThen(es[0], tail)|
        && NextObject(s, 0) == Some((|sep|, |EntryThen(es[0], tail)| - |tail|))
  {
    var s := ListThen(es, first, "\n  ");
    if es == [] {
      SkipToBrace(s, 0, |s|);
    } else {
      var sep, tail := if first then "\n    " else ",\n    ", ListThen(es[1..], false, "\n  ");
      var t := EntryThen(es[0], tail);
      assert t[0] == '{';
      assert s == sep + t;
      SkipToBrace(s, 0, |sep|);
      assert s[|sep|..] == t;
      ScanEntry(es[0], tail, 0);
    }
  }

  // ---------- what an entry comes back as ----------

  predicate IsRequestKey(k: string) { k == "kind" || k == "subject" || k == "method" || k == "path" }

  function SizeOf(k: string): (n: nat)
    ensures 0 < n <= PATH_SIZE
  {
    if k == "kind" then KIND_SIZE else if k == "subject" then SUBJECT_SIZE
    else if k == "method" then METHOD_SIZE else if k == "path" then PATH_SIZE
    else if k == "policy" then POLICY_SIZE else ID_SIZE
  }

  predicate IsLowercased(k: string) { k == "kind" || k == "subject" || k == "policy" }

  /** A value once it has been through field `k`: cut to the field, and normalised unless it is an id. */
  function Stored(k: string, v: string): string {
    if k == "id" then Cut(v, ID_SIZE) else NormalizeToken(Cut(v, SizeOf(k)), SizeOf(k), IsLowercased(k))
  }

  /** The value that printed fields give back for key `k`. */
  function Recovered(ps: seq<Pair>, k: string): string
    requires Source(ps, k) < |ps|
  {
    var v := Mangle(ps[Source(ps, k)].val);
    Stored(k, if IsRequestKey(k) && |v| >= PATH_SIZE then "" else v)
  }

  ghost predicate IsEntryFields(ps: seq<Pair>) {
    && PlainKeys(ps) && |ps| == 5
    && Source(ps, "kind") < |ps| && Source(ps, "subject") < |ps| && Source(ps, "method") < |ps|
      && Source(ps, "path") < |ps|
  }

  lemma SourceInRange(ps: seq<Pair>, j: nat)
    requires j < |ps|
    ensures Source(ps, ps[j].key) <= j
  {
  }

  lemma PolicyFields(p: PolicyEntry)
    ensures var ps := PolicyAsEntry(p).fields;
      && IsEntryFields(ps) && Source(ps, "policy") < |ps|
      && ps == [Pair("kind", p.request.kind), Pair("subject", p.request.subject), Pair("method", p.request.method_),
                Pair("path", p.request.path), Pair("policy", p.policy)]
  {
    var ps := PolicyAsEntry(p).fields;
    hide Source, Hit;
    forall j | 0 <= j < |ps| ensures Source(ps, ps[j].key) < |ps| { SourceInRange(ps, j); }
    assert ps[0].key == "kind" && ps[1].key == "subject" && ps[2].key == "method" && ps[3].key == "path"
      && ps[4].key == "policy";
  }

  lemma PendingFields(w: PendingEntry)
    ensures var ps := PendingAsEntry(w).fields;
      && IsEntryFields(ps) && Source(ps, "id") < |ps|
      && ps == [Pair("id", w.id), Pair("kind", w.request.kind), Pair("subject", w.request.subject),
                Pair("method", w.request.method_), Pair("path", w.request.path)]
  {
    var ps := PendingAsEntry(w).fields;
    hide Source, Hit;
    forall j | 0 <= j < |ps| ensures Source(ps, ps[j].key) < |ps| { SourceInRange(ps, j); }
    assert ps[0].key == "id" && ps[1].key == "kind" && ps[2].key == "subject" && ps[3].key == "method"
      && ps[4].key == "path";
  }

  function RecoveredRequest(ps: seq<Pair>): Request
    requires IsEntryFields(ps)
  {
    Request(Recovered(ps, "kind"), Recovered(ps, "subject"), Recovered(ps, "method"), Recovered(ps, "path"))
  }

  lemma ReadRequestField(ps: seq<Pair>, rest: string, k: string)
    requires PlainKeys(ps) && ps != [] && Delimited(rest) && IsRequestKey(k) && Source(ps, k) < |ps|
    ensures NormalizeToken(FieldOf("{" + FieldsThen(ps, rest), k, SizeOf(k)), SizeOf(k), IsLowercased(k))
      == Recovered(ps, k)
  {
    hide GetString, FieldsThen, Source, Mangle, Hit, NormalizeToken;
    assert PlainKey(k);
    GetField(ps, rest, k, PATH_SIZE, "");
  }

  lemma ReadEntryRequest(ps: seq<Pair>, rest: string)
    requires IsEntryFields(ps) && Delimited(rest)
    ensures ReadRequest("{" + FieldsThen(ps, rest)) == RecoveredRequest(ps)
  {
    hide GetString, FieldsThen, Source, Mangle, Hit, NormalizeToken, FieldOf, Recovered;
    ReadRequestField(ps, rest, "kind");
    ReadRequestField(ps, rest, "subject");
    ReadRequestField(ps, rest, "method");
    ReadRequestField(ps, rest, "path");
  }

  function RecoveredPolicy(p: PolicyEntry): PolicyEntry {
    PolicyFields(p);
    var ps := PolicyAsEntry(p).fields;
    PolicyEntry(RecoveredRequest(ps), Recovered(ps, "policy"))
  }

  lemma ReadPolicyBack(p: PolicyEntry, rest: string, stale: string)
    ensures ReadPolicy(EntryThen(PolicyAsEntry(p), rest), stale) == RecoveredPolicy(p)
  {
    PolicyFields(p);
    var ps := PolicyAsEntry(p).fields;
    hide GetString, FieldsThen, Source, Mangle, Hit, NormalizeToken, RecoveredRequest, ReadRequest;
    assert PlainKey("policy");
    ReadEntryRequest(ps, "}" + rest);
    GetField(ps, "}" + rest, "policy", POLICY_SIZE, stale);
  }

  /** The number behind the fields is found unless an earlier value is taken for its key. */
  function RecoveredNumber(ps: seq<Pair>, k: string, n: nat): nat {
    if FirstHit(ps, k) + 1 >= |ps| then n else 0
  }

  function RecoveredPending(w: PendingEntry): PendingEntry {
    PendingFields(w);
    var ps := PendingAsEntry(w).fields;
    PendingEntry(Recovered(ps, "id"), RecoveredRequest(ps), RecoveredNumber(ps, "created_at", w.createdAt))
  }

  lemma NumberArrived(n: nat, rest: string)
    ensures ReadDigits(TrimLeft(Decimal(n) + ("}" + rest)), 0) == n
  {
    var d := Decimal(n);
    assert (d + ("}" + rest))[0] == d[0];
    assert TrimLeft(d + ("}" + rest)) == d + ("}" + rest);
    DecimalScale(n, "}" + rest, 0);
  }

  lemma QuoteIsNoNumber(v: string, rest: string)
    ensures ReadDigits(TrimLeft(QuotedThen(v, rest)), 0) == 0
  {
    var t := QuotedThen(v, rest);
    assert t[0] == '"' && TrimLeft(t) == t;
  }

  lemma HitsItself(k: string)
    ensures Hit(k, k)
  {
  }

  /** Where the search for the number arrives: at the number, or at the value of a field behind a false hit. */
  ghost predicate LacksKey(ps: seq<Pair>, k: string) { forall i :: 0 <= i < |ps| ==> ps[i].key != k }

  lemma AfterValues(ps: seq<Pair>, rest: string, k: string)
    requires ps != [] && PlainKeys(ps) && PlainKey(k) && Delimited(rest) && LacksKey(ps, k)
    ensures After(FieldsThen(ps, rest), Needle(k)) ==
      if FirstHit(ps, k) == |ps| then After(rest, Needle(k)) else Some(FieldsFrom(ps, FirstHit(ps, k) + 1, rest))
  {
    hide FieldsThen, FieldsFrom, After, Hit, FirstHit, Needle, PlainKey, Delimited;
    AfterFields(ps, rest, k);
  }

  function NumberTail(ps: seq<Pair>, k: string, digits: string): string { ColonTarget(ps, FirstHit(ps, k), k, digits) }

  lemma NumberKeyFound(k: string, digits: string)
    requires PlainKey(k)
    ensures After("," + QuotedThen(k, ":" + digits), Needle(k)) == Some(":" + digits)
    ensures AfterChar(":" + digits, ':') == Some(digits)
  {
    hide After, AfterChar, Hit, QuotedThen, Needle;
    SkipText(",", QuotedThen(k, ":" + digits), k);
    AfterQuoted(k, ":" + digits, k);
    HitsItself(k);
    SkipTo("", digits, ':');
    assert "" + [':'] + digits == ":" + digits;
  }

  lemma NumberReached(ps: seq<Pair>, k: string, digits: string)
    requires PlainKeys(ps) && ps != [] && PlainKey(k) && LacksKey(ps, k)
    ensures var s := After(FieldsThen(ps, "," + QuotedThen(k, ":" + digits)), Needle(k));
      s.Some? && AfterChar(s.value, ':') == Some(NumberTail(ps, k, digits))
  {
    hide FieldsThen, FieldsFrom, After, AfterChar, Hit, QuotedThen, FirstHit, Needle, PlainKey, ColonTarget, LacksKey;
    hide Delimited, PlainKeys;
    var tail := "," + QuotedThen(k, ":" + digits);
    var i := FirstHit(ps, k);
    CommaDelimits(QuotedThen(k, ":" + digits));
    AfterValues(ps, tail, k);
    if i == |ps| { NumberKeyFound(k, digits); NoTarget(ps, k, digits); } else { ColonBehindHit(ps, i, k, digits); }
  }

  /** The value that the search for the colon arrives at behind a false hit in field `i`. */
  function ColonTarget(ps: seq<Pair>, i: nat, k: string, digits: string): string {
    if i + 1 >= |ps| then digits
    else QuotedThen(ps[i + 1].val, FieldsFrom(ps, i + 2, "," + QuotedThen(k, ":" + digits)))
  }

  lemma NoTarget(ps: seq<Pair>, k: string, digits: string)
    ensures ColonTarget(ps, |ps|, k, digits) == digits
  {
  }

  lemma ColonBehindHit(ps: seq<Pair>, i: nat, k: string, digits: string)
    requires i < |ps| && PlainKeys(ps) && PlainKey(k)
    ensures AfterChar(FieldsFrom(ps, i + 1, "," + QuotedThen(k, ":" + digits)), ':')
      == Some(ColonTarget(ps, i, k, digits))
  {
    hide FieldsFrom, AfterChar, QuotedThen, PlainKey;
    var tail := "," + QuotedThen(k, ":" + digits);
    if i + 1 == |ps| {
      LastField(ps, tail);
      ColonAfterKey(",", k, digits);
    } else {
      FieldsFromStep(ps, i + 1, tail);
      ColonAfterKey(",", ps[i + 1].key, QuotedThen(ps[i + 1].val, FieldsFrom(ps, i + 2, tail)));
    }
  }

  lemma CommaDelimits(s: string)
    ensures Delimited("," + s)
  {
  }

  lemma NumberText(k: string, n: nat, rest: string)
    ensures NumberThen(Some((k, n)), rest) == "," + QuotedThen(k, ":" + (Decimal(n) + rest))
  {
    hide QuotedThen, Decimal;
    assert ":" + Decimal(n) + rest == ":" + (Decimal(n) + rest);
  }

  lemma NumberTailRead(ps: seq<Pair>, k: string, digits: string)
    ensures ReadDigits(TrimLeft(NumberTail(ps, k, digits)), 0)
      == RecoveredNumber(ps, k, ReadDigits(TrimLeft(digits), 0))
  {
    hide QuotedThen, FieldsFrom, FirstHit, ReadDigits, TrimLeft;
    var i := FirstHit(ps, k);
    if i + 1 < |ps| { QuoteIsNoNumber(ps[i + 1].val, FieldsFrom(ps, i + 2, "," + QuotedThen(k, ":" + digits))); }
  }

  lemma NumberFound(ps: seq<Pair>, k: string, digits: string)
    requires PlainKeys(ps) && ps != [] && PlainKey(k) && LacksKey(ps, k)
    ensures GetNumber("{" + FieldsThen(ps, "," + QuotedThen(k, ":" + digits)), k) ==
            RecoveredNumber(ps, k, ReadDigits(TrimLeft(digits), 0))
  {
    hide FieldsThen, QuotedThen, After, AfterChar, Needle, ReadDigits, TrimLeft, GetNumber, NumberTail;
    hide RecoveredNumber, PlainKey;
    var fields := FieldsThen(ps, "," + QuotedThen(k, ":" + digits));
    SkipText("{", fields, k);
    NumberReached(ps, k, digits);
    NumberAt("{" + fields, k, NumberTail(ps, k, digits));
    NumberTailRead(ps, k, digits);
  }

  lemma NumberAt(obj: string, k: string, t: string)
    requires After(obj, Needle(k)).Some? && AfterChar(After(obj, Needle(k)).value, ':') == Some(t)
    ensures GetNumber(obj, k) == ReadDigits(TrimLeft(t), 0)
  {
    hide After, AfterChar, ReadDigits, TrimLeft, Needle;
  }

  lemma ReadNumberBack(ps: seq<Pair>, k: string, n: nat, rest: string)
    requires PlainKeys(ps) && ps != [] && PlainKey(k) && LacksKey(ps, k)
    ensures GetNumber("{" + FieldsThen(ps, NumberThen(Some((k, n)), "}" + rest)), k) == RecoveredNumber(ps, k, n)
  {
    NumberText(k, n, "}" + rest);
    NumberArrived(n, rest);
    NumberFound(ps, k, Decimal(n) + ("}" + rest));
  }

  lemma LastField(ps: seq<Pair>, tail: string)
    ensures FieldsFrom(ps, |ps|, tail) == tail
  {
  }

  lemma ReadPendingBack(w: PendingEntry, rest: string, stale: string)
    ensures ReadPending(EntryThen(PendingAsEntry(w), rest), stale) == RecoveredPending(w)
  {
    PendingFields(w);
    var ps := PendingAsEntry(w).fields;
    var tail := NumberThen(Some(("created_at", w.createdAt)), "}" + rest);
    hide GetString, GetNumber, FieldsThen, Source, Mangle, Hit, NormalizeToken, RecoveredRequest, ReadRequest;
    hide RecoveredNumber, QuotedThen;
    assert PlainKey("id") && PlainKey("created_at") && Delimited(tail);
    ReadEntryRequest(ps, tail);
    GetField(ps, tail, "id", ID_SIZE, stale);
    ReadNumberBack(ps, "created_at", w.createdAt, rest);
  }

  // ---------- whole lists ----------

  function Survivors(ps: seq<PolicyEntry>): seq<PolicyEntry> {
    if ps == [] then []
    else (if KeepsPolicy(RecoveredPolicy(ps[0])) then [RecoveredPolicy(ps[0])] else []) + Survivors(ps[1..])
  }

  /** The inside of a printed array. */
  function Inside(es: seq<Entry>, first: bool): string { ListThen(es, first, "\n  ") }

  /** A list starts with its first object, and behind that stands the list of the others. */
  lemma StepOfList(es: seq<Entry>, first: bool, more: string)
    requires es != []
    ensures var s, behind := Inside(es, first) + more, Inside(es[1..], false) + more;
      && s[..|Inside(es, first)|] == Inside(es, first)
      && NextObject(Inside(es, first), 0).Some?
      && var (at, len) := NextObject(Inside(es, first), 0).value;
         && s[at..] == EntryThen(es[0], behind) && s[at + len..] == behind
         && |Inside(es, first)| - at - len == |Inside(es[1..], false)|
  {
    var sep, tail := if first then "\n    " else ",\n    ", Inside(es[1..], false);
    var head := EntryThen(es[0], "");
    NextOfList(es, first);
    EntryAppend(es[0], "", tail);
    EntryAppend(es[0], "", tail + more);
    assert "" + tail == tail && "" + (tail + more) == tail + more;
    assert Inside(es, first) == sep + (head + tail);
    hide EntryThen, NextObject, Inside;
    Slices(sep, head, tail, more);
  }

  lemma Slices(sep: string, head: string, tail: string, more: string)
    ensures var i := sep + (head + tail);
      (i + more)[..|i|] == i && (i + more)[|sep|..] == head + (tail + more)
        && (i + more)[|sep| + |head|..] == tail + more
  {
    var i := sep + (head + tail);
    assert i + more == sep + (head + (tail + more));
  }

  lemma ReadPolicyStep(s: string, room: nat, free: nat, stale: string, at: nat, len: nat)
    requires room <= |s| && room > 0 && free > 0 && NextObject(s[..room], 0) == Some((at, len))
    ensures ReadPolicies(s, room, free, stale) ==
      var p := ReadPolicy(s[at..], stale);
      if KeepsPolicy(p) then [p] + ReadPolicies(s[at + len..], room - at - len, free - 1, "")
      else ReadPolicies(s[at + len..], room - at - len, free, p.policy)
  {
    hide NextObject, ReadPolicy, KeepsPolicy;
  }

  lemma PolicyEntriesStep(ps: seq<PolicyEntry>)
    ensures |PolicyEntries(ps)| == |ps|
    ensures ps != [] ==>
      PolicyEntries(ps)[0] == PolicyAsEntry(ps[0]) && PolicyEntries(ps)[1..] == PolicyEntries(ps[1..])
  {
    hide PolicyAsEntry;
  }

  lemma ReadPoliciesEmpty(first: bool, more: string, free: nat, stale: string)
    ensures ReadPolicies(Inside([], first) + more, |Inside([], first)|, free, stale) == []
  {
    NextOfList([], first);
    assert (Inside([], first) + more)[..|Inside([], first)|] == Inside([], first);
  }

  lemma {:induction false} ReadPoliciesBack(ps: seq<PolicyEntry>, first: bool, more: string, free: nat, stale: string)
    requires |ps| <= free
    ensures var inside := Inside(PolicyEntries(ps), first);
      ReadPolicies(inside + more, |inside|, free, stale) == Survivors(ps)
  {
    hide Inside, EntryThen, ListThen, ReadPolicy, ReadPolicies, NextObject, RecoveredPolicy, KeepsPolicy;
    hide PolicyEntries, PolicyAsEntry;
    var es := PolicyEntries(ps);
    var inside := Inside(es, first);
    PolicyEntriesStep(ps);
    if ps == [] {
      ReadPoliciesEmpty(first, more, free, stale);
    } else {
      StepOfList(es, first, more);
      var (at, len) := NextObject(inside, 0).value;
      ReadPolicyStep(inside + more, |inside|, free, stale, at, len);
      ReadPolicyBack(ps[0], Inside(es[1..], false) + more, stale);
      if KeepsPolicy(RecoveredPolicy(ps[0])) {
        ReadPoliciesBack(ps[1..], false, more, free - 1, "");
      } else {
        ReadPoliciesBack(ps[1..], false, more, free, RecoveredPolicy(ps[0]).policy);
      }
    }
  }

  function SurvivingPending(ws: seq<PendingEntry>): seq<PendingEntry> {
    if ws == [] then []
    else (if KeepsPending(RecoveredPending(ws[0])) then [RecoveredPending(ws[0])] else []) + SurvivingPending(ws[1..])
  }

  lemma ReadPendingStep(s: string, room: nat, free: nat, stale: string, at: nat, len: nat)
    requires room <= |s| && room > 0 && free > 0 && NextObject(s[..room], 0) == Some((at, len))
    ensures ReadPendings(s, room, free, stale) ==
      var w := ReadPending(s[at..], stale);
      if KeepsPending(w) then [w] + ReadPendings(s[at + len..], room - at - len, free - 1, "")
      else ReadPendings(s[at + len..], room - at - len, free, w.id)
  {
    hide NextObject, ReadPending, KeepsPending;
  }

  lemma PendingEntriesStep(ws: seq<PendingEntry>)
    ensures |PendingEntries(ws)| == |ws|
    ensures ws != [] ==>
      PendingEntries(ws)[0] == PendingAsEntry(ws[0]) && PendingEntries(ws)[1..] == PendingEntries(ws[1..])
  {
    hide PendingAsEntry;
  }

  lemma ReadPendingsEmpty(first: bool, more: string, free: nat, stale: string)
    ensures ReadPendings(Inside([], first) + more, |Inside([], first)|, free, stale) == []
  {
    NextOfList([], first);
    assert (Inside([], first) + more)[..|Inside([], first)|] == Inside([], first);
  }

  lemma {:induction false} ReadPendingsBack(ws: seq<PendingEntry>, first: bool, more: string, free: nat, stale: string)
    requires |ws| <= free
    ensures var inside := Inside(PendingEntries(ws), first);
      ReadPendings(inside + more, |inside|, free, stale) == SurvivingPending(ws)
  {
    hide Inside, EntryThen, ListThen, ReadPending, ReadPendings, NextObject, RecoveredPending, KeepsPending;
    hide PendingEntries, PendingAsEntry;
    var es := PendingEntries(ws);
    var inside := Inside(es, first);
    PendingEntriesStep(ws);
    if ws == [] {
      ReadPendingsEmpty(first, more, free, stale);
    } else {
      StepOfList(es, first, more);
      var (at, len) := NextObject(inside, 0).value;
      ReadPendingStep(inside + more, |inside|, free, stale, at, len);
      ReadPendingBack(ws[0], Inside(es[1..], false) + more, stale);
      if KeepsPending(RecoveredPending(ws[0])) {
        ReadPendingsBack(ws[1..], false, more, free - 1, "");
      } else {
        ReadPendingsBack(ws[1..], false, more, free, RecoveredPending(ws[0]).id);
      }
    }
  }

  // ---------- finding the arrays ----------

  lemma SkipText(t: string, s: string, k: string)
    requires forall i :: 0 <= i < |t| ==> t[i] != '"'
    ensures After(t + s, Needle(k)) == After(s, Needle(k))
  {
    AfterSteps(t, s, k);
  }

  lemma SkipQuoted(v: string, t: string, s: string, k: string)
    requires PlainKey(k) && !Hit(v, k) && t != "" && Delimited(t) && forall i :: 0 <= i < |t| ==> t[i] != '"'
    ensures After(QuotedThen(v, t + s), Needle(k)) == After(s, Needle(k))
  {
    hide Hit, After, QuotedThen, Needle;
    AfterQuoted(v, t + s, k);
    SkipText(t, s, k);
  }

  lemma AgentIdHitsNothing(id: string, k: string)
    requires IsValidAgentId(id) && PlainKey(k)
    ensures !Hit(id, k)
  {
    assert id[..4][3] == '-' && id[..4][3] == id[3];
    if |id| > |k| {
      var ending := id[|id| - (|k| + 1)..];
      assert ending[0] == id[|id| - (|k| + 1)];
      assert forall i :: 0 <= i < 4 ==> id[i] == "agt-"[i];
    }
  }

  lemma KeysArePlain()
    ensures PlainKey("version") && PlainKey("agent_id") && PlainKey("policies") && PlainKey("pending")
  {
  }

  /** What a search for an array's name has behind the header. */
  lemma HeaderSkipped(m: Manifest, k: string)
    requires IsValidAgentId(m.agentId) && PlainKey(k) && k != "version" && k != "agent_id"
    ensures After(Print(m), Needle(k)) == After(AfterHeader(m), Needle(k))
  {
    hide After, QuotedThen, Hit, AfterHeader, IsValidAgentId, Needle, PlainKey;
    KeysArePlain();
    KeyHits("version", k);
    KeyHits("agent_id", k);
    AgentIdHitsNothing(m.agentId, k);
    var owner := QuotedThen(m.agentId, ",\n  " + AfterHeader(m));
    var second := QuotedThen("agent_id", ": " + owner);
    SkipText("{\n  ", QuotedThen("version", ": 1,\n  " + second), k);
    SkipQuoted("version", ": 1,\n  ", second, k);
    SkipQuoted("agent_id", ": ", owner, k);
    SkipQuoted(m.agentId, ",\n  ", AfterHeader(m), k);
  }

  /** From the colon behind an array's name, the array is found and measured. */
  lemma ArrayMeasured(es: seq<Entry>, behind: string)
    ensures var inside := Inside(es, true);
      var p := "[" + (inside + ("]" + behind));
      && FromChar(": " + p, '[') == Some(p)
      && ScanClose(p, '[', ']', 0, false, false) == Some(|behind| + 1)
  {
    var inside := Inside(es, true);
    var closing := "]" + behind;
    var p := "[" + (inside + closing);
    BracketAfterColon(inside + closing);
    ListAppend(es, true, "\n  ", closing);
    hide ListThen;
    assert p[0] == '[' && p[1..] == inside + closing;
    ScanList(es, true, "\n  " + closing, 1);
    ScanPlain("\n  ", closing, '[', ']', 1);
    assert closing[0] == ']';
    assert ScanClose(closing, '[', ']', 1, false, false) == Some(|closing|);
    assert ScanClose(p, '[', ']', 0, false, false) == ScanClose(inside + closing, '[', ']', 1, false, false);
  }

  lemma BracketAfterColon(q: string)
    ensures FromChar(": " + ("[" + q), '[') == Some("[" + q)
  {
    var s := ": " + ("[" + q);
    assert s[0] == ':' && s[1..][0] == ' ' && s[1..][1..] == "[" + q;
    assert FromChar(s[1..], '[') == FromChar(s[1..][1..], '[');
  }

  lemma FoundArray(json: string, name: string, es: seq<Entry>, behind: string)
    requires After(json, Needle(name)) == Some(": [" + (Inside(es, true) + ("]" + behind)))
    ensures FindArray(json, name) == Some((Inside(es, true) + ("]" + behind), |Inside(es, true)|))
  {
    var q := Inside(es, true) + ("]" + behind);
    hide After, Needle, Inside, FromChar, ScanClose;
    ArrayMeasured(es, behind);
    assert ": [" + q == ": " + ("[" + q);
    assert ("[" + q)[1..] == q;
  }

  /** An array found right where the search starts. */
  lemma NameThenArray(json: string, name: string, es: seq<Entry>, behind: string)
    requires PlainKey(name)
    requires After(json, Needle(name))
      == After(QuotedThen(name, ": [" + (Inside(es, true) + ("]" + behind))), Needle(name))
    ensures FindArray(json, name) == Some((Inside(es, true) + ("]" + behind), |Inside(es, true)|))
  {
    hide After, Hit, QuotedThen, Inside, FindArray, Needle;
    HitsItself(name);
    AfterQuoted(name, ": [" + (Inside(es, true) + ("]" + behind)), name);
    FoundArray(json, name, es, behind);
  }

  lemma HeaderText(m: Manifest)
    ensures AfterHeader(m)
      == QuotedThen("policies", ": [" + (Inside(PolicyEntries(m.policies), true) + ("]" + AfterPolicies(m))))
  {
    hide QuotedThen, AfterPolicies, PolicyEntries;
    ListAppend(PolicyEntries(m.policies), true, "\n  ", "]" + AfterPolicies(m));
    assert "\n  " + ("]" + AfterPolicies(m)) == "\n  ]" + AfterPolicies(m);
  }

  lemma PoliciesFound(m: Manifest)
    requires IsValidAgentId(m.agentId)
    ensures FindArray(Print(m), "policies") ==
      var inside := Inside(PolicyEntries(m.policies), true);
      Some((inside + ("]" + AfterPolicies(m)), |inside|))
  {
    KeysArePlain();
    HeaderSkipped(m, "policies");
    HeaderText(m);
    hide PlainKey, After, QuotedThen, Inside, AfterPolicies, PolicyEntries, FindArray, Needle, Print, AfterHeader;
    NameThenArray(Print(m), "policies", PolicyEntries(m.policies), AfterPolicies(m));
  }

  /** The policies that come back are the recovered entries that are still well formed, in order. */
  lemma PoliciesReloaded(m: Manifest)
    requires IsValidAgentId(m.agentId) && |m.policies| <= MAX_POLICIES
    ensures LoadPolicies(Print(m)) == Survivors(m.policies)
  {
    hide Inside, Print, FindArray, ReadPolicies, AfterPolicies;
    PoliciesFound(m);
    ReadPoliciesBack(m.policies, true, "]" + AfterPolicies(m), MAX_POLICIES, "");
  }
}
