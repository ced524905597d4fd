/** Short runs of grants in which the waiting list stays empty.  Their first rule is a shield: its subject is taken for
    the name of the waiting list and its method holds an empty pair of brackets, so that whatever the later rules hold,
    the array read as the waiting list is that pair. */
module ShieldedRuns {
  import opened Wrappers
  import opened CText
  import opened AccessRules
  import opened ManifestText
  import opened ManifestRoundTrip
  import opened ManifestReload
  import opened ManifestPending
  import opened ManifestTheorems
  import opened AccessRuns
  import opened GrantRuns
  import opened FirmRequests

  // ---------- the text of a few rules fits the file ----------

  lemma {:induction false} EscapedLength(v: string, rest: string)
    ensures |EscThen(v, rest)| <= 6 * |v| + |rest|
  {
    if v != "" {
      EscapedLength(v[1..], rest);
      assert |EscChar(v[0])| <= 6;
    }
  }

  /** A value short enough for any field. */
  ghost predicate Short(v: string) { |v| < PATH_SIZE }

  lemma {:induction false} FieldsLength(fs: seq<Pair>, rest: string)
    requires forall i :: 0 <= i < |fs| ==> |fs[i].key| <= 16 && Short(fs[i].val)
    ensures |FieldsThen(fs, rest)| <= 3200 * |fs| + |rest|
  {
    if fs != [] {
      var tail := if |fs| == 1 then rest else "," + FieldsThen(fs[1..], rest);
      FieldsLength(fs[1..], rest);
      EscapedLength(fs[0].val, "\"" + tail);
      EscapedLength(fs[0].key, "\"" + (":" + QuotedThen(fs[0].val, tail)));
      hide EscThen, FieldsThen;
    }
  }

  ghost predicate ShortRequest(r: Request) { Short(r.kind) && Short(r.subject) && Short(r.method_) && Short(r.path) }

  ghost predicate ShortPolicy(p: PolicyEntry) { ShortRequest(p.request) && IsPolicyValue(p.policy) }

  lemma PolicyLength(p: PolicyEntry, rest: string)
    requires ShortPolicy(p)
    ensures |EntryThen(PolicyAsEntry(p), rest)| <= 16010 + |rest|
  {
    PolicyFields(p);
    PolicyShape(p);
    PolicyValueLetters(p.policy);
    hide FieldsThen, PolicyAsEntry, IsPolicyValue, IsEntryFields;
    var fs := PolicyAsEntry(p).fields;
    assert forall i :: 0 <= i < 5 ==> |fs[i].key| <= 16 && Short(fs[i].val);
    FieldsLength(fs, "}" + rest);
  }

  lemma {:induction false} PoliciesLength(ps: seq<PolicyEntry>, first: bool, rest: string)
    requires forall i :: 0 <= i < |ps| ==> ShortPolicy(ps[i])
    ensures |ListThen(PolicyEntries(ps), first, rest)| <= 16020 * |ps| + |rest|
  {
    hide EntryThen, PolicyEntries, PolicyAsEntry, ShortPolicy;
    PolicyEntriesStep(ps);
    if ps != [] {
      var tail := ListThen(PolicyEntries(ps[1..]), false, rest);
      PoliciesLength(ps[1..], false, rest);
      PolicyLength(ps[0], tail);
    }
  }

  lemma PrintedLength(m: Manifest)
    requires IsValidAgentId(m.agentId) && |m.policies| + |m.pending| <= 3 && |m.pending| <= 1
    requires forall i :: 0 <= i < |m.policies| ==> ShortPolicy(m.policies[i])
    requires forall i :: 0 <= i < |m.pending| ==> FreshPending(m.pending[i])
    ensures |Print(m)| < JSON_CAPACITY
  {
    hide ListThen, PolicyEntries, EscThen, ShortPolicy, IsValidAgentId, FreshPending, AfterPolicies;
    PoliciesLength(m.policies, true, "\n  ]" + AfterPolicies(m));
    PendingTextLength(m);
    HeaderLength(m);
    OwnerLength(m);
  }

  lemma OwnerLength(m: Manifest)
    requires IsValidAgentId(m.agentId)
    ensures |Print(m)| <= 1000 + |AfterHeader(m)|
  {
    hide AfterHeader, EscThen;
    var owner := QuotedThen(m.agentId, ",\n  " + AfterHeader(m));
    EscapedLength(m.agentId, "\"" + (",\n  " + AfterHeader(m)));
    EscapedLength("agent_id", "\"" + (": " + owner));
    EscapedLength("version", "\"" + (": 1,\n  " + QuotedThen("agent_id", ": " + owner)));
  }

  lemma HeaderLength(m: Manifest)
    ensures |AfterHeader(m)| <= 100 + |ListThen(PolicyEntries(m.policies), true, "\n  ]" + AfterPolicies(m))|
  {
    hide ListThen, PolicyEntries, EscThen, AfterPolicies;
    var rest := ListThen(PolicyEntries(m.policies), true, "\n  ]" + AfterPolicies(m));
    EscapedLength("policies", "\"" + (": [" + rest));
  }

  lemma PendingTextLength(m: Manifest)
    requires |m.pending| <= 1 && forall i :: 0 <= i < |m.pending| ==> FreshPending(m.pending[i])
    ensures |AfterPolicies(m)| <= 16200 * |m.pending| + 100
  {
    hide EscThen, EntryThen, FreshPending, PendingAsEntry;
    var rest := "\n  ]\n}\n";
    EscapedLength("pending", "\"" + (": [" + ListThen(PendingEntries(m.pending), true, rest)));
    if m.pending == [] {
      assert PendingEntries(m.pending) == [];
    } else {
      assert PendingEntries(m.pending) == [PendingAsEntry(m.pending[0])];
      PendingLength(m.pending[0], rest);
      assert PendingEntries(m.pending)[1..] == [] && ListThen([], false, rest) == rest;
    }
  }

  /** As a request is put on the waiting list at time 0. */
  ghost predicate FreshPending(w: PendingEntry) {
    ShortRequest(w.request) && w.id == RequestId(w.request) && w.createdAt == 0
  }

  lemma PendingLength(w: PendingEntry, rest: string)
    requires FreshPending(w)
    ensures |EntryThen(PendingAsEntry(w), rest)| <= 16150 + |rest|
  {
    PendingFields(w);
    RequestIdHarmless(w.request);
    hide FieldsThen, PendingAsEntry, IsEntryFields, RequestId, EscThen;
    var fs := PendingAsEntry(w).fields;
    assert forall i :: 0 <= i < 5 ==> |fs[i].key| <= 16 && Short(fs[i].val);
    CreatedAtZero(w, "}" + rest);
    FieldsLength(fs, NumberThen(PendingAsEntry(w).number, "}" + rest));
  }

  lemma CreatedAtZero(w: PendingEntry, rest: string)
    requires w.createdAt == 0
    ensures |NumberThen(PendingAsEntry(w).number, rest)| <= 100 + |rest|
  {
    hide EscThen;
    assert |Decimal(0)| == 1;
    EscapedLength("created_at", "\"" + (":" + Decimal(0) + rest));
  }

  // ---------- the shield ----------

  const TAKEN_FOR_PENDING := "\"pending"
  const EMPTY_BRACKETS := "[]"

  function Shield(c: char): PolicyEntry {
    PolicyEntry(Request([c], TAKEN_FOR_PENDING, EMPTY_BRACKETS, ""), "ask")
  }

  predicate ShieldKind(c: char) { c == 'a' || c == 'b' }

  lemma ShieldValues()
    ensures |TAKEN_FOR_PENDING| == 8 && TAKEN_FOR_PENDING[0] == '"' && TAKEN_FOR_PENDING[7] == 'g'
    ensures NoControl(TAKEN_FOR_PENDING) && NoControl(EMPTY_BRACKETS) && |EMPTY_BRACKETS| == 2
    ensures Lower(TAKEN_FOR_PENDING) == TAKEN_FOR_PENDING && Trimmed(EMPTY_BRACKETS)
  {
  }

  lemma ShieldIsNormal(c: char)
    requires ShieldKind(c)
    ensures NormalRequest(Shield(c).request) && ShortRequest(Shield(c).request)
  {
    ShieldValues();
    assert Lower([c]) == [c] && Lower("") == "";
    hide Trim, TAKEN_FOR_PENDING, EMPTY_BRACKETS;
    NormalizedIff([c], KIND_SIZE, true);
    NormalizedIff(TAKEN_FOR_PENDING, SUBJECT_SIZE, true);
    NormalizedIff(EMPTY_BRACKETS, METHOD_SIZE, false);
    NormalizedIff("", PATH_SIZE, false);
    hide NormalizeToken;
  }

  lemma ShieldIsFirm(c: char)
    requires ShieldKind(c)
    ensures Firm(Shield(c).request)
  {
    ShieldValues();
    ShieldIsNormal(c);
    ShieldInPlace(c);
    hide TAKEN_FOR_PENDING, EMPTY_BRACKETS, NormalRequest, Firm, KeysInPlace;
    FirmIff(Shield(c).request);
  }

  lemma ShieldInPlace(c: char)
    ensures KeysInPlace(Shield(c).request)
  {
    ShieldValues();
    KeyEnds();
    hide TAKEN_FOR_PENDING, EMPTY_BRACKETS, Hit;
    TooShort([c], EMPTY_BRACKETS, "method", "path", "policy");
    OtherEnd(TAKEN_FOR_PENDING, "path", "policy");
  }

  lemma TooShort(v: string, w: string, j: string, k: string, l: string)
    requires |v| == 1 && |w| == 2 && |j| == 6 && |k| == 4 && |l| == 6
    ensures !Hit(v, j) && !Hit(v, k) && !Hit(v, l) && !Hit(w, l)
  {
    hide Hit;
    ShorterIsNoKey(v, j);
    ShorterIsNoKey(v, k);
    ShorterIsNoKey(v, l);
    ShorterIsNoKey(w, l);
  }

  lemma OtherEnd(v: string, k: string, l: string)
    requires |v| == 8 && v[7] == 'g' && |k| == 4 && k[3] == 'h' && |l| == 6 && l[5] == 'y'
    ensures !Hit(v, k) && !Hit(v, l)
  {
    hide Hit;
    OtherEndIsNoKey(v, k);
    OtherEndIsNoKey(v, l);
  }

  lemma ShieldReloads(c: char)
    requires ShieldKind(c)
    ensures RecoveredPolicy(Shield(c)) == Shield(c) && KeepsPolicy(Shield(c)) && ShortPolicy(Shield(c))
  {
    ShieldIsFirm(c);
    ShieldIsNormal(c);
    AskIsPolicy();
    FirmIsNamed(Shield(c).request);
    hide RecoveredPolicy, Firm, IsPolicyValue, ShortRequest;
    OwnRuleReloads(Shield(c), Shield(c).request);
  }

  /** Of the first two values of a shield the second is taken for the name of the waiting list. */
  lemma ShieldIsTaken(c: char)
    ensures !Hit([c], "pending") && Hit(TAKEN_FOR_PENDING, "pending")
  {
    KeyEnds();
    ShorterIsNoKey([c], "pending");
    assert TAKEN_FOR_PENDING == "\"" + "pending";
    assert TAKEN_FOR_PENDING[0..] == TAKEN_FOR_PENDING;
  }

  /** The fields behind the subject, as they are printed. */
  function MethodThen(y: string): string { "," + QuotedThen("method", ":" + QuotedThen(EMPTY_BRACKETS, y)) }

  lemma BehindSubject(c: char, rest: string)
    requires Delimited(rest)
    ensures exists y ::
      After(FieldsThen(PolicyAsEntry(Shield(c)).fields, rest), Needle("pending")) == Some(MethodThen(y))
  {
    var fs := PolicyAsEntry(Shield(c)).fields;
    PolicyFields(Shield(c));
    PolicyShape(Shield(c));
    KeysArePlain();
    ShieldIsTaken(c);
    hide After, Hit, Needle, PlainKey, QuotedThen, PolicyAsEntry, Delimited, TAKEN_FOR_PENDING, EMPTY_BRACKETS;
    hide FieldsThen, IsEntryFields, Source;
    FirstAt(fs, "pending", 1);
    AfterFields(fs, rest, "pending");
    FieldsBehind(fs[2..], rest);
    var y :| FieldsThen(fs[2..], rest) == QuotedThen("method", ":" + QuotedThen(EMPTY_BRACKETS, y));
    assert FieldsFrom(fs, 2, rest) == MethodThen(y);
  }

  lemma FieldsBehind(more: seq<Pair>, rest: string)
    requires |more| == 3 && more[0] == Pair("method", EMPTY_BRACKETS)
    ensures exists y :: FieldsThen(more, rest) == QuotedThen("method", ":" + QuotedThen(EMPTY_BRACKETS, y))
  {
    hide QuotedThen, EMPTY_BRACKETS;
    var y := "," + FieldsThen(more[1..], rest);
    assert FieldsThen(more, rest) == QuotedThen("method", ":" + QuotedThen(EMPTY_BRACKETS, y));
  }

  /** The array that is read as the waiting list: the brackets of the shield. */
  lemma BracketsFound(y: string)
    ensures FromChar(MethodThen(y), '[') == Some("[]" + ("\"" + y))
    ensures ScanClose("[]" + ("\"" + y), '[', ']', 0, false, false) == Some(|y| + 2)
  {
    hide FromChar, QuotedThen, EMPTY_BRACKETS, ScanClose;
    BracketsQuoted(y);
    FirstBracket("\"" + y);
    BracketsClosed("\"" + y);
    BracketSkipped("\"", "[]" + ("\"" + y));
    MethodNoBracket();
    BracketBehindMethod("method", QuotedThen(EMPTY_BRACKETS, y));
  }

  lemma MethodNoBracket()
    ensures forall i :: 0 <= i < |"method"| ==> "method"[i] != '['
  {
  }

  lemma BracketBehindMethod(k: string, inner: string)
    requires forall i :: 0 <= i < |k| ==> k[i] != '['
    ensures FromChar("," + QuotedThen(k, ":" + inner), '[') == FromChar(inner, '[')
  {
    hide FromChar, QuotedThen;
    BracketSkipped(",", QuotedThen(k, ":" + inner));
    BracketBehindQuoted(k, ":" + inner);
    BracketSkipped(":", inner);
  }

  lemma BracketsClosed(z: string)
    ensures ScanClose("[]" + z, '[', ']', 0, false, false) == Some(|z| + 1)
  {
    var p := "[]" + z;
    assert p[0] == '[' && p[1] == ']' && (p[1..])[0] == ']';
    assert ScanClose(p[1..], '[', ']', 1, false, false) == Some(|p| - 1);
  }

  lemma BracketsQuoted(y: string)
    ensures QuotedThen(EMPTY_BRACKETS, y) == "\"" + ("[]" + ("\"" + y))
  {
    var z := "\"" + y;
    assert EMPTY_BRACKETS[1..] == "]" && "]"[1..] == "";
    assert EscThen("]", z) == "]" + z;
    assert EscThen(EMPTY_BRACKETS, z) == "[" + ("]" + z);
    assert "[" + ("]" + z) == "[]" + z;
  }

  lemma FirstBracket(z: string)
    ensures FromChar("[]" + z, '[') == Some("[]" + z)
  {
  }

  /** Behind a shield nothing waits. */
  lemma ShieldHides(m: Manifest, c: char)
    requires IsValidAgentId(m.agentId) && ShieldKind(c) && m.policies != [] && m.policies[0] == Shield(c)
    ensures LoadPending(Print(m)) == []
  {
    hide After, Needle, QuotedThen, Print, PolicyEntries, ListThen, FromChar, ScanClose, AfterPolicies, AfterHeader;
    hide PlainKey, IsValidAgentId, IsRequestKey, Hit, FieldsThen, Shield, PolicyAsEntry, MethodThen;
    var ps, rest := m.policies, "\n  ]" + AfterPolicies(m);
    var tail := ListThen(PolicyEntries(ps[1..]), false, rest);
    KeysArePlain();
    OnlyRequestKeys();
    HeaderSkipped(m, "pending");
    HeaderIs(m);
    KeyHits("policies", "pending");
    SkipQuoted("policies", ": [", ListThen(PolicyEntries(ps), true, rest), "pending");
    ShieldFirst(ps, rest);
    PolicyShape(Shield(c));
    AfterSteps("\n    {", FieldsThen(PolicyAsEntry(Shield(c)).fields, "}" + tail), "pending");
    BehindSubject(c, "}" + tail);
    var y :| After(FieldsThen(PolicyAsEntry(Shield(c)).fields, "}" + tail), Needle("pending")) == Some(MethodThen(y));
    BracketsFound(y);
    assert FindArray(Print(m), "pending") == Some((("[]" + ("\"" + y))[1..], 0));
    NothingRead(("[]" + ("\"" + y))[1..]);
  }

  lemma ShieldFirst(ps: seq<PolicyEntry>, rest: string)
    requires ps != []
    ensures ListThen(PolicyEntries(ps), true, rest) ==
      "\n    {" + FieldsThen(PolicyAsEntry(ps[0]).fields, "}" + ListThen(PolicyEntries(ps[1..]), false, rest))
  {
    hide FieldsThen, PolicyEntries, PolicyAsEntry;
    PolicyEntriesStep(ps);
    PolicyShape(ps[0]);
  }

  lemma NothingRead(s: string)
    ensures ReadPendings(s, 0, MAX_PENDING, "") == []
  {
  }

  // ---------- grants behind a shield ----------

  lemma NormalizedIsShort(x: Request)
    ensures ShortRequest(NormalizeRequest(x))
  {
    hide Trim;
  }

  lemma RecoveredIsShort(p: PolicyEntry)
    ensures ShortRequest(RecoveredPolicy(p).request)
  {
    hide Stored, Source, Mangle;
    PolicyFields(p);
    var fs := PolicyAsEntry(p).fields;
    forall k, v ensures Short(Stored(k, v)) { StoredFits(k, v); }
  }

  lemma PolicyValueIsNormal(p: string)
    requires IsPolicyValue(p)
    ensures NormalizeToken(p, POLICY_SIZE, true) == p
  {
    PolicyValueLetters(p);
    TrimTrims(p);
    hide Trim;
    assert Lower(p) == p;
  }

  /** What is loaded from the file after some operations, and the last grant for `q` in them. */
  ghost predicate Reached(agentId: string, ops: seq<Op>, ps: seq<PolicyEntry>, q: Request, latest: Option<string>) {
    && Load(agentId, RunFile(agentId, "", ops, |ops|)) == Some(Manifest(agentId, ps, []))
    && LatestGrantOnFile(agentId, ops, |ops|, q) == latest
  }

  lemma {:induction false} PrefixRun(agentId: string, ops: seq<Op>, op: Op, k: nat, q: Request)
    requires k <= |ops|
    ensures RunFile(agentId, "", ops + [op], k) == RunFile(agentId, "", ops, k)
    ensures LatestGrantOnFile(agentId, ops + [op], k, q) == LatestGrantOnFile(agentId, ops, k, q)
  {
    hide StepFile, NormalizeRequest, NormalizeToken;
    if k > 0 { PrefixRun(agentId, ops, op, k - 1, q); }
  }

  /** The rules after a grant. */
  function Set(ps: seq<PolicyEntry>, r: Request, p: string): seq<PolicyEntry> {
    if SetPolicy(ps, r, p).Some? then SetPolicy(ps, r, p).value else ps
  }

  /** One more grant, when its rules begin with a shield. */
  lemma GrantReaches(agentId: string, ops: seq<Op>, ps: seq<PolicyEntry>, q: Request, latest: Option<string>,
                     x: Request, p: string, c: char)
    requires IsValidAgentId(agentId) && Reached(agentId, ops, ps, q, latest) && ShieldKind(c) && |ps| <= 2
    requires forall i :: 0 <= i < |ps| ==> ShortPolicy(ps[i])
    requires KeepsPolicy(PolicyEntry(NormalizeRequest(x), p))
    requires var u := Set(ps, NormalizeRequest(x), p); u != [] && u[0] == Shield(c)
    ensures Reached(agentId, ops + [Apply(x, p)], Survivors(Set(ps, NormalizeRequest(x), p)), q,
                    if NormalizeRequest(x) == q then Some(p) else latest)
  {
    hide Print, Survivors, IsValidAgentId, NormalizeRequest, Shield, ShieldKind, Set, Reached, ShortPolicy;
    hide LoadPending, KeepsPolicy;
    ShieldHides(Manifest(agentId, Set(ps, NormalizeRequest(x), p), []), c);
    GrantSeen(agentId, ops, ps, q, latest, x, p);
  }

  /** One more grant, when the waiting list is still read as empty. */
  lemma GrantSeen(agentId: string, ops: seq<Op>, ps: seq<PolicyEntry>, q: Request, latest: Option<string>,
                  x: Request, p: string)
    requires IsValidAgentId(agentId) && Reached(agentId, ops, ps, q, latest) && |ps| <= 2
    requires forall i :: 0 <= i < |ps| ==> ShortPolicy(ps[i])
    requires KeepsPolicy(PolicyEntry(NormalizeRequest(x), p))
    requires LoadPending(Print(Manifest(agentId, Set(ps, NormalizeRequest(x), p), []))) == []
    ensures Reached(agentId, ops + [Apply(x, p)], Survivors(Set(ps, NormalizeRequest(x), p)), q,
                    if NormalizeRequest(x) == q then Some(p) else latest)
  {
    hide Print, Load, Survivors, IsValidAgentId, NormalizeRequest, IsPolicyValue, NormalizeToken, SetPolicy;
    hide ShortPolicy, ShortRequest, Set, LoadPending, FreshPending;
    var r := NormalizeRequest(x);
    var u := Manifest(agentId, Set(ps, r, p), []);
    PolicyValueIsNormal(p);
    NormalizedIsShort(x);
    SetIsShort(ps, r, p);
    PrintedLength(u);
    GrantOnFile(agentId, RunFile(agentId, "", ops, |ops|), ps, x, p);
    PrintedIsSettled(u);
    LoadedParts(u);
    OneMoreGrant(agentId, ops, q, latest, x, p, Print(u));
  }

  lemma OneMoreGrant(agentId: string, ops: seq<Op>, q: Request, latest: Option<string>, x: Request, p: string,
                     file: string)
    requires LatestGrantOnFile(agentId, ops, |ops|, q) == latest && NormalizeToken(p, POLICY_SIZE, true) == p
    requires StepFile(agentId, RunFile(agentId, "", ops, |ops|), Apply(x, p)) == (file, Granted)
    ensures var more := ops + [Apply(x, p)];
      && RunFile(agentId, "", more, |more|) == file
      && LatestGrantOnFile(agentId, more, |more|, q) == if NormalizeRequest(x) == q then Some(p) else latest
  {
    hide StepFile, NormalizeRequest, NormalizeToken;
    PrefixRun(agentId, ops, Apply(x, p), |ops|, q);
    assert (ops + [Apply(x, p)])[|ops|] == Apply(x, p);
  }

  lemma SetIsShort(ps: seq<PolicyEntry>, r: Request, p: string)
    requires |ps| <= 2 && (forall i :: 0 <= i < |ps| ==> ShortPolicy(ps[i])) && ShortRequest(r) && IsPolicyValue(p)
    ensures SetPolicy(ps, r, p) == Some(Set(ps, r, p))
    ensures var u := Set(ps, r, p); |u| <= 3 && forall i :: 0 <= i < |u| ==> ShortPolicy(u[i])
  {
    hide ShortRequest, IsPolicyValue;
  }

  lemma LoadedParts(m: Manifest)
    requires Load(m.agentId, Print(m)).Some? && LoadPending(Print(m)) == []
    ensures Load(m.agentId, Print(m)).value.pending == []
  {
    hide Print, LoadPolicies, LoadPending, GetString;
  }

  lemma GrantOnFile(agentId: string, file: string, ps: seq<PolicyEntry>, x: Request, p: string)
    requires Load(agentId, file) == Some(Manifest(agentId, ps, []))
    requires SetPolicy(ps, NormalizeRequest(x), p) == Some(Set(ps, NormalizeRequest(x), p))
    requires NormalizeToken(p, POLICY_SIZE, true) == p && KeepsPolicy(PolicyEntry(NormalizeRequest(x), p))
    requires |Print(Manifest(agentId, Set(ps, NormalizeRequest(x), p), []))| < JSON_CAPACITY
    ensures StepFile(agentId, file, Apply(x, p)) ==
      (Print(Manifest(agentId, Set(ps, NormalizeRequest(x), p), [])), Granted)
  {
    hide Print, Load, NormalizeRequest, NormalizeToken, IsPolicyValue, SetPolicy, Set;
    assert RemovePending([], NormalizeRequest(x)) == [];
  }

  /** After the first grant of a run there is the shield. */
  lemma ShieldReached(agentId: string, c: char, q: Request)
    requires IsValidAgentId(agentId) && ShieldKind(c) && q != Shield(c).request
    ensures Reached(agentId, [Apply(Shield(c).request, "ask")], [Shield(c)], q, None)
  {
    ShieldIsNormal(c);
    ShieldReloads(c);
    AsksFor(c);
    MissingFile(agentId);
    NothingReached(agentId, q);
    hide Load, IsValidAgentId, NormalizeRequest, IsPolicyValue, Shield, RecoveredPolicy, Reached, KeepsPolicy;
    hide ShortPolicy, ShortRequest, Survivors;
    FirstGrant(agentId, Shield(c).request, "ask", c, q);
  }

  lemma AsksFor(c: char)
    ensures Shield(c) == PolicyEntry(Shield(c).request, "ask")
  {
  }

  lemma FirstGrant(agentId: string, r: Request, p: string, c: char, q: Request)
    requires IsValidAgentId(agentId) && ShieldKind(c) && Reached(agentId, [], [], q, None) && NormalizeRequest(r) == r
    requires Shield(c) == PolicyEntry(r, p) && KeepsPolicy(Shield(c)) && RecoveredPolicy(Shield(c)) == Shield(c)
    requires q != r
    ensures Reached(agentId, [Apply(r, p)], [Shield(c)], q, None)
  {
    hide Load, IsValidAgentId, NormalizeRequest, IsPolicyValue, Shield, RecoveredPolicy, Reached, KeepsPolicy;
    hide ShortPolicy, Survivors, SetPolicy;
    SetOnEmpty(r, p);
    GrantReaches(agentId, [], [], q, None, r, p, c);
    SurvivorsOfOne(Shield(c));
    assert [] + [Apply(r, p)] == [Apply(r, p)];
  }

  lemma SetOnEmpty(r: Request, p: string)
    ensures Set([], r, p) == [PolicyEntry(r, p)]
  {
    assert FindExact([], r, 0) == -1;
  }

  lemma NothingReached(agentId: string, q: Request)
    requires Load(agentId, "") == Some(Manifest(agentId, [], []))
    ensures Reached(agentId, [], [], q, None)
  {
    hide Load;
  }

  /** The rules that come back of one. */
  function BackOf(p: PolicyEntry): seq<PolicyEntry> {
    if KeepsPolicy(RecoveredPolicy(p)) then [RecoveredPolicy(p)] else []
  }

  lemma SurvivorsOfOne(p: PolicyEntry)
    ensures Survivors([p]) == BackOf(p)
  {
    hide RecoveredPolicy, KeepsPolicy;
    assert [p][1..] == [];
    assert Survivors([]) == [];
  }

  lemma SurvivorsOfMore(p: PolicyEntry, ps: seq<PolicyEntry>)
    ensures Survivors([p] + ps) == BackOf(p) + Survivors(ps)
  {
    hide RecoveredPolicy, KeepsPolicy;
    assert ([p] + ps)[1..] == ps;
  }
}
