/** The manifest as the operations hold it while they work: two fixed arrays with counts, filled from the file,
    updated in place, and printed through a bounded buffer. */
module AccessStore {
  import opened Wrappers
  import opened CText
  import opened AccessRules
  import opened ManifestText
  import opened ManifestScanner
  import opened ManifestRoundTrip
  import opened ManifestReload
  import opened AccessRuns

  class ManifestBuffer {
    const agentId: string
    const policies: array<PolicyEntry>
    const pending: array<PendingEntry>
    var policyCount: nat
    var pendingCount: nat

    ghost predicate Valid()
      reads this
    {
      && policies.Length == MAX_POLICIES && pending.Length == MAX_PENDING
      && policyCount <= MAX_POLICIES && pendingCount <= MAX_PENDING
    }

    function Policies(): seq<PolicyEntry>
      requires Valid()
      reads this, policies
    {
      policies[..policyCount]
    }

    function Pending(): seq<PendingEntry>
      requires Valid()
      reads this, pending
    {
      pending[..pendingCount]
    }

    function Value(): Manifest
      requires Valid()
      reads this, policies, pending
    {
      Manifest(agentId, Policies(), Pending())
    }

    constructor (agentId: string)
      ensures Valid() && fresh(policies) && fresh(pending) && Value() == Manifest(agentId, [], [])
    {
      this.agentId := agentId;
      policies := new PolicyEntry[MAX_POLICIES](_ => PolicyEntry(Request("", "", "", ""), ""));
      pending := new PendingEntry[MAX_PENDING](_ => PendingEntry("", Request("", "", "", ""), 0));
      policyCount, pendingCount := 0, 0;
    }

    /** The first of the most specific matching rules, or -1. */
    method FindPolicy(r: Request) returns (best: int)
      requires Valid()
      ensures best == AccessRules.FindPolicy(Policies(), r, policyCount)
      ensures Governs(Policies(), r, best, policyCount)
    {
      hide Matches, Score;
      best := -1;
      var bestScore: int := -1;
      for i := 0 to policyCount
        invariant best == AccessRules.FindPolicy(Policies(), r, i)
        invariant if best < 0 then bestScore == -1 else best < i && bestScore == Score(policies[best].request, r)
      {
        if Matches(policies[i].request, r) {
          var score := Score(policies[i].request, r);
          if score > bestScore {
            best, bestScore := i, score;
          }
        }
      }
    }

    /** The ruling on a request: "" when no rule matches. */
    method Rule(r: Request) returns (policy: string)
      requires Valid()
      ensures policy == Ruling(Policies(), r)
    {
      var i := FindPolicy(r);
      return if i < 0 then "" else policies[i].policy;
    }

    /** Squeeze the waiting list in place, dropping what the rule matches or equals. */
    method RemovePending(rule: Request) returns (removed: bool)
      requires Valid()
      modifies this`pendingCount, pending
      ensures Valid()
      ensures Pending() == AccessRules.RemovePending(old(Pending()), rule)
      ensures removed <==> Pending() != old(Pending())
    {
      hide Matches, AccessRules.RemovePending;
      ghost var was := Pending();
      RemovePendingStart(rule);
      var out := 0;
      removed := false;
      for i := 0 to pendingCount
        invariant out <= i && pendingCount == old(pendingCount)
        invariant pending[i..pendingCount] == was[i..]
        invariant pending[..out] == AccessRules.RemovePending(was[..i], rule)
        invariant removed <==> out < i
        invariant !removed ==> pending[..out] == was[..i]
      {
        RemovePendingStep(was, rule, i);
        MatchesItself(rule);
        assert pending[i] == was[i] && was[..i + 1] == was[..i] + [was[i]];
        if pending[i].request == rule || Matches(rule, pending[i].request) {
          removed := true;
        } else {
          if out != i { pending[out] := pending[i]; }
          out := out + 1;
        }
      }
      assert was[..pendingCount] == was;
      pendingCount := out;
    }

    method AddPending(r: Request, now: nat) returns (ok: bool)
      requires Valid()
      modifies this`pendingCount, pending
      ensures Valid() && ok == AccessRules.AddPending(old(Pending()), r, now).Some?
      ensures Pending() == if ok then AccessRules.AddPending(old(Pending()), r, now).value else old(Pending())
    {
      hide RequestId;
      for i := 0 to pendingCount
        invariant r !in Requests(pending[..i])
      {
        assert pending[..i + 1][..i] == pending[..i];
        if pending[i].request == r {
          InRequests(Pending(), i);
          return true;
        }
      }
      if pendingCount >= MAX_PENDING { return false; }
      pending[pendingCount] := PendingEntry(RequestId(r), r, now);
      pendingCount := pendingCount + 1;
      return true;
    }

    method SetPolicy(r: Request, policy: string) returns (ok: bool)
      requires Valid()
      modifies this`policyCount, policies
      ensures Valid() && ok == AccessRules.SetPolicy(old(Policies()), r, policy).Some?
      ensures Policies() == if ok then AccessRules.SetPolicy(old(Policies()), r, policy).value else old(Policies())
    {
      var i := 0;
      while i < policyCount && policies[i].request != r
        invariant i <= policyCount && FindExact(Policies(), r, i) == FindExact(Policies(), r, 0)
      {
        i := i + 1;
      }
      if i == policyCount {
        if policyCount >= MAX_POLICIES { return false; }
        policies[i] := PolicyEntry(r, policy);
        policyCount := policyCount + 1;
      } else {
        policies[i] := PolicyEntry(r, policy);
      }
      return true;
    }

    method LoadPolicies(json: string)
      requires Valid() && policyCount == 0
      modifies this`policyCount, policies
      ensures Valid() && Policies() == ManifestText.LoadPolicies(json)
    {
      hide ReadPolicy, ReadPolicies, KeepsPolicy, NextObject, FindArray;
      var found, cursor, end := FindArrayAt(json, "policies");
      if !found { return; }
      ghost var all := ReadPolicies(json[cursor..], end - cursor, MAX_POLICIES, "");
      var stale := "";
      while cursor < end && policyCount < MAX_POLICIES
        invariant Valid() && cursor <= end <= |json|
        invariant all == Policies() + ReadPolicies(json[cursor..], end - cursor, MAX_POLICIES - policyCount, stale)
        decreases end - cursor
      {
        assert json[cursor..][..end - cursor] == json[cursor..end];
        var more, start, behind := NextObjectAt(json, cursor, end);
        if !more { break; }
        ReadPolicyStep(json[cursor..], end - cursor, MAX_POLICIES - policyCount, stale, start - cursor, behind - start);
        var p := ReadPolicyAt(json, start, stale);
        assert json[cursor..][start - cursor..] == json[start..] && json[cursor..][behind - cursor..] == json[behind..];
        ghost var before := Policies();
        if KeepsPolicy(p) {
          policies[policyCount] := p;
          policyCount := policyCount + 1;
          assert Policies() == before + [p];
          stale := "";
        } else {
          stale := p.policy;
        }
        cursor := behind;
      }
      assert json[cursor..][..end - cursor] == json[cursor..end];
      NothingPoliciesLeft(json[cursor..], end - cursor, MAX_POLICIES - policyCount, stale);
    }

    method LoadPending(json: string)
      requires Valid() && pendingCount == 0
      modifies this`pendingCount, pending
      ensures Valid() && Pending() == ManifestText.LoadPending(json)
    {
      hide ReadPending, ReadPendings, KeepsPending, NextObject, FindArray;
      var found, cursor, end := FindArrayAt(json, "pending");
      if !found { return; }
      ghost var all := ReadPendings(json[cursor..], end - cursor, MAX_PENDING, "");
      var stale := "";
      while cursor < end && pendingCount < MAX_PENDING
        invariant Valid() && cursor <= end <= |json|
        invariant all == Pending() + ReadPendings(json[cursor..], end - cursor, MAX_PENDING - pendingCount, stale)
        decreases end - cursor
      {
        assert json[cursor..][..end - cursor] == json[cursor..end];
        var more, start, behind := NextObjectAt(json, cursor, end);
        if !more { break; }
        ReadPendingStep(json[cursor..], end - cursor, MAX_PENDING - pendingCount, stale, start - cursor,
          behind - start);
        var w := ReadPendingAt(json, start, stale);
        assert json[cursor..][start - cursor..] == json[start..] && json[cursor..][behind - cursor..] == json[behind..];
        ghost var before := Pending();
        if KeepsPending(w) {
          pending[pendingCount] := w;
          pendingCount := pendingCount + 1;
          assert Pending() == before + [w];
          stale := "";
        } else {
          stale := w.id;
        }
        cursor := behind;
      }
      assert json[cursor..][..end - cursor] == json[cursor..end];
      NothingPendingsLeft(json[cursor..], end - cursor, MAX_PENDING - pendingCount, stale);
    }

    /** Fill an empty buffer from a file; fails when the file says it belongs to another agent. */
    method LoadFrom(json: string) returns (ok: bool)
      requires Valid() && policyCount == 0 && pendingCount == 0
      modifies this, policies, pending
      ensures Valid() && ok == Load(agentId, json).Some? && (ok ==> Value() == Load(agentId, json).value)
    {
      var named, owner := GetStringAt(json, 0, "agent_id", AGENT_ID_SIZE, "");
      assert json[0..] == json;
      if named && owner != agentId { return false; }
      LoadPolicies(json);
      LoadPending(json);
      return true;
    }
  }

  lemma NothingPoliciesLeft(s: string, room: nat, free: nat, stale: string)
    requires room <= |s| && (room == 0 || free == 0 || NextObject(s[..room], 0).None?)
    ensures ReadPolicies(s, room, free, stale) == []
  {
  }

  lemma NothingPendingsLeft(s: string, room: nat, free: nat, stale: string)
    requires room <= |s| && (room == 0 || free == 0 || NextObject(s[..room], 0).None?)
    ensures ReadPendings(s, room, free, stale) == []
  {
  }

  lemma RemovePendingStart(rule: Request)
    ensures AccessRules.RemovePending([], rule) == []
  {
  }

  lemma RemovePendingStep(ws: seq<PendingEntry>, rule: Request, i: nat)
    requires i < |ws|
    ensures AccessRules.RemovePending(ws[..i + 1], rule) ==
      AccessRules.RemovePending(ws[..i], rule) + if Matches(rule, ws[i].request) then [] else [ws[i]]
  {
    hide Matches;
    assert ws[..i + 1][..i] == ws[..i];
  }

  lemma {:induction false} InRequests(ws: seq<PendingEntry>, i: nat)
    requires i < |ws|
    ensures ws[i].request in Requests(ws)
  {
    if i < |ws| - 1 { InRequests(ws[..|ws| - 1], i); }
  }

  method ReadPolicyAt(s: string, from: nat, stale: string) returns (p: PolicyEntry)
    requires from <= |s|
    ensures p == ReadPolicy(s[from..], stale)
  {
    var r := ReadRequestAt(s, from);
    var ok, value := GetStringAt(s, from, "policy", POLICY_SIZE, stale);
    var policy := Normalize(value, POLICY_SIZE, true);
    return PolicyEntry(r, policy);
  }

  method ReadPendingAt(s: string, from: nat, stale: string) returns (w: PendingEntry)
    requires from <= |s|
    ensures w == ReadPending(s[from..], stale)
  {
    var r := ReadRequestAt(s, from);
    var ok, id := GetStringAt(s, from, "id", ID_SIZE, stale);
    var createdAt := GetNumberAt(s, from, "created_at");
    return PendingEntry(id, r, createdAt);
  }

  // ---------- printing into a bounded buffer ----------

  lemma NumberPieces(key: string, n: nat, rest: string)
    requires PlainKey(key)
    ensures NumberThen(Some((key, n)), rest) == ",\"" + key + "\":" + Decimal(n) + rest
  {
    var d := Decimal(n);
    hide Decimal;
    PlainEsc(key, "\"" + (":" + d + rest));
    assert EscThen(key, "\"" + (":" + d + rest)) == key + ("\"" + (":" + d + rest));
    hide EscThen;
    assert ",\"" + key + "\":" + d + rest == "," + ("\"" + (key + ("\"" + (":" + d + rest))));
  }


  class JsonBuilder {
    const data: array<char>
    var len: nat
    var failed: bool

    ghost predicate Valid()
      reads this
    {
      len < data.Length
    }

    constructor (capacity: nat)
      requires capacity > 0
      ensures Valid() && fresh(data) && data.Length == capacity && len == 0 && !failed
    {
      data := new char[capacity](_ => 0 as char);
      len, failed := 0, false;
    }

    /** `rest` of the text `whole` is still to be printed; or the buffer has overflowed because `whole` is too long. */
    ghost predicate OnTrack(whole: string, rest: string)
      reads this, data
    {
      Valid() && if failed then |whole| >= data.Length else data[..len] + rest == whole
    }

    /** Append a text; one that does not fit fails the builder for good. */
    method Append(text: string, ghost whole: string, ghost rest: string)
      requires OnTrack(whole, text + rest)
      modifies this, data
      ensures OnTrack(whole, rest)
    {
      if failed { return; }
      ghost var before := data[..len];
      if len + |text| >= data.Length {
        assert |before + (text + rest)| >= data.Length;
        failed := true;
        return;
      }
      for i := 0 to |text|
        invariant Valid() && !failed && len == old(len) && data[..len + i] == before + text[..i]
      {
        data[len + i] := text[i];
      }
      len := len + |text|;
      assert text[..|text|] == text;
      assert before + text + rest == before + (text + rest);
    }

    method AppendEscaped(value: string, ghost whole: string, ghost rest: string)
      requires OnTrack(whole, QuotedThen(value, rest))
      modifies this, data
      ensures OnTrack(whole, rest)
    {
      hide EscChar;
      Append("\"", whole, EscThen(value, "\"" + rest));
      var i := 0;
      assert value[0..] == value;
      while i < |value|
        invariant i <= |value| && OnTrack(whole, EscThen(value[i..], "\"" + rest))
      {
        assert value[i..][0] == value[i] && value[i..][1..] == value[i + 1..];
        Append(EscChar(value[i]), whole, EscThen(value[i + 1..], "\"" + rest));
        i := i + 1;
      }
      Append("\"", whole, rest);
    }

    /** A quoted name of the file format. */
    method AppendName(name: string, ghost whole: string, ghost rest: string)
      requires PlainKey(name) && OnTrack(whole, QuotedThen(name, rest))
      modifies this, data
      ensures OnTrack(whole, rest)
    {
      PlainEsc(name, "\"" + rest);
      var text := "\"" + name + "\"";
      assert QuotedThen(name, rest) == text + rest;
      Append(text, whole, rest);
    }

    method AppendField(field: Pair, ghost whole: string, ghost rest: string)
      requires PlainKey(field.key) && OnTrack(whole, QuotedThen(field.key, ":" + QuotedThen(field.val, rest)))
      modifies this, data
      ensures OnTrack(whole, rest)
    {
      ghost var value := QuotedThen(field.val, rest);
      PlainEsc(field.key, "\"" + (":" + value));
      var name := "\"" + field.key + "\":";
      assert QuotedThen(field.key, ":" + value) == name + value;
      Append(name, whole, value);
      AppendEscaped(field.val, whole, rest);
    }

    method AppendFields(fields: seq<Pair>, ghost whole: string, ghost rest: string)
      requires PlainKeys(fields) && OnTrack(whole, FieldsThen(fields, rest))
      modifies this, data
      ensures OnTrack(whole, rest)
    {
      hide QuotedThen, PlainKey;
      var i := 0;
      assert fields[0..] == fields;
      while i < |fields|
        invariant i <= |fields| && OnTrack(whole, FieldsThen(fields[i..], rest))
      {
        ghost var more := fields[i + 1..];
        assert fields[i..][0] == fields[i] && fields[i..][1..] == more;
        ghost var tail := if i + 1 == |fields| then rest else "," + FieldsThen(more, rest);
        AppendField(fields[i], whole, tail);
        if i + 1 < |fields| { Append(",", whole, FieldsThen(more, rest)); }
        i := i + 1;
      }
    }

    method AppendNumber(number: Option<(string, nat)>, ghost whole: string, ghost rest: string)
      requires (number.Some? ==> PlainKey(number.value.0)) && OnTrack(whole, NumberThen(number, rest))
      modifies this, data
      ensures OnTrack(whole, rest)
    {
      if number.Some? {
        var (key, n) := number.value;
        NumberPieces(key, n, rest);
        hide NumberThen, PlainKey;
        Append(",\"" + key + "\":" + Decimal(n), whole, rest);
      }
    }

    method AppendEntry(e: Entry, ghost whole: string, ghost rest: string)
      requires PlainKeys(e.fields) && (e.number.Some? ==> PlainKey(e.number.value.0))
        && OnTrack(whole, EntryThen(e, rest))
      modifies this, data
      ensures OnTrack(whole, rest)
    {
      hide FieldsThen, NumberThen, PlainKey;
      Append("{", whole, FieldsThen(e.fields, NumberThen(e.number, "}" + rest)));
      AppendFields(e.fields, whole, NumberThen(e.number, "}" + rest));
      AppendNumber(e.number, whole, "}" + rest);
      Append("}", whole, rest);
    }

    method AppendList(es: seq<Entry>, ghost whole: string, ghost rest: string)
      requires forall e :: e in es ==> PlainKeys(e.fields) && (e.number.Some? ==> PlainKey(e.number.value.0))
      requires OnTrack(whole, ListThen(es, true, rest))
      modifies this, data
      ensures OnTrack(whole, rest)
    {
      hide EntryThen, PlainKeys, PlainKey;
      var i := 0;
      assert es[0..] == es;
      while i < |es|
        invariant i <= |es| && OnTrack(whole, ListThen(es[i..], i == 0, rest))
      {
        ghost var tail := ListThen(es[i + 1..], false, rest);
        assert es[i..][0] == es[i] && es[i..][1..] == es[i + 1..];
        Append(if i == 0 then "\n    " else ",\n    ", whole, EntryThen(es[i], tail));
        AppendEntry(es[i], whole, tail);
        i := i + 1;
      }
    }
  }

  lemma EntryKeysPlain(m: Manifest)
    ensures forall e :: e in PolicyEntries(m.policies) ==> PlainKeys(e.fields) && e.number.None?
    ensures forall e ::
      e in PendingEntries(m.pending) ==> PlainKeys(e.fields) && e.number.Some? && PlainKey(e.number.value.0)
  {
    hide PlainKey;
    KeyNamesPlain();
  }

  lemma KeyNamesPlain()
    ensures PlainKey("id") && PlainKey("kind") && PlainKey("subject") && PlainKey("method") && PlainKey("path")
    ensures PlainKey("policy") && PlainKey("created_at")
  {
  }

  method AppendHeader(b: JsonBuilder, m: Manifest)
    requires b.OnTrack(Print(m), Print(m))
    modifies b, b.data
    ensures b.OnTrack(Print(m), AfterHeader(m))
  {
    hide QuotedThen, AfterHeader, PlainKey;
    KeysArePlain();
    ghost var owner := QuotedThen(m.agentId, ",\n  " + AfterHeader(m));
    ghost var second := QuotedThen("agent_id", ": " + owner);
    b.Append("{\n  ", Print(m), QuotedThen("version", ": 1,\n  " + second));
    b.AppendName("version", Print(m), ": 1,\n  " + second);
    b.Append(": 1,\n  ", Print(m), second);
    b.AppendName("agent_id", Print(m), ": " + owner);
    b.Append(": ", Print(m), owner);
    b.AppendEscaped(m.agentId, Print(m), ",\n  " + AfterHeader(m));
    b.Append(",\n  ", Print(m), AfterHeader(m));
  }

  method AppendPolicies(b: JsonBuilder, m: Manifest)
    requires b.OnTrack(Print(m), AfterHeader(m))
    modifies b, b.data
    ensures b.OnTrack(Print(m), AfterPolicies(m))
  {
    hide QuotedThen, AfterPolicies, PlainKey, Print, ListThen, PlainKeys;
    KeysArePlain();
    EntryKeysPlain(m);
    ghost var tail := "\n  ]" + AfterPolicies(m);
    ghost var list := ListThen(PolicyEntries(m.policies), true, tail);
    b.AppendName("policies", Print(m), ": [" + list);
    b.Append(": [", Print(m), list);
    b.AppendList(PolicyEntries(m.policies), Print(m), tail);
    b.Append("\n  ]", Print(m), AfterPolicies(m));
  }

  method AppendPending(b: JsonBuilder, m: Manifest)
    requires b.OnTrack(Print(m), AfterPolicies(m))
    modifies b, b.data
    ensures b.OnTrack(Print(m), "")
  {
    hide QuotedThen, PlainKey, Print, ListThen, PlainKeys;
    KeysArePlain();
    EntryKeysPlain(m);
    ghost var tail := "\n  ]\n}\n";
    ghost var list := ListThen(PendingEntries(m.pending), true, tail);
    b.Append(",\n  ", Print(m), QuotedThen("pending", ": [" + list));
    b.AppendName("pending", Print(m), ": [" + list);
    b.Append(": [", Print(m), list);
    b.AppendList(PendingEntries(m.pending), Print(m), tail);
    assert tail + "" == tail;
    b.Append("\n  ]\n}\n", Print(m), "");
  }

  /** The text of a manifest, or nothing when it does not fit the buffer. */
  method ManifestToJson(m: Manifest) returns (json: Option<string>)
    ensures json == if |Print(m)| < JSON_CAPACITY then Some(Print(m)) else None
  {
    hide Print, AfterHeader, AfterPolicies;
    var b := new JsonBuilder(JSON_CAPACITY);
    assert b.data[..0] + Print(m) == Print(m);
    AppendHeader(b, m);
    AppendPolicies(b, m);
    AppendPending(b, m);
    if b.failed { return None; }
    assert b.data[..b.len] + "" == b.data[..b.len];
    return Some(b.data[..b.len]);
  }

  // ---------- the operations ----------

  /** One agent's manifest file and the operations on it.  Writing replaces the file as a whole. */
  class Store {
    const agentId: string
    var file: string

    constructor (agentId: string)
      ensures this.agentId == agentId && file == ""
    {
      this.agentId := agentId;
      file := "";
    }

    method ApplyPolicy(request: Request, policy: string) returns (outcome: Outcome)
      requires IsValidAgentId(agentId)
      modifies this
      ensures (file, outcome) == StepFile(agentId, old(file), Apply(request, policy))
    {
      hide Load, Print, NormalizeRequest, NormalizeToken, AccessRules.SetPolicy, AccessRules.RemovePending;
      var r := NormalizeAll(request);
      var p := Normalize(policy, POLICY_SIZE, true);
      if r.kind == "" || r.subject == "" || !IsPolicyValue(p) { return Invalid; }
      var m := new ManifestBuffer(agentId);
      var loaded := m.LoadFrom(file);
      if !loaded { return Invalid; }
      var stored := m.SetPolicy(r, p);
      if !stored { return Refused; }
      var removed := m.RemovePending(r);
      var json := ManifestToJson(m.Value());
      if json.None? { return Refused; }
      file := json.value;
      return Granted;
    }

    method Evaluate(request: Request, now: nat) returns (outcome: Outcome)
      requires IsValidAgentId(agentId)
      modifies this
      ensures (file, outcome) == StepFile(agentId, old(file), AccessRuns.Evaluate(request, now))
    {
      hide Load, Print, NormalizeRequest, AccessRules.AddPending, Ruling;
      var r := NormalizeAll(request);
      var m := new ManifestBuffer(agentId);
      if r.kind == "" || r.subject == "" { return Invalid; }
      var loaded := m.LoadFrom(file);
      if !loaded { return Invalid; }
      var ruling := m.Rule(r);
      if ruling == "always" { return Approved; }
      if ruling == "never" { return Denied; }
      var added := m.AddPending(r, now);
      if !added { return Refused; }
      var json := ManifestToJson(m.Value());
      if json.None? { return Refused; }
      file := json.value;
      return Waiting;
    }

    /** Whether somebody has to be asked: no rule governs the request, or one that says to ask. */
    method NeedsPrompt(request: Request) returns (ok: bool, needed: bool)
      requires IsValidAgentId(agentId)
      ensures var r := NormalizeRequest(request);
        ok <==> r.kind != "" && r.subject != "" && Load(agentId, file).Some?
      ensures ok ==>
        var ps := Load(agentId, file).value.policies;
        var i := AccessRules.FindPolicy(ps, NormalizeRequest(request), |ps|);
        needed <==> i < 0 || ps[i].policy == "ask"
      ensures !ok ==> !needed
    {
      hide Load, NormalizeRequest;
      var r := NormalizeAll(request);
      if r.kind == "" || r.subject == "" { return false, false; }
      var m := new ManifestBuffer(agentId);
      var loaded := m.LoadFrom(file);
      if !loaded { return false, false; }
      var i := m.FindPolicy(r);
      return true, i < 0 || m.policies[i].policy == "ask";
    }
  }
}
