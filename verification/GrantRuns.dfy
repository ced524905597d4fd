/** Grants and evaluations through the file, whatever else is granted or evaluated in between: other entries may come
    back changed, but none comes back in front of a firm request's own rule as a rule for exactly that request. */
module GrantRuns {
  import opened Wrappers
  import opened CText
  import opened AccessRules
  import opened ManifestText
  import opened ManifestRoundTrip
  import opened ManifestReload
  import opened ManifestTheorems
  import opened AccessRuns

  /** A request whose rule stands firm: its fields are in stored form, hold no control character, and each key of its
      entry is read at its own field.  (What the policy is makes no difference to that.) */
  ghost predicate Firm(q: Request) {
    var fs := PolicyAsEntry(PolicyEntry(q, "ask")).fields;
    && q.kind != "" && q.subject != "" && InStoredForm(fs) && NoControls(fs)
    && forall j :: 0 <= j < |fs| ==> Source(fs, fs[j].key) == j
  }

  /** A request is firm when its normal form is stable and no value in it holds a control character or is taken for a
      key. */
  lemma HarmlessIsFirm(q: Request)
    requires NormalRequest(q) && HarmlessRequest(q) && q.kind != "" && q.subject != ""
    ensures Firm(q)
  {
    hide Source, InStoredForm, NoControls, IsLookedUp, KeysDistinct, NormalRequest, Harmless, PolicyAsEntry;
    hide IsPolicyValue;
    assert IsPolicyValue("ask") by { AskIsPolicy(); }
    var p := PolicyEntry(q, "ask");
    PolicyStoredForm(p);
    PolicyFields(p);
    PolicyValueHarmless("ask");
    PolicyKeysDistinct(p);
    AllInPlace(PolicyAsEntry(p).fields);
    HarmlessInPlace(PolicyAsEntry(p).fields);
  }

  lemma FirmIsNamed(q: Request)
    requires Firm(q)
    ensures q.kind != "" && q.subject != ""
  {
    hide InStoredForm, NoControls, Source, PolicyAsEntry;
  }

  lemma AskIsPolicy()
    ensures IsPolicyValue("ask")
  {
  }

  lemma HarmlessInPlace(fs: seq<Pair>)
    requires KeysDistinct(fs) && fs != [] && forall j :: 0 <= j < |fs| ==> Harmless(fs[j].val)
    requires forall j :: 0 < j < |fs| ==> IsLookedUp(fs[j].key)
    ensures forall j :: 0 <= j < |fs| ==> Source(fs, fs[j].key) == j
  {
    hide Source, Hit, IsLookedUp, NoControl;
    forall j | 0 <= j < |fs| ensures Source(fs, fs[j].key) == j {
      if j == 0 { FirstKeySource(fs); } else { DistinctKeys(fs, j); }
    }
  }

  /** As entries are after they have been read once. */
  ghost predicate Settled(p: PolicyEntry) {
    InStoredForm(PolicyAsEntry(p).fields) && NoControls(PolicyAsEntry(p).fields)
  }

  lemma RecoveredIsSettled(p: PolicyEntry)
    ensures Settled(RecoveredPolicy(p))
  {
    hide Recovered, Source, Stored, NoControl, PolicyAsEntry, IsRequestKey;
    PolicyFields(p);
    PolicyFields(RecoveredPolicy(p));
    var ps := PolicyAsEntry(p).fields;
    RecoveredInForm(ps, "kind");
    RecoveredInForm(ps, "subject");
    RecoveredInForm(ps, "method");
    RecoveredInForm(ps, "path");
    RecoveredInForm(ps, "policy");
    FiveInForm(PolicyAsEntry(RecoveredPolicy(p)).fields);
  }

  lemma FiveInForm(fs: seq<Pair>)
    requires |fs| == 5
    requires Stored(fs[0].key, fs[0].val) == fs[0].val && NoControl(fs[0].val)
    requires Stored(fs[1].key, fs[1].val) == fs[1].val && NoControl(fs[1].val)
    requires Stored(fs[2].key, fs[2].val) == fs[2].val && NoControl(fs[2].val)
    requires Stored(fs[3].key, fs[3].val) == fs[3].val && NoControl(fs[3].val)
    requires Stored(fs[4].key, fs[4].val) == fs[4].val && NoControl(fs[4].val)
    ensures InStoredForm(fs) && NoControls(fs)
  {
    hide Stored, NoControl;
  }

  // ---------- no other entry becomes a rule for the request ----------

  /** Where a key is read depends on the values in front of it only. */
  lemma SourceByPrefix(a: seq<Pair>, b: seq<Pair>, j: nat)
    requires |a| == |b| && j < |a| && forall i :: 0 <= i <= j ==> a[i].key == b[i].key
    requires (forall i :: 0 <= i < j ==> a[i].val == b[i].val) && Source(a, a[j].key) == j
    ensures Source(b, b[j].key) == j
  {
    hide Hit;
    var k, i := a[j].key, FirstHit(a, a[j].key);
    assert i <= j && (i < j ==> a[i].key != k && Hit(a[i].val, k));
    FirstAt(b, k, i);
  }

  lemma FirstAt(fs: seq<Pair>, k: string, i: nat)
    requires i < |fs| && (fs[i].key == k || Hit(fs[i].val, k))
    requires forall h :: 0 <= h < i ==> fs[h].key != k && !Hit(fs[h].val, k)
    ensures FirstHit(fs, k) == i
  {
    hide Hit;
  }

  /** A settled value is read as itself. */
  lemma ReadAsItself(fs: seq<Pair>, j: nat)
    requires j < |fs| && InStoredForm(fs) && NoControls(fs) && Source(fs, fs[j].key) == j
    ensures Recovered(fs, fs[j].key) == fs[j].val
  {
    hide Stored, Mangle, Source;
    MangleIff(fs[j].val);
    StoredFits(fs[j].key, fs[j].val);
  }

  /** If the first `n` values are read as those of a firm request, they are those. */
  lemma {:induction false} FirmPrefix(es: seq<Pair>, qs: seq<Pair>, n: nat)
    requires |es| == |qs| && n <= |es| && InStoredForm(es) && NoControls(es)
    requires forall j :: 0 <= j < |qs| ==> es[j].key == qs[j].key && Source(qs, qs[j].key) == j
    requires forall j :: 0 <= j < n ==> Source(es, es[j].key) < |es| && Recovered(es, es[j].key) == qs[j].val
    ensures forall j :: 0 <= j < n ==> es[j].val == qs[j].val
  {
    hide Recovered, Source, InStoredForm, NoControls;
    if n > 0 {
      FirmPrefix(es, qs, n - 1);
      SourceByPrefix(qs, es, n - 1);
      ReadAsItself(es, n - 1);
    }
  }

  /** A settled entry that is read as a rule for a firm request is that rule. */
  lemma SettledReadsAsItself(e: PolicyEntry, q: Request)
    requires Settled(e) && Firm(q) && RecoveredPolicy(e).request == q
    ensures RecoveredPolicy(e) == e
  {
    hide Recovered, Source, PolicyAsEntry, InStoredForm, NoControls, IsRequestKey, PlainKeys;
    PolicyFields(e);
    PolicyFields(PolicyEntry(q, "ask"));
    var es, qs := PolicyAsEntry(e).fields, PolicyAsEntry(PolicyEntry(q, "ask")).fields;
    FourRead(es, qs, q);
    FirmPrefix(es, qs, 4);
    SourceByPrefix(qs, es, 4);
    ReadAsItself(es, 4);
  }

  lemma FourRead(es: seq<Pair>, qs: seq<Pair>, q: Request)
    requires IsEntryFields(es) && |qs| == 5 && RecoveredRequest(es) == q
    requires es[0].key == "kind" && es[1].key == "subject" && es[2].key == "method" && es[3].key == "path"
    requires qs[0].val == q.kind && qs[1].val == q.subject && qs[2].val == q.method_ && qs[3].val == q.path
    ensures forall j :: 0 <= j < 4 ==> Source(es, es[j].key) < |es| && Recovered(es, es[j].key) == qs[j].val
  {
    hide Recovered, Source, PlainKeys;
  }

  // ---------- the first rule for exactly a request ----------

  /** The policy of the first rule for exactly `q`. */
  function ExactPolicy(ps: seq<PolicyEntry>, q: Request): Option<string> {
    if ps == [] then None else if ps[0].request == q then Some(ps[0].policy) else ExactPolicy(ps[1..], q)
  }

  lemma {:induction false} ExactPolicyAt(ps: seq<PolicyEntry>, q: Request, f: nat)
    requires f < |ps| && ps[f].request == q && forall i :: 0 <= i < f ==> ps[i].request != q
    ensures ExactPolicy(ps, q) == Some(ps[f].policy)
  {
    if f > 0 { ExactPolicyAt(ps[1..], q, f - 1); }
  }

  lemma {:induction false} NoExactPolicy(ps: seq<PolicyEntry>, q: Request)
    requires forall i :: 0 <= i < |ps| ==> ps[i].request != q
    ensures ExactPolicy(ps, q) == None
  {
    if ps != [] { NoExactPolicy(ps[1..], q); }
  }

  lemma ExactPolicyIsFirst(ps: seq<PolicyEntry>, q: Request)
    ensures var i := FindExact(ps, q, 0); ExactPolicy(ps, q) == if i >= 0 then Some(ps[i].policy) else None
  {
    var i := FindExact(ps, q, 0);
    if i >= 0 { ExactPolicyAt(ps, q, i); } else { NoExactPolicy(ps, q); }
  }

  /** There is a rule for exactly `q`, and the entries in front of it are settled. */
  ghost predicate BehindSettled(ps: seq<PolicyEntry>, q: Request) {
    ps != [] && if ps[0].request == q then KeepsPolicy(ps[0]) else Settled(ps[0]) && BehindSettled(ps[1..], q)
  }

  lemma {:induction false} BehindSettledAt(ps: seq<PolicyEntry>, q: Request, f: nat)
    requires f < |ps| && ps[f].request == q && KeepsPolicy(ps[f])
    requires forall i :: 0 <= i < f ==> ps[i].request != q && Settled(ps[i])
    ensures BehindSettled(ps, q)
  {
    hide Settled, KeepsPolicy;
    if f > 0 {
      assert ps[1..][f - 1] == ps[f];
      forall i | 0 <= i < f - 1 ensures ps[1..][i].request != q && Settled(ps[1..][i]) {
        assert ps[1..][i] == ps[i + 1];
      }
      BehindSettledAt(ps[1..], q, f - 1);
    }
  }

  /** Such a rule is still the first one for exactly `q` after a save and a reload. */
  lemma {:induction false} ExactPolicyReloads(ps: seq<PolicyEntry>, q: Request)
    requires Firm(q) && BehindSettled(ps, q)
    ensures ExactPolicy(Survivors(ps), q) == ExactPolicy(ps, q)
  {
    hide Settled, KeepsPolicy, RecoveredPolicy, Firm;
    var back := RecoveredPolicy(ps[0]);
    if ps[0].request == q {
      OwnRuleReloads(ps[0], q);
      assert Survivors(ps)[0] == ps[0];
    } else {
      if back.request == q { SettledReadsAsItself(ps[0], q); }
      ExactPolicyReloads(ps[1..], q);
      if KeepsPolicy(back) {
        assert Survivors(ps)[0] == back && Survivors(ps)[1..] == Survivors(ps[1..]);
      } else {
        assert Survivors(ps) == Survivors(ps[1..]);
      }
    }
  }

  lemma OwnRuleReloads(p: PolicyEntry, q: Request)
    requires Firm(q) && p.request == q && KeepsPolicy(p)
    ensures RecoveredPolicy(p) == p
  {
    hide Recovered, RecoveredPolicy, Source, PolicyAsEntry, IsPolicyValue, Stored, NoControl, IsEntryFields, Harmless;
    var ask := PolicyEntry(q, "ask");
    PolicyFields(p);
    PolicyFields(ask);
    PolicyValueStored(p.policy);
    PolicyValueHasNoControl(p.policy);
    LastReplaced(PolicyAsEntry(ask).fields, p.policy);
    OwnFieldsSurvive(PolicyAsEntry(ask).fields, PolicyAsEntry(p).fields);
    PolicyRecoversIff(p);
  }

  lemma OwnFieldsSurvive(qs: seq<Pair>, ps: seq<Pair>)
    requires |qs| == |ps| == 5 && InStoredForm(ps) && NoControls(ps)
    requires forall j :: 0 <= j < 5 ==> ps[j].key == qs[j].key && Source(qs, qs[j].key) == j
    requires forall j :: 0 <= j < 4 ==> ps[j].val == qs[j].val
    ensures FieldsSurvive(ps)
  {
    hide Source, InStoredForm, NoControls, Stored;
    forall j | 0 <= j < |ps| ensures Source(ps, ps[j].key) == j { SourceByPrefix(qs, ps, j); }
  }

  /** A grant on settled rules leaves a rule for exactly `q` behind settled entries, if there was one or it is the one
      granted. */
  lemma GrantBehindSettled(ps: seq<PolicyEntry>, r: Request, policy: string, q: Request)
    requires (forall i :: 0 <= i < |ps| ==> Settled(ps[i]) && KeepsPolicy(ps[i])) && SetPolicy(ps, r, policy).Some?
    requires KeepsPolicy(PolicyEntry(r, policy)) && (r == q || ExactPolicy(ps, q).Some?)
    ensures var u := SetPolicy(ps, r, policy).value;
      BehindSettled(u, q) && ExactPolicy(u, q) == if r == q then Some(policy) else ExactPolicy(ps, q)
  {
    hide Settled, KeepsPolicy, ExactPolicy, BehindSettled, NormalRequest;
    var u, at := SetPolicy(ps, r, policy).value, FindExact(ps, r, 0);
    ExactPolicyIsFirst(ps, q);
    var f := if r != q then FindExact(ps, q, 0) else if at >= 0 then at else |ps|;
    if 0 <= at < f { ReplacedIsSettled(ps[at], policy); }
    forall i | 0 <= i < f ensures u[i].request != q && Settled(u[i]) { }
    assert u[f].request == q && KeepsPolicy(u[f]);
    BehindSettledAt(u, q, f);
    ExactPolicyAt(u, q, f);
  }

  lemma ReplacedIsSettled(p: PolicyEntry, policy: string)
    requires Settled(p) && KeepsPolicy(PolicyEntry(p.request, policy))
    ensures Settled(PolicyEntry(p.request, policy))
  {
    hide Stored, NoControl, IsPolicyValue, PolicyAsEntry, IsRequestKey, InStoredForm, NoControls, IsEntryFields;
    hide Harmless;
    var u := PolicyEntry(p.request, policy);
    PolicyFields(p);
    PolicyFields(u);
    PolicyValueStored(policy);
    PolicyValueHasNoControl(policy);
    LastReplaced(PolicyAsEntry(p).fields, policy);
  }

  lemma PolicyValueHasNoControl(policy: string)
    requires IsPolicyValue(policy)
    ensures NoControl(policy)
  {
    PolicyValueLetters(policy);
  }

  lemma LastReplaced(fs: seq<Pair>, v: string)
    requires |fs| == 5 && InStoredForm(fs) && NoControls(fs) && Stored(fs[4].key, v) == v && NoControl(v)
    ensures var us := [fs[0], fs[1], fs[2], fs[3], Pair(fs[4].key, v)]; InStoredForm(us) && NoControls(us)
  {
    hide Stored, NoControl;
  }

  lemma {:induction false} SurvivorsSettled(ps: seq<PolicyEntry>)
    ensures |Survivors(ps)| <= |ps|
    ensures forall i :: 0 <= i < |Survivors(ps)| ==> Settled(Survivors(ps)[i]) && KeepsPolicy(Survivors(ps)[i])
  {
    hide Settled, KeepsPolicy, RecoveredPolicy;
    if ps != [] {
      SurvivorsSettled(ps[1..]);
      RecoveredIsSettled(ps[0]);
    }
  }

  // ---------- runs ----------

  /** The policy of the last grant, among the first `k` operations on the file, for exactly `q`. */
  function LatestGrantOnFile(agentId: string, ops: seq<Op>, k: nat, q: Request): Option<string>
    requires k <= |ops|
  {
    if k == 0 then None
    else
      var op := ops[k - 1];
      if op.Apply? && NormalizeRequest(op.request) == q
        && StepFile(agentId, RunFile(agentId, "", ops, k - 1), op).1 == Granted
      then Some(NormalizeToken(op.policy, POLICY_SIZE, true))
      else LatestGrantOnFile(agentId, ops, k - 1, q)
  }

  /** A file whose rules have been read once. */
  ghost predicate SettledFile(agentId: string, file: string) {
    var m := Load(agentId, file);
    && m.Some? && m.value.agentId == agentId && |m.value.policies| <= MAX_POLICIES
    && forall i :: 0 <= i < |m.value.policies| ==> Settled(m.value.policies[i]) && KeepsPolicy(m.value.policies[i])
  }

  lemma PrintedIsSettled(m: Manifest)
    requires IsValidAgentId(m.agentId) && |m.policies| <= MAX_POLICIES
    ensures SettledFile(m.agentId, Print(m)) && Load(m.agentId, Print(m)).value.policies == Survivors(m.policies)
  {
    hide Print, GetString, LoadPolicies, LoadPending, Survivors, Settled, KeepsPolicy, IsValidAgentId;
    OwnerFound(m);
    PoliciesReloaded(m);
    SurvivorsSettled(m.policies);
  }

  /** One operation in memory keeps what the first rule for exactly `q` will say once reloaded, or grants it. */
  lemma PerformKeepsExactPolicy(m: Manifest, op: Op, q: Request)
    requires Firm(q) && Perform(m, op).0.Some?
    requires forall i :: 0 <= i < |m.policies| ==> Settled(m.policies[i]) && KeepsPolicy(m.policies[i])
    ensures var own, now := ExactPolicy(m.policies, q), ExactPolicy(Survivors(Perform(m, op).0.value.policies), q);
      if op.Apply? && NormalizeRequest(op.request) == q then now == Some(NormalizeToken(op.policy, POLICY_SIZE, true))
      else own.Some? ==> now == own
  {
    hide Perform, Settled, KeepsPolicy, ExactPolicy, Firm, NormalizeRequest, NormalizeToken, SetPolicy;
    hide BehindSettled;
    PerformRules(m, op);
    var u, r := Perform(m, op).0.value, NormalizeRequest(op.request);
    if op.Apply? && (r == q || ExactPolicy(m.policies, q).Some?) {
      GrantBehindSettled(m.policies, r, NormalizeToken(op.policy, POLICY_SIZE, true), q);
      ExactPolicyReloads(u.policies, q);
    } else if op.Evaluate? && ExactPolicy(m.policies, q).Some? {
      RuleBehindSettled(m.policies, q);
      ExactPolicyReloads(u.policies, q);
    }
  }

  /** One operation on a settled file does the same. */
  lemma StepKeepsExactPolicy(agentId: string, file: string, op: Op, q: Request)
    requires IsValidAgentId(agentId) && SettledFile(agentId, file) && Firm(q)
    ensures var (after, outcome) := StepFile(agentId, file, op);
      var own := ExactPolicy(Load(agentId, file).value.policies, q);
      && SettledFile(agentId, after)
      && var now := ExactPolicy(Load(agentId, after).value.policies, q);
        if op.Apply? && NormalizeRequest(op.request) == q && outcome == Granted
        then now == Some(NormalizeToken(op.policy, POLICY_SIZE, true))
        else own.Some? ==> now == own
  {
    hide Load, Print, Perform, Settled, KeepsPolicy, ExactPolicy, Firm, IsValidAgentId, NormalizeRequest;
    hide NormalizeToken;
    hide SetPolicy, Survivors;
    var m := Load(agentId, file).value;
    PerformRules(m, op);
    if Perform(m, op).0.Some? {
      PerformKeepsExactPolicy(m, op, q);
      PrintedIsSettled(Perform(m, op).0.value);
    }
  }

  lemma RuleBehindSettled(ps: seq<PolicyEntry>, q: Request)
    requires (forall i :: 0 <= i < |ps| ==> Settled(ps[i]) && KeepsPolicy(ps[i])) && ExactPolicy(ps, q).Some?
    ensures BehindSettled(ps, q)
  {
    hide Settled, KeepsPolicy, BehindSettled, ExactPolicy;
    ExactPolicyIsFirst(ps, q);
    BehindSettledAt(ps, q, FindExact(ps, q, 0));
  }

  /** What an operation does to the rules before they are saved. */
  lemma PerformRules(m: Manifest, op: Op)
    ensures var (saved, outcome) := Perform(m, op);
      var r := NormalizeRequest(op.request);
      && (outcome == Granted <==> op.Apply? && saved.Some?)
      && (saved.Some? ==> saved.value.agentId == m.agentId)
      && (saved.Some? && op.Evaluate? ==> saved.value.policies == m.policies)
      && (saved.Some? && op.Apply? ==>
            var policy := NormalizeToken(op.policy, POLICY_SIZE, true);
            && KeepsPolicy(PolicyEntry(r, policy)) && SetPolicy(m.policies, r, policy) == Some(saved.value.policies)
            && (|m.policies| <= MAX_POLICIES ==> |saved.value.policies| <= MAX_POLICIES))
  {
    hide NormalizeRequest, NormalizeToken, IsPolicyValue, RemovePending, Ruling, AddPending;
  }

  /** After every run on the file, the first rule for exactly a firm request is the last one granted, whatever else
      was granted or evaluated. */
  lemma {:induction false} FileGrantGoverns(agentId: string, ops: seq<Op>, k: nat, q: Request)
    requires IsValidAgentId(agentId) && k <= |ops| && Firm(q)
    ensures SettledFile(agentId, RunFile(agentId, "", ops, k))
    ensures var latest := LatestGrantOnFile(agentId, ops, k, q);
      latest.Some? ==> ExactPolicy(Load(agentId, RunFile(agentId, "", ops, k)).value.policies, q) == latest
  {
    hide Load, StepFile, SettledFile, ExactPolicy, Firm, IsValidAgentId, NormalizeRequest, NormalizeToken;
    if k == 0 {
      EmptyIsSettled(agentId);
    } else {
      FileGrantGoverns(agentId, ops, k - 1, q);
      StepKeepsExactPolicy(agentId, RunFile(agentId, "", ops, k - 1), ops[k - 1], q);
    }
  }

  lemma EmptyIsSettled(agentId: string)
    ensures SettledFile(agentId, "")
  {
    MissingFile(agentId);
    hide Load;
  }

  /** In every run with saves and reloads between the steps, an evaluation of a firm request for which a rule was
      granted is decided by the last rule granted for exactly that request, whatever else was granted or evaluated
      before or after. */
  lemma LatestExactGrantDecides(agentId: string, ops: seq<Op>, k: nat)
    requires IsValidAgentId(agentId) && k < |ops| && ops[k].Evaluate?
      && Firm(NormalizeRequest(ops[k].request))
    requires LatestGrantOnFile(agentId, ops, k, NormalizeRequest(ops[k].request)).Some?
    ensures var outcome := StepFile(agentId, RunFile(agentId, "", ops, k), ops[k]).1;
      var policy := LatestGrantOnFile(agentId, ops, k, NormalizeRequest(ops[k].request)).value;
      && (outcome == Approved <==> policy == "always")
      && (outcome == Denied <==> policy == "never")
      && (outcome == Waiting || outcome == Refused <==> policy != "always" && policy != "never")
  {
    hide Load, StepFile, RunFile, ExactPolicy, Ruling, IsValidAgentId, NormalizeRequest, LatestGrantOnFile;
    hide InStoredForm, NoControls, Source, PolicyAsEntry, Settled, KeepsPolicy;
    var q := NormalizeRequest(ops[k].request);
    FileGrantGoverns(agentId, ops, k, q);
    LatestGrantRules(agentId, RunFile(agentId, "", ops, k), q);
    EvaluateFile(agentId, RunFile(agentId, "", ops, k), ops[k]);
  }

  /** The first rule for exactly a request is what rules it. */
  lemma LatestGrantRules(agentId: string, file: string, q: Request)
    requires Load(agentId, file).Some? && ExactPolicy(Load(agentId, file).value.policies, q).Some?
    ensures var ps := Load(agentId, file).value.policies;
      FindExact(ps, q, 0) >= 0 && Ruling(ps, q) == ExactPolicy(ps, q).value
  {
    hide Load, ExactPolicy;
    var ps := Load(agentId, file).value.policies;
    ExactPolicyIsFirst(ps, q);
    if FindExact(ps, q, 0) >= 0 { ExactRuleGoverns(ps, q); }
  }

  /** Coming back unchanged is not enough.  The request of the second rule does, but only because the value read for its
      path happens to be its path; and the first rule, read once more, becomes a rule for it. */
  lemma ComingBackIsNotEnough()
    ensures var q := Request("method", "path", "path", "path");
      var ps := [PolicyEntry(Request("method", "path", "path", "GET"), "never"), PolicyEntry(q, "always")];
      && PolicySurvives(ps[1]) && !Firm(q)
      && ExactPolicy(ps, q) == Some("always") && ExactPolicy(Survivors(ps), q) == Some("never")
  {
    PolicyWords();
    hide RecoveredPolicy, PolicySurvives, Firm, IsPolicyValue;
    PathIsNotGet();
    TwoComeBack("method", "path", "GET", "never", "always");
  }

  lemma PathIsNotGet()
    ensures "GET" != "path"
  {
    assert |"GET"| == 3 && |"path"| == 4;
  }

  lemma TwoComeBack(k: string, s: string, t: string, p: string, w: string)
    requires k == "method" && s == "path" && t == "GET" && t != s && IsPolicyValue(p) && IsPolicyValue(w)
    ensures var q := Request(k, s, s, s);
      var ps := [PolicyEntry(Request(k, s, s, t), p), PolicyEntry(q, w)];
      && PolicySurvives(ps[1]) && !Firm(q) && ExactPolicy(ps, q) == Some(w) && ExactPolicy(Survivors(ps), q) == Some(p)
  {
    hide RecoveredPolicy, PolicySurvives, Firm, PolicyAsEntry, IsPolicyValue, Source;
    var q := Request(k, s, s, s);
    var first, own := PolicyEntry(Request(k, s, s, t), p), PolicyEntry(q, w);
    MethodThenPath(first);
    MethodThenPath(own);
    PolicyRecoversIff(own);
    NotFirm(q);
    var ps := [first, own];
    assert ps[1..] == [own] && ps[1..][1..] == [];
    KeptIsFirst(first, PolicyEntry(q, p), ps);
  }

  lemma KeptIsFirst(p: PolicyEntry, back: PolicyEntry, ps: seq<PolicyEntry>)
    requires ps != [] && ps[0] == p && RecoveredPolicy(p) == back && KeepsPolicy(back)
    ensures ExactPolicy(Survivors(ps), back.request) == Some(back.policy)
  {
    hide RecoveredPolicy, IsPolicyValue;
    assert Survivors(ps)[0] == back;
  }

  lemma NotFirm(q: Request)
    requires q.kind == "method" && q.subject == "path"
    ensures !Firm(q)
  {
    var p := PolicyEntry(q, "ask");
    PolicyFields(p);
    Words();
    hide Hit, InStoredForm, NoControls, PolicyAsEntry;
    assert PolicyAsEntry(p).fields[2].key == "method";
    assert FirstHit(PolicyAsEntry(p).fields, "method") == 0;
  }

  /** With the kind "method" and the subject "path" the method is read from the subject, and the path from the method.
      */
  lemma MethodThenPath(p: PolicyEntry)
    requires p.request.kind == "method" && p.request.subject == "path" && p.request.method_ == "path"
    requires (p.request.path == "GET" || p.request.path == "path") && IsPolicyValue(p.policy)
    ensures RecoveredPolicy(p) == PolicyEntry(Request("method", "path", "path", "path"), p.policy)
  {
    hide Hit, Stored, Mangle, Source, PolicyAsEntry, IsPolicyValue, IsRequestKey, NoControl, Recovered;
    PolicyFields(p);
    var fs := PolicyAsEntry(p).fields;
    Sources(fs);
    WordsStored();
    FourWords(fs);
    PolicyReads(fs);
  }

  lemma PolicyReads(fs: seq<Pair>)
    requires |fs| == 5 && Source(fs, "policy") == 4 && IsPolicyValue(fs[4].val)
    ensures Recovered(fs, "policy") == fs[4].val
  {
    PolicyIsNoRequestKey();
    PolicyValueStored(fs[4].val);
    PolicyValueHasNoControl(fs[4].val);
    MangleIff(fs[4].val);
    hide Source, Stored, Mangle, IsPolicyValue, IsRequestKey;
  }

  lemma WordsStored()
    ensures Mangle("method") == "method" && Mangle("path") == "path"
    ensures Stored("kind", "method") == "method" && Stored("subject", "path") == "path"
    ensures Stored("method", "path") == "path" && Stored("path", "path") == "path"
  {
    hide Mangle, Stored;
    WordStored("kind", "method");
    WordStored("subject", "path");
    WordStored("method", "path");
    WordStored("path", "path");
  }

  lemma PolicyIsNoRequestKey()
    ensures !IsRequestKey("policy")
  {
  }

  lemma FourWords(fs: seq<Pair>)
    requires IsEntryFields(fs) && fs[0].val == "method" && fs[1].val == "path" && fs[2].val == "path"
    requires Source(fs, "kind") == 0 && Source(fs, "subject") == 1 && Source(fs, "method") == 1
      && Source(fs, "path") == 2
    requires Mangle("method") == "method" && Mangle("path") == "path"
    requires Stored("kind", "method") == "method" && Stored("subject", "path") == "path"
    requires Stored("method", "path") == "path" && Stored("path", "path") == "path"
    ensures RecoveredRequest(fs) == Request("method", "path", "path", "path")
  {
    hide Source, Stored, Mangle, PlainKeys;
    assert |"method"| < PATH_SIZE && |"path"| < PATH_SIZE;
  }

  /** Where the keys of such an entry are read. */
  lemma Sources(fs: seq<Pair>)
    requires |fs| == 5 && fs[0].key == "kind" && fs[1].key == "subject" && fs[2].key == "method"
    requires fs[3].key == "path" && fs[4].key == "policy"
    requires fs[0].val == "method" && fs[1].val == "path" && fs[2].val == "path"
    requires fs[3].val == "GET" || fs[3].val == "path"
    ensures Source(fs, "kind") == 0 && Source(fs, "subject") == 1 && Source(fs, "method") == 1
    ensures Source(fs, "path") == 2 && Source(fs, "policy") == 4
  {
    Words();
    hide Hit;
    assert FirstHit(fs, "kind") == 0 && FirstHit(fs, "subject") == 1 && FirstHit(fs, "method") == 0;
    assert FirstHit(fs, "path") == 1 && FirstHit(fs, "policy") == 4;
  }

  /** Which of these words are taken for which keys. */
  lemma Words()
    ensures "kind" != "subject" && "kind" != "method" && "kind" != "path" && "kind" != "policy"
    ensures "subject" != "method" && "subject" != "path" && "subject" != "policy"
    ensures "method" != "path" && "method" != "policy" && "path" != "policy"
    ensures Hit("method", "method") && Hit("path", "path") && !Hit("method", "subject") && !Hit("method", "path")
    ensures !Hit("method", "policy") && !Hit("path", "policy") && !Hit("GET", "policy")
  {
    assert |"kind"| == 4 && |"subject"| == 7 && |"method"| == 6 && |"path"| == 4 && |"policy"| == 6 && |"GET"| == 3;
    assert "kind"[0] == 'k' && "path"[0] == 'p' && "method"[0] == 'm' && "policy"[0] == 'p';
    NoQuoteNoHit("method", "subject");
    NoQuoteNoHit("method", "path");
    NoQuoteNoHit("method", "policy");
    NoQuoteNoHit("path", "policy");
    NoQuoteNoHit("GET", "policy");
  }

  /** A short word of small letters goes through the fields of a request as it is. */
  lemma WordStored(k: string, v: string)
    requires IsRequestKey(k) && 0 < |v| < POLICY_SIZE && forall i :: 0 <= i < |v| ==> 'a' <= v[i] <= 'z'
    ensures Mangle(v) == v && Stored(k, v) == v
  {
    MangleIff(v);
    assert k != "id" && SizeOf(k) >= POLICY_SIZE;
    hide Mangle, SizeOf, IsRequestKey, IsLowercased;
    WordNormal(v, SizeOf(k), IsLowercased(k));
  }

  lemma WordNormal(v: string, size: nat, lowercase: bool)
    requires 0 < |v| < size && forall i :: 0 <= i < |v| ==> 'a' <= v[i] <= 'z'
    ensures NormalizeToken(v, size, lowercase) == v
  {
    TrimTrims(v);
    hide Trim;
    assert Lower(v) == v;
  }

  lemma PolicyWords()
    ensures IsPolicyValue("never") && IsPolicyValue("always")
  {
  }
}
