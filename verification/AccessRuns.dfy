/** Runs of granting and evaluating, each step loading the manifest from its file and saving it again. */
module AccessRuns {
  import opened Wrappers
  import opened CText
  import opened AccessRules
  import opened ManifestText
  import opened ManifestRoundTrip
  import opened ManifestReload
  import opened ManifestPending
  import opened ManifestTheorems

  const JSON_CAPACITY: nat := 65536

  datatype Op = Apply(request: Request, policy: string) | Evaluate(request: Request, now: nat)

  datatype Outcome =
    | Granted    // the rule is stored
    | Approved
    | Denied     // by a "never" rule
    | Waiting    // denied, and on the waiting list
    | Refused    // no room in a list or in the file: nothing changes
    | Invalid    // the arguments or the file are not acceptable: nothing changes

  // ---------- one operation on a manifest in memory ----------

  /** The manifest to save, if there is one, and the outcome provided saving succeeds. */
  function Perform(m: Manifest, op: Op): (Option<Manifest>, Outcome) {
    var r := NormalizeRequest(op.request);
    if r.kind == "" || r.subject == "" then (None, Invalid)
    else match op
      case Apply(_, policy) =>
        var p := NormalizeToken(policy, POLICY_SIZE, true);
        if !IsPolicyValue(p) then (None, Invalid)
        else (match SetPolicy(m.policies, r, p)
              case None => (None, Refused)
              case Some(ps) => (Some(m.(policies := ps, pending := RemovePending(m.pending, r))), Granted))
      case Evaluate(_, now) =>
        var ruling := Ruling(m.policies, r);
        if ruling == "always" then (None, Approved)
        else if ruling == "never" then (None, Denied)
        else match AddPending(m.pending, r, now)
          case None => (None, Refused)
          case Some(ws) => (Some(m.(pending := ws)), Waiting)
  }

  /** The same with saving: a manifest whose text does not fit is not saved. */
  function Step(m: Manifest, op: Op): (Manifest, Outcome) {
    var (saved, outcome) := Perform(m, op);
    match saved
    case None => (m, outcome)
    case Some(u) => if |Print(u)| < JSON_CAPACITY then (u, outcome) else (m, Refused)
  }

  /** What really happens: the file is read, and written when there is something to save. */
  function StepFile(agentId: string, file: string, op: Op): (string, Outcome) {
    match Load(agentId, file)
    case None => (file, Invalid)
    case Some(m) =>
      var (saved, outcome) := Perform(m, op);
      match saved
      case None => (file, outcome)
      case Some(u) => if |Print(u)| < JSON_CAPACITY then (Print(u), outcome) else (file, Refused)
  }

  /** An operation that fails or decides leaves the file as it is; and it is invalid exactly when the file belongs to
      another agent, the request lacks a kind or a subject, or what is granted is none of the three policies. */
  lemma FailureChangesNothing(agentId: string, file: string, op: Op)
    ensures var (after, outcome) := StepFile(agentId, file, op);
      && (outcome != Granted && outcome != Waiting ==> after == file)
      && (outcome == Invalid <==>
            || Load(agentId, file).None?
            || NormalizeRequest(op.request).kind == "" || NormalizeRequest(op.request).subject == ""
            || (op.Apply? && NormalizeToken(op.policy, POLICY_SIZE, true) !in {"always", "never", "ask"}))
  {
    hide Load, Print, NormalizeRequest, NormalizeToken, SetPolicy, AddPending, RemovePending, Ruling;
  }

  function Run(m: Manifest, ops: seq<Op>, k: nat): Manifest
    requires k <= |ops|
  {
    if k == 0 then m else Step(Run(m, ops, k - 1), ops[k - 1]).0
  }

  function RunFile(agentId: string, file: string, ops: seq<Op>, k: nat): string
    requires k <= |ops|
  {
    if k == 0 then file else StepFile(agentId, RunFile(agentId, file, ops, k - 1), ops[k - 1]).0
  }

  function OutcomeAt(m: Manifest, ops: seq<Op>, k: nat): Outcome
    requires k < |ops|
  {
    Step(Run(m, ops, k), ops[k]).1
  }

  // ---------- saving and reloading between steps changes nothing ----------

  ghost predicate TamePolicy(p: PolicyEntry) { KeepsPolicy(p) && PolicySurvives(p) && NoneHits([p], "pending") }

  ghost predicate TamePending(w: PendingEntry) { KeepsPending(w) && PendingSurvives(w) }

  /** What an operation would store survives the file, and is not taken for the name of the waiting list there. */
  ghost predicate Tame(op: Op) {
    var r := NormalizeRequest(op.request);
    match op
    case Apply(_, policy) =>
      var p := PolicyEntry(r, NormalizeToken(policy, POLICY_SIZE, true));
      KeepsPolicy(p) ==> TamePolicy(p)
    case Evaluate(_, now) =>
      var w := PendingEntry(RequestId(r), r, now);
      KeepsPending(w) ==> TamePending(w)
  }

  ghost predicate TameManifest(m: Manifest) {
    && IsValidAgentId(m.agentId) && |m.policies| <= MAX_POLICIES && |m.pending| <= MAX_PENDING
    && (forall p :: p in m.policies ==> TamePolicy(p))
    && (forall w :: w in m.pending ==> TamePending(w))
  }

  /** An operation is tame when the normal form of its request is stable and no value in it holds a control character
      or is taken for a key. */
  lemma HarmlessIsTame(op: Op)
    requires NormalRequest(NormalizeRequest(op.request)) && HarmlessRequest(NormalizeRequest(op.request))
    ensures Tame(op)
  {
    hide NormalizeRequest, NormalRequest, HarmlessRequest, PolicySurvives, PendingSurvives, RequestId, NoneHits;
    hide NormalizeToken;
    hide IsPolicyValue;
    var r := NormalizeRequest(op.request);
    match op {
      case Apply(_, policy) =>
        var p := PolicyEntry(r, NormalizeToken(policy, POLICY_SIZE, true));
        if KeepsPolicy(p) {
          HarmlessPolicySurvives(p);
          HarmlessHitsNothing(p);
        }
      case Evaluate(_, now) => HarmlessPendingSurvives(PendingEntry(RequestId(r), r, now));
    }
  }

  lemma HarmlessHitsNothing(p: PolicyEntry)
    requires HarmlessRequest(p.request) && IsPolicyValue(p.policy)
    ensures NoneHits([p], "pending")
  {
    assert IsLookedUp("pending");
    hide Hit, IsPolicyValue, IsLookedUp, PolicyAsEntry, HarmlessRequest;
    HarmlessEntry(p, "pending");
  }

  lemma HarmlessEntry(p: PolicyEntry, k: string)
    requires HarmlessRequest(p.request) && IsPolicyValue(p.policy) && IsLookedUp(k)
    ensures |PolicyAsEntry(p).fields| == 5 && forall j :: 0 <= j < 5 ==> !Hit(PolicyAsEntry(p).fields[j].val, k)
  {
    hide Hit, IsPolicyValue, IsLookedUp, NoControl;
    PolicyFields(p);
    PolicyValueHarmless(p.policy);
  }

  /** Every entry of a manifest survives the file. */
  ghost predicate ManifestSurvives(m: Manifest) {
    && (forall i :: 0 <= i < |m.policies| ==> PolicySurvives(m.policies[i]))
    && (forall i :: 0 <= i < |m.pending| ==> PendingSurvives(m.pending[i]))
  }

  lemma TameReloads(m: Manifest)
    requires TameManifest(m)
    ensures Load(m.agentId, Print(m)) == Some(m) && ManifestSurvives(m)
  {
    hide Load, Print, PolicySurvives, PendingSurvives, KeepsPolicy, KeepsPending, NoneHits, IsValidAgentId;
    hide PendingInSight;
    forall i | 0 <= i < |m.policies| ensures TamePolicy(m.policies[i]) { assert m.policies[i] in m.policies; }
    forall i | 0 <= i < |m.pending| ensures TamePending(m.pending[i]) { assert m.pending[i] in m.pending; }
    TameHitsNothing(m.policies);
    NoneHitsInSight(m.policies);
    RoundTrip(m);
  }

  lemma TameHitsNothing(ps: seq<PolicyEntry>)
    requires forall p :: p in ps ==> TamePolicy(p)
    ensures NoneHits(ps, "pending")
  {
    hide Hit, PolicySurvives, KeepsPolicy;
    forall i | 0 <= i < |ps| ensures forall j :: 0 <= j < 5 ==> !Hit(PolicyAsEntry(ps[i]).fields[j].val, "pending") {
      assert ps[i] in ps;
      assert [ps[i]][0] == ps[i];
    }
  }

  lemma SetPolicyTame(ps: seq<PolicyEntry>, r: Request, policy: string)
    requires (forall p :: p in ps ==> TamePolicy(p)) && SetPolicy(ps, r, policy).Some? && |ps| <= MAX_POLICIES
    requires TamePolicy(PolicyEntry(r, policy))
    ensures var u := SetPolicy(ps, r, policy).value; |u| <= MAX_POLICIES && forall p :: p in u ==> TamePolicy(p)
  {
    hide TamePolicy;
    var u := SetPolicy(ps, r, policy).value;
    forall p | p in u ensures TamePolicy(p) {
      if p !in ps { assert p == PolicyEntry(r, policy); }
    }
  }

  lemma PerformTame(m: Manifest, op: Op)
    requires TameManifest(m) && Tame(op) && Perform(m, op).0.Some?
    ensures TameManifest(Perform(m, op).0.value) && Perform(m, op).0.value.agentId == m.agentId
  {
    hide NormalizeRequest, PolicySurvives, PendingSurvives, NoneHits, IsPolicyValue, RequestId, NormalizeToken;
    hide Matches, IsValidAgentId;
    hide Ruling, SetPolicy;
    var r := NormalizeRequest(op.request);
    match op {
      case Apply(_, policy) =>
        RemovePendingRequests(m.pending, r);
        SetPolicyTame(m.policies, r, NormalizeToken(policy, POLICY_SIZE, true));
      case Evaluate(_, now) =>
    }
  }

  lemma StepTame(m: Manifest, op: Op)
    requires TameManifest(m) && Tame(op)
    ensures TameManifest(Step(m, op).0) && Step(m, op).0.agentId == m.agentId
  {
    hide Perform, TameManifest, Tame, Print;
    if Perform(m, op).0.Some? { PerformTame(m, op); }
  }

  /** From the file a manifest is on, a step has the outcome it has in memory, and what is then on file is what is in
      memory exactly when that survives. */
  lemma StepFileIsStepIff(agentId: string, file: string, m: Manifest, op: Op)
    requires StoredManifest(m) && m.agentId == agentId && Load(agentId, file) == Some(m) && ManifestSurvives(m)
    requires PendingInSight(Step(m, op).0.policies)
    ensures var (after, outcome) := StepFile(agentId, file, op);
      && outcome == Step(m, op).1
      && (Load(agentId, after) == Some(Step(m, op).0) <==> ManifestSurvives(Step(m, op).0))
  {
    hide Perform, StoredManifest, Print, Load, PendingInSight, ManifestSurvives;
    StepStored(m, op);
    if Step(m, op).0 != m {
      RoundTrip(Step(m, op).0);
      SurvivesAll(Step(m, op).0);
    } else if Perform(m, op).0 == Some(m) {
      RoundTrip(m);
      SurvivesAll(m);
    }
  }

  lemma SurvivesAll(m: Manifest)
    ensures ManifestSurvives(m) <==> (
      && (forall i :: 0 <= i < |m.policies| ==> PolicySurvives(m.policies[i]))
      && (forall i :: 0 <= i < |m.pending| ==> PendingSurvives(m.pending[i])))
  {
    hide PolicySurvives, PendingSurvives;
  }

  /** The operations only store requests that have a kind and a subject, and policies that are one of the three. */
  lemma StepStored(m: Manifest, op: Op)
    requires StoredManifest(m)
    ensures StoredManifest(Step(m, op).0) && Step(m, op).0.agentId == m.agentId
  {
    hide Perform, StoredManifest, Print;
    if Perform(m, op).0.Some? { PerformStored(m, op); }
  }

  lemma PerformStored(m: Manifest, op: Op)
    requires StoredManifest(m) && Perform(m, op).0.Some?
    ensures StoredManifest(Perform(m, op).0.value) && Perform(m, op).0.value.agentId == m.agentId
  {
    hide NormalizeRequest, IsPolicyValue, RequestId, NormalizeToken, Matches, IsValidAgentId, Ruling;
    var r := NormalizeRequest(op.request);
    if op.Apply? {
      RemovePendingRequests(m.pending, r);
      var rest := RemovePending(m.pending, r);
      forall i | 0 <= i < |rest| ensures KeepsPending(rest[i]) { assert rest[i] in m.pending; }
    }
  }

  lemma MissingFile(agentId: string)
    ensures Load(agentId, "") == Some(Manifest(agentId, [], []))
  {
    NothingInEmpty("agent_id");
    NothingInEmpty("policies");
    NothingInEmpty("pending");
    hide Needle, After;
  }

  lemma NothingInEmpty(k: string)
    ensures After("", Needle(k)) == None
  {
    assert |Needle(k)| >= 2;
  }

  /** Over every run, starting without a file: the file holds all along what a manifest kept in memory would be
      exactly when every manifest of the run survives, as long as the waiting list is found in its place. */
  lemma {:induction false} RunFileIsRunIff(agentId: string, ops: seq<Op>, k: nat)
    requires IsValidAgentId(agentId) && k <= |ops|
    requires forall j :: 0 <= j <= k ==> PendingInSight(Run(Manifest(agentId, [], []), ops, j).policies)
    ensures var m := Run(Manifest(agentId, [], []), ops, k); StoredManifest(m) && m.agentId == agentId
    ensures var start := Manifest(agentId, [], []);
      (forall j :: 0 <= j <= k ==> Load(agentId, RunFile(agentId, "", ops, j)) == Some(Run(start, ops, j)))
      <==> (forall j :: 0 <= j <= k ==> ManifestSurvives(Run(start, ops, j)))
  {
    hide Load, Step, StepFile, StoredManifest, ManifestSurvives, PendingInSight, IsValidAgentId;
    if k == 0 {
      MissingFile(agentId);
      NothingStored(agentId);
    } else {
      RunFileIsRunIff(agentId, ops, k - 1);
      var m := Run(Manifest(agentId, [], []), ops, k - 1);
      StepStored(m, ops[k - 1]);
      assert Run(Manifest(agentId, [], []), ops, k) == Step(m, ops[k - 1]).0;
      if Load(agentId, RunFile(agentId, "", ops, k - 1)) == Some(m) && ManifestSurvives(m) {
        StepFileIsStepIff(agentId, RunFile(agentId, "", ops, k - 1), m, ops[k - 1]);
      }
    }
  }

  lemma NothingStored(agentId: string)
    requires IsValidAgentId(agentId)
    ensures StoredManifest(Manifest(agentId, [], [])) && ManifestSurvives(Manifest(agentId, [], []))
    ensures TameManifest(Manifest(agentId, [], []))
  {
  }

  /** Every manifest of the first `k` operations survives the file, and its waiting list is found in its place. */
  ghost predicate RunSurvives(agentId: string, ops: seq<Op>, k: nat)
    requires k <= |ops|
  {
    forall j :: 0 <= j <= k ==>
      var m := Run(Manifest(agentId, [], []), ops, j); PendingInSight(m.policies) && ManifestSurvives(m)
  }

  /** It does when every operation is tame. */
  lemma {:induction false} TameRunSurvives(agentId: string, ops: seq<Op>, k: nat)
    requires IsValidAgentId(agentId) && k <= |ops| && forall op :: op in ops ==> Tame(op)
    ensures RunSurvives(agentId, ops, k)
  {
    hide Load, Run, RunFile, Step, StepFile, Tame, TameManifest, IsValidAgentId, PendingInSight, ManifestSurvives;
    forall j | 0 <= j <= k
      ensures var m := Run(Manifest(agentId, [], []), ops, j); PendingInSight(m.policies) && ManifestSurvives(m)
    {
      RunFileIsRun(agentId, ops, j);
      TameIsStored(Run(Manifest(agentId, [], []), ops, j));
      TameReloads(Run(Manifest(agentId, [], []), ops, j));
    }
  }

  /** So it is over every run of tame operations, and every step has the same outcome. */
  lemma {:induction false} RunFileIsRun(agentId: string, ops: seq<Op>, k: nat)
    requires IsValidAgentId(agentId) && k <= |ops| && forall op :: op in ops ==> Tame(op)
    ensures var m := Run(Manifest(agentId, [], []), ops, k);
      && TameManifest(m) && m.agentId == agentId
      && Load(agentId, RunFile(agentId, "", ops, k)) == Some(m)
    ensures k < |ops| ==>
      StepFile(agentId, RunFile(agentId, "", ops, k), ops[k]).1 == OutcomeAt(Manifest(agentId, [], []), ops, k)
  {
    hide Load, Step, StepFile, Tame, TameManifest, IsValidAgentId;
    if k == 0 {
      MissingFile(agentId);
      NothingStored(agentId);
    } else {
      RunFileIsRun(agentId, ops, k - 1);
      assert ops[k - 1] in ops;
      TameStep(agentId, RunFile(agentId, "", ops, k - 1), Run(Manifest(agentId, [], []), ops, k - 1), ops[k - 1]);
    }
    if k < |ops| {
      assert ops[k] in ops;
      TameStep(agentId, RunFile(agentId, "", ops, k), Run(Manifest(agentId, [], []), ops, k), ops[k]);
    }
  }

  lemma TameStep(agentId: string, file: string, m: Manifest, op: Op)
    requires TameManifest(m) && Tame(op) && m.agentId == agentId && Load(agentId, file) == Some(m)
    ensures TameManifest(Step(m, op).0) && Step(m, op).0.agentId == agentId
    ensures var (after, outcome) := StepFile(agentId, file, op);
      Load(agentId, after) == Some(Step(m, op).0) && outcome == Step(m, op).1
  {
    hide Tame, Load, Step, StepFile, PendingInSight, TameManifest;
    StepTame(m, op);
    TameReloads(m);
    TameReloads(Step(m, op).0);
    TameIsStored(m);
    TameIsStored(Step(m, op).0);
    StepFileIsStepIff(agentId, file, m, op);
  }

  lemma TameIsStored(m: Manifest)
    requires TameManifest(m)
    ensures StoredManifest(m) && PendingInSight(m.policies)
  {
    hide PolicySurvives, PendingSurvives, NoneHits, IsValidAgentId, KeepsPolicy, KeepsPending;
    TameHitsNothing(m.policies);
    NoneHitsInSight(m.policies);
    hide PendingInSight;
    forall i | 0 <= i < |m.policies| ensures KeepsPolicy(m.policies[i]) { assert m.policies[i] in m.policies; }
    forall i | 0 <= i < |m.pending| ensures KeepsPending(m.pending[i]) { assert m.pending[i] in m.pending; }
  }

  // ---------- the latest rule for exactly a request decides it ----------

  /** The policy of the last successful grant, among the first `k` operations, for exactly `q`. */
  function LatestGrant(m: Manifest, ops: seq<Op>, k: nat, q: Request): Option<string>
    requires k <= |ops|
  {
    if k == 0 then None
    else
      var op := ops[k - 1];
      if op.Apply? && OutcomeAt(m, ops, k - 1) == Granted && NormalizeRequest(op.request) == q
      then Some(NormalizeToken(op.policy, POLICY_SIZE, true))
      else LatestGrant(m, ops, k - 1, q)
  }

  /** What a step does to the rules. */
  lemma StepRules(m: Manifest, op: Op)
    ensures var (u, outcome) := Step(m, op);
      if op.Apply? && outcome == Granted then
        SetPolicy(m.policies, NormalizeRequest(op.request), NormalizeToken(op.policy, POLICY_SIZE, true))
          == Some(u.policies)
      else u.policies == m.policies
  {
    hide Print, NormalizeRequest, NormalizeToken, SetPolicy, RemovePending, AddPending, Ruling, IsPolicyValue;
  }

  lemma {:induction false} LatestGrantGoverns(m: Manifest, ops: seq<Op>, k: nat, q: Request)
    requires k <= |ops| && LatestGrant(m, ops, k, q).Some?
    ensures var ps := Run(m, ops, k).policies;
      FindExact(ps, q, 0) >= 0 && Ruling(ps, q) == LatestGrant(m, ops, k, q).value
  {
    hide Step, NormalizeRequest, NormalizeToken, Ruling;
    var before, op := Run(m, ops, k - 1), ops[k - 1];
    StepRules(before, op);
    if op.Apply? && OutcomeAt(m, ops, k - 1) == Granted {
      var r, p := NormalizeRequest(op.request), NormalizeToken(op.policy, POLICY_SIZE, true);
      GrantSettles(before.policies, r, p);
      if r != q {
        LatestGrantGoverns(m, ops, k - 1, q);
        GrantKeepsExactRules(before.policies, r, p, q);
      }
    } else {
      LatestGrantGoverns(m, ops, k - 1, q);
    }
  }

  /** How an evaluation follows from the ruling. */
  lemma EvaluateFollowsRuling(m: Manifest, op: Op)
    requires op.Evaluate? && NormalizeRequest(op.request).kind != "" && NormalizeRequest(op.request).subject != ""
    ensures var ruling, outcome := Ruling(m.policies, NormalizeRequest(op.request)), Step(m, op).1;
      && (outcome == Approved <==> ruling == "always")
      && (outcome == Denied <==> ruling == "never")
      && (outcome == Waiting || outcome == Refused <==> ruling != "always" && ruling != "never")
  {
    hide Print, NormalizeRequest, AddPending, Ruling;
  }

  /** On a file an evaluation has the outcome it has on the manifest that is loaded. */
  lemma EvaluateFile(agentId: string, file: string, op: Op)
    requires op.Evaluate? && NormalizeRequest(op.request).kind != "" && NormalizeRequest(op.request).subject != ""
    requires Load(agentId, file).Some?
    ensures var ruling := Ruling(Load(agentId, file).value.policies, NormalizeRequest(op.request));
      var outcome := StepFile(agentId, file, op).1;
      && (outcome == Approved <==> ruling == "always")
      && (outcome == Denied <==> ruling == "never")
      && (outcome == Waiting || outcome == Refused <==> ruling != "always" && ruling != "never")
  {
    EvaluateFollowsRuling(Load(agentId, file).value, op);
    hide Load, Perform, Print, Ruling, NormalizeRequest;
  }

  // ---------- the waiting list ----------

  /** Operation `i` put `q` on the waiting list (or found it there) and no grant among `i+1..k` matches it. */
  ghost predicate StillWaiting(m: Manifest, ops: seq<Op>, i: nat, k: nat, q: Request) {
    && i < k <= |ops| && ops[i].Evaluate? && NormalizeRequest(ops[i].request) == q && OutcomeAt(m, ops, i) == Waiting
    && forall j :: i < j < k && ops[j].Apply? && OutcomeAt(m, ops, j) == Granted ==>
      !Matches(NormalizeRequest(ops[j].request), q)
  }

  lemma StepWaits(m: Manifest, op: Op)
    ensures var (u, outcome) := Step(m, op);
      var r := NormalizeRequest(op.request);
      if op.Apply? && outcome == Granted then u.pending == RemovePending(m.pending, r)
      else if op.Evaluate? && outcome == Waiting then
        Ruling(m.policies, r) != "always" && Ruling(m.policies, r) != "never"
          && AddPending(m.pending, r, op.now) == Some(u.pending)
      else u.pending == m.pending
  {
    hide Print, NormalizeRequest, NormalizeToken, SetPolicy, RemovePending, AddPending, Ruling, IsPolicyValue;
  }

  ghost predicate Undecided(m: Manifest) {
    forall r :: r in Requests(m.pending) ==> Ruling(m.policies, r) != "always" && Ruling(m.policies, r) != "never"
  }

  lemma StepKeepsWaitingList(m: Manifest, op: Op)
    requires NoDuplicates(m.pending) && Undecided(m)
    ensures NoDuplicates(Step(m, op).0.pending) && Undecided(Step(m, op).0)
  {
    hide Step, NormalizeRequest, NormalizeToken, SetPolicy, RemovePending, AddPending, Ruling, Matches, NoDuplicates;
    var u, r := Step(m, op).0, NormalizeRequest(op.request);
    StepRules(m, op);
    StepWaits(m, op);
    if op.Apply? && Step(m, op).1 == Granted {
      RemovePendingRequests(m.pending, r);
      forall q | q in Requests(u.pending) ensures Ruling(u.policies, q) == Ruling(m.policies, q) {
        GrantKeepsUnmatched(m.policies, r, NormalizeToken(op.policy, POLICY_SIZE, true), q);
      }
    } else if op.Evaluate? && Step(m, op).1 == Waiting {
      AddPendingRequests(m.pending, r, op.now);
    }
  }

  /** After every run the waiting list has no duplicates, no rule decides a request on it, and it holds exactly the
      evaluations left undecided that no later grant matches. */
  lemma {:induction false} WaitingListIsExact(agentId: string, ops: seq<Op>, k: nat)
    requires k <= |ops|
    ensures var start := Manifest(agentId, [], []);
      var m := Run(start, ops, k);
      && NoDuplicates(m.pending) && Undecided(m)
      && forall q :: q in Requests(m.pending) <==> exists i: nat :: StillWaiting(start, ops, i, k, q)
  {
    hide Step, NormalizeRequest, Matches, NoDuplicates, Undecided;
    var start := Manifest(agentId, [], []);
    if k == 0 {
      EmptyWaitingList(agentId);
    } else {
      WaitingListIsExact(agentId, ops, k - 1);
      var before := Run(start, ops, k - 1);
      StepKeepsWaitingList(before, ops[k - 1]);
      forall q ensures q in Requests(Run(start, ops, k).pending) <==>
        exists i: nat :: StillWaiting(start, ops, i, k, q) {
        WaitingStep(start, ops, k - 1, k, q);
      }
    }
  }

  /** The same of the file, with a save and a reload between the steps, as long as every manifest of the run survives.
      */
  lemma WaitingFileIsExact(agentId: string, ops: seq<Op>, k: nat)
    requires IsValidAgentId(agentId) && k <= |ops| && RunSurvives(agentId, ops, k)
    ensures var loaded := Load(agentId, RunFile(agentId, "", ops, k));
      && loaded.Some? && NoDuplicates(loaded.value.pending) && Undecided(loaded.value)
      && forall q :: q in Requests(loaded.value.pending) <==>
           exists i: nat :: StillWaiting(Manifest(agentId, [], []), ops, i, k, q)
  {
    hide Step, StepFile, Load, PendingInSight, ManifestSurvives, IsValidAgentId, StillWaiting, NoDuplicates, Undecided;
    RunFileIsRunIff(agentId, ops, k);
    WaitingListIsExact(agentId, ops, k);
  }

  lemma EmptyWaitingList(agentId: string)
    ensures NoDuplicates([]) && Undecided(Manifest(agentId, [], []))
  {
  }

  lemma WaitingStep(start: Manifest, ops: seq<Op>, n: nat, k: nat, q: Request)
    requires n + 1 == k <= |ops|
    requires q in Requests(Run(start, ops, n).pending) <==> exists i: nat :: StillWaiting(start, ops, i, n, q)
    ensures q in Requests(Run(start, ops, k).pending) <==> exists i: nat :: StillWaiting(start, ops, i, k, q)
  {
    hide Step, NormalizeRequest, Matches, RemovePending, AddPending, Ruling;
    var before, op := Run(start, ops, n), ops[n];
    var r, outcome := NormalizeRequest(op.request), OutcomeAt(start, ops, n);
    var matched := op.Apply? && outcome == Granted && Matches(r, q);
    var added := op.Evaluate? && outcome == Waiting && r == q;
    StepWaits(before, op);
    forall i: nat ensures StillWaiting(start, ops, i, k, q) <==>
      (StillWaiting(start, ops, i, n, q) && !matched) || (i == n && added) {
    }
    if op.Apply? && outcome == Granted { RemovePendingRequests(before.pending, r); }
    if op.Evaluate? && outcome == Waiting { AddPendingRequests(before.pending, r, op.now); }
    assert q in Requests(Run(start, ops, k).pending) <==> (q in Requests(before.pending) && !matched) || added;
    if added { assert StillWaiting(start, ops, n, k, q); }
    if i: nat :| StillWaiting(start, ops, i, n, q) { assert !matched ==> StillWaiting(start, ops, i, k, q); }
  }
}
