/** Single runs: a grant that decides another request than its own, and a request that waits in vain. */
module RunInstances {
  import opened Wrappers
  import opened CText
  import opened AccessRules
  import opened ManifestText
  import opened ManifestRoundTrip
  import opened ManifestReload
  import opened ManifestPending
  import opened ManifestTheorems
  import opened AccessRuns
  import opened GrantRuns
  import opened FirmRequests
  import opened ShieldedRuns
  import opened GrantConverse

  // ---------- a rule that becomes one for another request ----------

  /** No value of these rules is as long as the name of the waiting list. */
  ghost predicate ShortWords(ps: seq<PolicyEntry>) {
    forall i :: 0 <= i < |ps| ==>
      && |ps[i].request.kind| < 7 && |ps[i].request.subject| < 7 && |ps[i].request.method_| < 7
      && |ps[i].request.path| < 7 && |ps[i].policy| < 7
  }

  lemma ShortWordsHitNothing(ps: seq<PolicyEntry>)
    requires ShortWords(ps)
    ensures NoneHits(ps, "pending")
  {
    hide Hit;
    forall i, j | 0 <= i < |ps| && 0 <= j < 5 ensures !Hit(PolicyAsEntry(ps[i]).fields[j].val, "pending") {
      KeyEnds();
      ShorterIsNoKey(PolicyAsEntry(ps[i]).fields[j].val, "pending");
    }
  }

  lemma NothingPending(agentId: string, ps: seq<PolicyEntry>)
    requires IsValidAgentId(agentId) && |ps| <= MAX_POLICIES && ShortWords(ps)
    requires forall i :: 0 <= i < |ps| ==> KeepsPolicy(ps[i])
    ensures LoadPending(Print(Manifest(agentId, ps, []))) == []
  {
    hide Print, LoadPending, IsValidAgentId, KeepsPolicy, NoneHits, PendingInSight, ShortWords, PendingSurvives;
    ShortWordsHitNothing(ps);
    NoneHitsInSight(ps);
    PendingRoundTripIff(Manifest(agentId, ps, []));
  }

  const COINCIDENCE := Request("method", "path", "path", "path")
  const FIRST_RULE := Request("method", "path", "GET", "zzz")
  const READ_ONCE := Request("method", "path", "path", "GET")

  lemma WordsAre()
    ensures NormalRequest(COINCIDENCE) && NormalRequest(FIRST_RULE)
    ensures FIRST_RULE != COINCIDENCE && READ_ONCE != COINCIDENCE
    ensures ShortWords([PolicyEntry(FIRST_RULE, "never")])
    ensures ShortWords([PolicyEntry(READ_ONCE, "never"), PolicyEntry(COINCIDENCE, "always")])
    ensures KeepsPolicy(PolicyEntry(FIRST_RULE, "never")) && KeepsPolicy(PolicyEntry(READ_ONCE, "never"))
    ensures KeepsPolicy(PolicyEntry(COINCIDENCE, "always"))
  {
    WordLengths();
    PolicyWords();
    WordsNormal();
    hide IsPolicyValue, NormalizeRequest;
  }

  lemma WordLengths()
    ensures |"method"| == 6 && |"path"| == 4 && |"GET"| == 3 && |"zzz"| == 3 && |"never"| == 5 && |"always"| == 6
  {
  }

  lemma WordsNormal()
    ensures NormalRequest(COINCIDENCE) && NormalRequest(FIRST_RULE)
  {
    PlainWord("method");
    PlainWord("path");
    PlainWord("zzz");
    NormalGet();
    hide NormalizeToken;
  }

  lemma PlainWord(v: string)
    requires 0 < |v| < POLICY_SIZE && forall i :: 0 <= i < |v| ==> 'a' <= v[i] <= 'z'
    ensures NormalizeToken(v, KIND_SIZE, true) == v && NormalizeToken(v, SUBJECT_SIZE, true) == v
    ensures NormalizeToken(v, METHOD_SIZE, false) == v && NormalizeToken(v, PATH_SIZE, false) == v
  {
    hide NormalizeToken;
    WordNormal(v, KIND_SIZE, true);
    WordNormal(v, SUBJECT_SIZE, true);
    WordNormal(v, METHOD_SIZE, false);
    WordNormal(v, PATH_SIZE, false);
  }

  lemma NormalGet()
    ensures NormalizeToken("GET", METHOD_SIZE, false) == "GET"
  {
    NormalizedIff("GET", METHOD_SIZE, false);
    hide NormalizeToken;
  }

  /** What the rules of the run read back as. */
  lemma CoincidenceReads()
    ensures RecoveredPolicy(PolicyEntry(FIRST_RULE, "never")) == PolicyEntry(READ_ONCE, "never")
    ensures RecoveredPolicy(PolicyEntry(READ_ONCE, "never")) == PolicyEntry(COINCIDENCE, "never")
    ensures RecoveredPolicy(PolicyEntry(COINCIDENCE, "always")) == PolicyEntry(COINCIDENCE, "always")
  {
    PolicyWords();
    hide RecoveredPolicy, IsPolicyValue;
    FirstRuleReads("method", "path", "GET", "zzz", "never");
    MethodThenPath(PolicyEntry(READ_ONCE, "never"));
    MethodThenPath(PolicyEntry(COINCIDENCE, "always"));
  }

  lemma FirstRuleReads(k: string, s: string, m: string, t: string, p: string)
    requires k == "method" && s == "path" && m == "GET" && t == "zzz" && IsPolicyValue(p)
    ensures RecoveredPolicy(PolicyEntry(Request(k, s, m, t), p)) == PolicyEntry(Request(k, s, s, m), p)
  {
    Words();
    WordsRead();
    PolicyReadsItself(p);
    hide RecoveredPolicy, Hit, Read, IsPolicyValue;
    RereadIs(PolicyEntry(Request(k, s, m, t), p));
  }

  lemma WordsRead()
    ensures Read("kind", "method") == "method" && Read("subject", "path") == "path" && Read("method", "path") == "path"
    ensures Read("path", "GET") == "GET"
  {
    PlainWord("method");
    PlainWord("path");
    SizesOf();
    GetReads();
    WordsStored();
    hide Read, NormalizeToken, SizeOf, IsLowercased, Mangle, Stored;
    FieldRead("kind", "method", "method");
    FieldRead("subject", "path", "path");
    FieldRead("method", "path", "path");
  }

  lemma GetReads()
    ensures Read("path", "GET") == "GET"
  {
    MangleIff("GET");
    NormalizedIff("GET", PATH_SIZE, false);
    SizesOf();
    hide Read, NormalizeToken, SizeOf, IsLowercased, Mangle;
    FieldRead("path", "GET", "GET");
  }

  /** Two grants and an evaluation: the request is denied although "always" was the last rule granted for exactly it and
      both of its rules' texts come back.  The first rule has meanwhile become one for the same request. */
  lemma CoincidenceMisleads(agentId: string)
    requires IsValidAgentId(agentId)
    ensures var q := COINCIDENCE;
      var ops := [Apply(FIRST_RULE, "never"), Apply(q, "always"), Evaluate(q, 0)];
      && LatestGrantOnFile(agentId, ops, 2, NormalizeRequest(q)) == Some("always")
      && StepFile(agentId, RunFile(agentId, "", ops, 2), ops[2]).1 == Denied
  {
    CoincidenceReached(agentId);
    WordsAre();
    hide StepFile, RunFile, LatestGrantOnFile, Reached, NormalizeRequest, COINCIDENCE, FIRST_RULE, Load, Ruling;
    hide IsValidAgentId;
    var q := COINCIDENCE;
    var ops := [Apply(FIRST_RULE, "never"), Apply(q, "always")];
    var more := [Apply(FIRST_RULE, "never"), Apply(q, "always"), Evaluate(q, 0)];
    assert more == ops + [Evaluate(q, 0)];
    DeniedNext(agentId, ops, q);
  }

  lemma DeniedNext(agentId: string, ops: seq<Op>, q: Request)
    requires NormalRequest(q) && q.kind != "" && q.subject != ""
    requires Reached(agentId, ops, [PolicyEntry(q, "never"), PolicyEntry(q, "always")], q, Some("always"))
    ensures var more := ops + [Evaluate(q, 0)];
      && LatestGrantOnFile(agentId, more, |ops|, q) == Some("always")
      && StepFile(agentId, RunFile(agentId, "", more, |ops|), more[|ops|]).1 == Denied
  {
    hide RunFile, LatestGrantOnFile, NormalizeRequest, Load, StepFile, Ruling;
    var ps := [PolicyEntry(q, "never"), PolicyEntry(q, "always")];
    PrefixRun(agentId, ops, Evaluate(q, 0), |ops|, q);
    FirstRuleWins(ps, q);
    assert (ops + [Evaluate(q, 0)])[|ops|] == Evaluate(q, 0);
    assert NormalizeRequest(q) == q;
    EvaluateFile(agentId, RunFile(agentId, "", ops, |ops|), Evaluate(q, 0));
  }

  lemma FirstRuleWins(ps: seq<PolicyEntry>, q: Request)
    requires ps != [] && ps[0].request == q
    ensures Ruling(ps, q) == ps[0].policy
  {
    assert FindExact(ps, q, 0) == 0;
    hide Matches, Score;
    ExactRuleGoverns(ps, q);
  }

  lemma CoincidenceReached(agentId: string)
    requires IsValidAgentId(agentId)
    ensures Reached(agentId, [Apply(FIRST_RULE, "never"), Apply(COINCIDENCE, "always")],
                    [PolicyEntry(COINCIDENCE, "never"), PolicyEntry(COINCIDENCE, "always")], COINCIDENCE,
                    Some("always"))
  {
    WordsAre();
    CoincidenceReads();
    hide COINCIDENCE, FIRST_RULE, READ_ONCE;
    ReadTwice(agentId, FIRST_RULE, READ_ONCE, COINCIDENCE, "never", "always");
  }

  /** A rule for `x` that reads back as one for `y` and then as one for `q`, in front of a rule for `q`. */
  lemma ReadTwice(agentId: string, x: Request, y: Request, q: Request, p: string, w: string)
    requires IsValidAgentId(agentId) && NormalRequest(x) && NormalRequest(q) && x != q && y != q
    requires ShortWords([PolicyEntry(x, p)]) && ShortWords([PolicyEntry(y, p), PolicyEntry(q, w)])
    requires KeepsPolicy(PolicyEntry(x, p)) && KeepsPolicy(PolicyEntry(y, p)) && KeepsPolicy(PolicyEntry(q, w))
    requires RecoveredPolicy(PolicyEntry(x, p)) == PolicyEntry(y, p)
    requires RecoveredPolicy(PolicyEntry(y, p)) == PolicyEntry(q, p)
    requires RecoveredPolicy(PolicyEntry(q, w)) == PolicyEntry(q, w)
    ensures Reached(agentId, [Apply(x, p), Apply(q, w)], [PolicyEntry(q, p), PolicyEntry(q, w)], q, Some(w))
  {
    hide Reached, IsValidAgentId, NormalRequest, ShortPolicy, ShortWords, RecoveredPolicy, IsPolicyValue;
    KeptRule(x, p, y);
    ReadOnce(agentId, x, y, q, p);
    ReadNext(agentId, [Apply(x, p)], PolicyEntry(y, p), q, p, w);
    assert [Apply(x, p)] + [Apply(q, w)] == [Apply(x, p), Apply(q, w)];
  }

  lemma ReadOnce(agentId: string, x: Request, y: Request, q: Request, p: string)
    requires IsValidAgentId(agentId) && NormalRequest(x) && x != q && ShortWords([PolicyEntry(x, p)])
    requires KeepsPolicy(PolicyEntry(x, p)) && KeepsPolicy(PolicyEntry(y, p))
    requires RecoveredPolicy(PolicyEntry(x, p)) == PolicyEntry(y, p)
    ensures Reached(agentId, [Apply(x, p)], [PolicyEntry(y, p)], q, None)
  {
    hide Reached, Survivors, IsValidAgentId, NormalRequest, Set, ShortPolicy, ShortWords, RecoveredPolicy, Load;
    hide KeepsPolicy;
    MissingFile(agentId);
    NothingReached(agentId, q);
    SetOnEmpty(x, p);
    WordsGranted(agentId, [], [], q, None, x, p, [PolicyEntry(x, p)]);
    OneKept(PolicyEntry(x, p));
    assert [] + [Apply(x, p)] == [Apply(x, p)];
  }

  lemma OneKept(e: PolicyEntry)
    requires KeepsPolicy(RecoveredPolicy(e))
    ensures Survivors([e]) == [RecoveredPolicy(e)]
  {
    hide Survivors, RecoveredPolicy, KeepsPolicy;
    SurvivorsOfOne(e);
    KeptBack(e);
  }

  lemma WordsGranted(agentId: string, ops: seq<Op>, ps: seq<PolicyEntry>, q: Request, latest: Option<string>,
                     x: Request, p: string, more: seq<PolicyEntry>)
    requires IsValidAgentId(agentId) && NormalRequest(x) && KeepsPolicy(PolicyEntry(x, p))
    requires Reached(agentId, ops, ps, q, latest) && |ps| <= 2 && forall i :: 0 <= i < |ps| ==> ShortPolicy(ps[i])
    requires Set(ps, x, p) == more && ShortWords(more) && |more| <= MAX_POLICIES
    requires forall i :: 0 <= i < |more| ==> KeepsPolicy(more[i])
    ensures Reached(agentId, ops + [Apply(x, p)], Survivors(more), q, if x == q then Some(p) else latest)
  {
    hide Reached, Survivors, IsValidAgentId, NormalizeRequest, Set, ShortPolicy, ShortWords, LoadPending, Print;
    hide KeepsPolicy;
    NothingPending(agentId, more);
    GrantSeen(agentId, ops, ps, q, latest, x, p);
  }

  lemma ReadNext(agentId: string, ops: seq<Op>, e: PolicyEntry, q: Request, p: string, w: string)
    requires IsValidAgentId(agentId) && NormalRequest(q) && e.request != q && ShortWords([e, PolicyEntry(q, w)])
    requires KeepsPolicy(e) && KeepsPolicy(PolicyEntry(q, w)) && ShortPolicy(e)
    requires Reached(agentId, ops, [e], q, None) && KeepsPolicy(PolicyEntry(q, p))
    requires RecoveredPolicy(e) == PolicyEntry(q, p) && RecoveredPolicy(PolicyEntry(q, w)) == PolicyEntry(q, w)
    ensures Reached(agentId, ops + [Apply(q, w)], [PolicyEntry(q, p), PolicyEntry(q, w)], q, Some(w))
  {
    hide Reached, Survivors, IsValidAgentId, NormalRequest, Set, ShortPolicy, ShortWords, RecoveredPolicy, KeepsPolicy;
    var f := PolicyEntry(q, w);
    SetOnOne(e, q, w);
    TwoKept(e, f);
    WordsGranted(agentId, ops, [e], q, None, q, w, [e, f]);
  }

  lemma TwoKept(e: PolicyEntry, f: PolicyEntry)
    requires KeepsPolicy(RecoveredPolicy(e)) && KeepsPolicy(RecoveredPolicy(f))
    ensures Survivors([e, f]) == [RecoveredPolicy(e), RecoveredPolicy(f)]
  {
    hide Survivors, RecoveredPolicy, KeepsPolicy;
    SurvivorsOfTwo(e, f);
    KeptBack(e);
    KeptBack(f);
    hide BackOf;
    assert [RecoveredPolicy(e)] + [RecoveredPolicy(f)] == [RecoveredPolicy(e), RecoveredPolicy(f)];
  }

  lemma KeptRule(x: Request, p: string, y: Request)
    requires RecoveredPolicy(PolicyEntry(x, p)) == PolicyEntry(y, p) && KeepsPolicy(PolicyEntry(y, p))
    ensures ShortPolicy(PolicyEntry(y, p))
  {
    hide RecoveredPolicy, ShortRequest, IsPolicyValue;
    RecoveredIsShort(PolicyEntry(x, p));
  }

  lemma SetOnOne(e: PolicyEntry, q: Request, w: string)
    requires e.request != q
    ensures Set([e], q, w) == [e, PolicyEntry(q, w)]
  {
    assert FindExact([e], q, 0) == -1;
  }

  // ---------- a request that waits in vain ----------

  /** Whatever request waits: behind a shield it is not on the file's waiting list, although no rule decides it. */
  lemma WaitsInVain(agentId: string, x: Request)
    requires IsValidAgentId(agentId) && NormalizeRequest(x).kind != "" && NormalizeRequest(x).subject != ""
    ensures var q := NormalizeRequest(x);
      var ops := [Apply(Shield(ShieldFor(q)).request, "ask"), Evaluate(x, 0)];
      var loaded := Load(agentId, RunFile(agentId, "", ops, 2));
      && StillWaiting(Manifest(agentId, [], []), ops, 1, 2, q)
      && StepFile(agentId, RunFile(agentId, "", ops, 1), ops[1]).1 == Waiting
      && loaded.Some? && loaded.value.pending == []
  {
    var c := ShieldFor(NormalizeRequest(x));
    hide NormalizeRequest, Shield, Load, RunFile, StepFile, StillWaiting, IsValidAgentId, ShieldFor;
    ShieldIsShield(c);
    ShieldWaits(agentId, Shield(c), x, c);
  }

  lemma ShieldIsShield(c: char)
    requires ShieldKind(c)
    ensures var s := Shield(c);
      && s.request.kind == [c] && KeepsPolicy(s) && s.policy == "ask" && NormalRequest(s.request) && ShortPolicy(s)
  {
    ShieldKindIs(c);
    AsksFor(c);
    ShieldIsNormal(c);
    ShieldReloads(c);
    hide NormalizeRequest, Shield, ShortRequest, IsPolicyValue;
  }

  lemma ShieldWaits(agentId: string, s: PolicyEntry, x: Request, c: char)
    requires IsValidAgentId(agentId) && ShieldKind(c) && s == Shield(c) && s.request.kind != NormalizeRequest(x).kind
    requires KeepsPolicy(s) && s.policy == "ask" && NormalRequest(s.request) && ShortPolicy(s)
    requires NormalizeRequest(x).kind != "" && NormalizeRequest(x).subject != ""
    ensures var ops := [Apply(s.request, "ask"), Evaluate(x, 0)];
      var loaded := Load(agentId, RunFile(agentId, "", ops, 2));
      && StillWaiting(Manifest(agentId, [], []), ops, 1, 2, NormalizeRequest(x))
      && StepFile(agentId, RunFile(agentId, "", ops, 1), ops[1]).1 == Waiting
      && loaded.Some? && loaded.value.pending == []
  {
    var q := NormalizeRequest(x);
    hide NormalizeRequest, Shield, Reached, Load, RunFile, StepFile, StillWaiting, IsValidAgentId, ShortPolicy;
    hide KeepsPolicy, Ruling, ShieldKind;
    ShieldReached(agentId, c, q);
    Unruled(s, q);
    WaitsBehind(agentId, s, x, c);
    WaitsInMemory(agentId, s, x);
    assert [Apply(s.request, "ask"), Evaluate(x, 0)] == [Apply(s.request, "ask")] + [Evaluate(x, 0)];
  }

  lemma Unruled(s: PolicyEntry, q: Request)
    requires s.request.kind != q.kind
    ensures Ruling([s], q) == ""
  {
    OtherKind(s.request, q);
    hide Matches, Ruling;
    NoneMatch([s], q);
  }

  /** The manifest with the request on its waiting list. */
  function Queued(agentId: string, s: PolicyEntry, q: Request): Manifest {
    Manifest(agentId, [s], [PendingEntry(RequestId(q), q, 0)])
  }

  lemma QueuedFits(agentId: string, s: PolicyEntry, x: Request)
    requires IsValidAgentId(agentId) && ShortPolicy(s)
    ensures |Print(Queued(agentId, s, NormalizeRequest(x)))| < JSON_CAPACITY
    ensures |Print(Manifest(agentId, [s], []))| < JSON_CAPACITY
  {
    NormalizedIsShort(x);
    hide Print, IsValidAgentId, ShortPolicy, NormalizeRequest, RequestId, ShortRequest;
    PrintedLength(Queued(agentId, s, NormalizeRequest(x)));
    PrintedLength(Manifest(agentId, [s], []));
  }

  lemma PerformQueues(agentId: string, s: PolicyEntry, x: Request)
    requires NormalizeRequest(x).kind != "" && NormalizeRequest(x).subject != ""
    requires Ruling([s], NormalizeRequest(x)) == ""
    ensures Perform(Manifest(agentId, [s], []), Evaluate(x, 0)) ==
      (Some(Queued(agentId, s, NormalizeRequest(x))), Waiting)
  {
    hide NormalizeRequest, Ruling, RequestId;
    var q := NormalizeRequest(x);
    assert Requests([]) == {};
    var w := PendingEntry(RequestId(q), q, 0);
    assert [] + [w] == [w];
    assert AddPending([], q, 0) == Some([w]);
    assert |"always"| == 6 && |"never"| == 5;
  }

  lemma WaitsBehind(agentId: string, s: PolicyEntry, x: Request, c: char)
    requires IsValidAgentId(agentId) && ShieldKind(c) && s == Shield(c) && ShortPolicy(s)
    requires NormalizeRequest(x).kind != "" && NormalizeRequest(x).subject != ""
    requires Ruling([s], NormalizeRequest(x)) == ""
    requires Reached(agentId, [Apply(s.request, "ask")], [s], NormalizeRequest(x), None)
    ensures var ops := [Apply(s.request, "ask")] + [Evaluate(x, 0)];
      var loaded := Load(agentId, RunFile(agentId, "", ops, 2));
      && StepFile(agentId, RunFile(agentId, "", ops, 1), ops[1]).1 == Waiting
      && loaded.Some? && loaded.value.pending == []
  {
    var q := NormalizeRequest(x);
    var u := Queued(agentId, s, q);
    var ops := [Apply(s.request, "ask")];
    hide NormalizeRequest, Shield, Load, LoadPending, Print, IsValidAgentId, ShortPolicy, Ruling, StepFile;
    hide LatestGrantOnFile, ShieldKind, RunFile;
    PrefixRun(agentId, ops, Evaluate(x, 0), 1, q);
    assert (ops + [Evaluate(x, 0)])[1] == Evaluate(x, 0);
    LastStep(agentId, ops + [Evaluate(x, 0)], 2);
    StepQueues(agentId, RunFile(agentId, "", ops, 1), s, x);
    ShieldHides(u, c);
    QueuedLoads(u);
  }

  lemma LastStep(agentId: string, ops: seq<Op>, k: nat)
    requires 0 < k <= |ops|
    ensures RunFile(agentId, "", ops, k) == StepFile(agentId, RunFile(agentId, "", ops, k - 1), ops[k - 1]).0
  {
    hide StepFile;
  }

  lemma QueuedLoads(u: Manifest)
    requires IsValidAgentId(u.agentId) && |u.policies| <= MAX_POLICIES && LoadPending(Print(u)) == []
    ensures Load(u.agentId, Print(u)).Some? && Load(u.agentId, Print(u)).value.pending == []
  {
    hide Load, LoadPending, Print, IsValidAgentId, Survivors, Settled, KeepsPolicy;
    PrintedIsSettled(u);
    LoadedParts(u);
  }

  lemma StepQueues(agentId: string, file: string, s: PolicyEntry, x: Request)
    requires IsValidAgentId(agentId) && ShortPolicy(s) && Load(agentId, file) == Some(Manifest(agentId, [s], []))
    requires NormalizeRequest(x).kind != "" && NormalizeRequest(x).subject != ""
    requires Ruling([s], NormalizeRequest(x)) == ""
    ensures StepFile(agentId, file, Evaluate(x, 0)) == (Print(Queued(agentId, s, NormalizeRequest(x))), Waiting)
  {
    hide NormalizeRequest, Load, Print, IsValidAgentId, ShortPolicy, Ruling, Perform, Queued;
    QueuedFits(agentId, s, x);
    PerformQueues(agentId, s, x);
  }

  /** In memory it is on the list. */
  lemma WaitsInMemory(agentId: string, s: PolicyEntry, x: Request)
    requires IsValidAgentId(agentId) && ShortPolicy(s)
    requires KeepsPolicy(s) && s.policy == "ask" && NormalRequest(s.request)
    requires NormalizeRequest(x).kind != "" && NormalizeRequest(x).subject != ""
    requires Ruling([s], NormalizeRequest(x)) == ""
    ensures StillWaiting(Manifest(agentId, [], []), [Apply(s.request, "ask"), Evaluate(x, 0)], 1, 2,
                         NormalizeRequest(x))
  {
    var start, ops := Manifest(agentId, [], []), [Apply(s.request, "ask"), Evaluate(x, 0)];
    QueuedFits(agentId, s, x);
    PerformQueues(agentId, s, x);
    PerformFirst(agentId, s);
    hide NormalizeRequest, Print, IsValidAgentId, ShortPolicy, Ruling, Perform, KeepsPolicy, Queued, Matches;
    assert Step(start, ops[0]) == (Manifest(agentId, [s], []), Granted);
    assert Step(Manifest(agentId, [s], []), ops[1]).1 == Waiting;
    WaitsAtSecond(start, ops, Manifest(agentId, [s], []));
  }

  lemma WaitsAtSecond(start: Manifest, ops: seq<Op>, m: Manifest)
    requires |ops| == 2 && ops[1].Evaluate? && Step(start, ops[0]).0 == m && Step(m, ops[1]).1 == Waiting
    ensures StillWaiting(start, ops, 1, 2, NormalizeRequest(ops[1].request))
  {
    FirstStep(start, ops);
    hide Step, NormalizeRequest, Matches;
    assert OutcomeAt(start, ops, 1) == Waiting;
  }

  lemma FirstStep(m: Manifest, ops: seq<Op>)
    requires ops != []
    ensures Run(m, ops, 1) == Step(m, ops[0]).0
  {
    hide Step;
    assert Run(m, ops, 0) == m;
  }

  lemma PerformFirst(agentId: string, s: PolicyEntry)
    requires KeepsPolicy(s) && NormalRequest(s.request) && s.policy == "ask"
    ensures Perform(Manifest(agentId, [], []), Apply(s.request, "ask")) ==
      (Some(Manifest(agentId, [s], [])), Granted)
  {
    AskIsPolicy();
    PolicyValueIsNormal("ask");
    SetOnEmpty(s.request, "ask");
    hide NormalizeToken, IsPolicyValue;
    assert SetPolicy([], s.request, "ask") == Some([PolicyEntry(s.request, "ask")]);
    assert RemovePending([], s.request) == [];
  }

  // ---------- a waiting list that is out of sight ----------

  /** Behind a shield no entry of the waiting list comes back, though every entry of the manifest would. */
  lemma OutOfSight(m: Manifest, c: char)
    requires StoredManifest(m) && ShieldKind(c) && m.policies != [] && m.policies[0] == Shield(c)
    ensures !PendingInSight(m.policies)
    ensures LoadPending(Print(m)) == m.pending <==> m.pending == []
  {
    ShieldHides(m, c);
    hide Print, LoadPending, PendingInSight, KeepsPolicy, KeepsPending, IsValidAgentId, Shield;
    ShieldNotInSight(m.policies, c);
  }

  lemma ShieldNotInSight(ps: seq<PolicyEntry>, c: char)
    requires ps != [] && ps[0] == Shield(c)
    ensures !PendingInSight(ps)
  {
    ShieldIsTaken(c);
    PolicyFields(Shield(c));
    BracketIn();
    hide Hit, PolicyAsEntry, TAKEN_FOR_PENDING, EMPTY_BRACKETS, IsEntryFields;
    var fs, own := AllFields(ps), PolicyAsEntry(Shield(c)).fields;
    assert fs == own + AllFields(ps[1..]);
    assert fs[1] == own[1] && fs[2] == own[2] && fs[2..][0] == fs[2];
    assert !BracketFree(fs[2..]);
  }

  lemma BracketIn()
    ensures '[' in EMPTY_BRACKETS
  {
    assert EMPTY_BRACKETS[0] == '[';
  }
}
