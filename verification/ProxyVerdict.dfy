/** What the proxy does with a client's request: parse it, look up the agent's rules, ask the broker if they leave it
    open, and forward it or refuse it. */
module ProxyVerdict {
  import opened Wrappers
  import opened CText
  import opened AccessRules
  import opened AccessRuns
  import opened GrantRuns
  import G = GrantConverse
  import opened FirmRequests
  import S = ShieldedRuns
  import opened RuleMatching
  import opened AccessStore
  import T = ManifestText
  import M = ManifestRoundTrip
  import opened ManifestReload
  import opened BrokerWire
  import H = HttpRequest
  import F = HttpForms
  import P = HttpParser

  /** The broker's socket as seen by one request: how a write to it ends and what can be read from it. */
  datatype Broker = NoBroker | Broker(written: Answer<()>, events: seq<Event>)

  /** The access request of an HTTP request. */
  function ToAccess(p: H.Parsed): Request { Request("http", p.host, p.method_, Cut(p.path, AccessRules.PATH_SIZE)) }

  function ToFields(agentId: string, r: Request): Fields {
    RequestFields(agentId, r.kind, r.subject, r.method_, r.path)
  }

  /** Whether the stored rules leave a request open. */
  predicate NeedsPrompt(agentId: string, file: string, r: Request) {
    && IsValidAgentId(agentId) && NormalizeRequest(r).kind != "" && NormalizeRequest(r).subject != ""
    && match T.Load(agentId, file)
       case None => false
       case Some(m) =>
         var i := FindPolicy(m.policies, NormalizeRequest(r), |m.policies|);
         i < 0 || m.policies[i].policy == "ask"
  }

  /** What is forwarded, if anything, and the manifest file afterwards. */
  function Verdict(agentId: string, file: string, bytes: string, broker: Broker, now: nat): (Option<H.Parsed>, string) {
    match H.ParseRequest(bytes)
    case Err(_) => (None, file)
    case Ok(p) =>
      var r := ToAccess(p);
      if agentId == "" || p.host == "" then (None, file)
      else if broker.Broker? && NeedsPrompt(agentId, file, r) then
        var decision := Decide(ToFields(agentId, r), broker.written, broker.events).0;
        (if decision == Good(APPROVE) then Some(p) else None, file)
      else if !IsValidAgentId(agentId) then (None, file)
      else
        var (after, outcome) := StepFile(agentId, file, Evaluate(r, now));
        (if outcome == Approved then Some(p) else None, after)
  }

  /** The broker approves. */
  ghost predicate BrokerApproves(agentId: string, r: Request, broker: Broker) {
    broker.Broker? && Decide(ToFields(agentId, r), broker.written, broker.events).0 == Good(APPROVE)
  }

  /** A request is forwarded exactly when it can be parsed and either its rule says "always", or it has no rule or one
      that says to ask and the broker approves it. */
  lemma ForwardedIff(agentId: string, file: string, bytes: string, broker: Broker, now: nat)
    requires IsValidAgentId(agentId) && T.Load(agentId, file).Some?
    ensures Verdict(agentId, file, bytes, broker, now).0.Some? <==>
      && H.ParseRequest(bytes).Ok? && H.ParseRequest(bytes).value.host != ""
      && (var r, ps := ToAccess(H.ParseRequest(bytes).value), T.Load(agentId, file).value.policies;
          && NormalizeRequest(r).kind != "" && NormalizeRequest(r).subject != ""
          && (|| Ruling(ps, NormalizeRequest(r)) == "always"
              || (Ruling(ps, NormalizeRequest(r)) in {"", "ask"} && BrokerApproves(agentId, r, broker))))
  {
    hide H.ParseRequest, T.Load, NormalizeRequest, Decide, FindPolicy, Ruling, StepFile, Step, IdChar, NeedsPrompt;
    if H.ParseRequest(bytes).Ok? {
      var r := ToAccess(H.ParseRequest(bytes).value);
      ApprovedIff(agentId, file, r, now);
      PolicyLengths();
      if NormalizeRequest(r).kind != "" && NormalizeRequest(r).subject != "" {
        PromptIff(agentId, file, r);
      } else {
        NoPrompt(agentId, file, r);
      }
    }
  }

  lemma NoPrompt(agentId: string, file: string, r: Request)
    requires NormalizeRequest(r).kind == "" || NormalizeRequest(r).subject == ""
    ensures !NeedsPrompt(agentId, file, r)
  {
    hide T.Load, NormalizeRequest, IsValidAgentId, FindPolicy;
  }

  lemma PolicyLengths()
    ensures |"always"| == 6 && |"ask"| == 3 && |"never"| == 5
  {
  }

  /** The rules leave a request open when none of them matches it, or the one that decides says to ask. */
  lemma PromptIff(agentId: string, file: string, r: Request)
    requires IsValidAgentId(agentId) && T.Load(agentId, file).Some?
    requires NormalizeRequest(r).kind != "" && NormalizeRequest(r).subject != ""
    ensures NeedsPrompt(agentId, file, r) <==>
      Ruling(T.Load(agentId, file).value.policies, NormalizeRequest(r)) in {"", "ask"}
  {
    hide T.Load, NormalizeRequest, IsValidAgentId, FindPolicy, Ruling, T.KeepsPolicy;
    LoadedAreKept(agentId, file);
    KeptRuling(T.Load(agentId, file).value.policies, NormalizeRequest(r));
  }

  /** What rules that can be read say about a request: nothing exactly when none of them matches. */
  lemma KeptRuling(ps: seq<PolicyEntry>, q: Request)
    requires forall p :: p in ps ==> T.KeepsPolicy(p)
    ensures var i := FindPolicy(ps, q, |ps|);
      (Ruling(ps, q) == "" <==> i < 0) && (i >= 0 ==> Ruling(ps, q) == ps[i].policy)
  {
    hide FindPolicy;
    PolicyLengths();
    var i := FindPolicy(ps, q, |ps|);
    if i >= 0 { assert ps[i] in ps; }
  }

  /** Every rule that is read from a file, whatever is in it, has one of the three policies. */
  lemma LoadedAreKept(agentId: string, file: string)
    requires T.Load(agentId, file).Some?
    ensures forall p :: p in T.Load(agentId, file).value.policies ==> T.KeepsPolicy(p)
  {
    hide T.FindArray, T.ReadPolicies, T.GetString, T.LoadPending;
    assert T.Load(agentId, file).value.policies == T.LoadPolicies(file);
    if T.FindArray(file, "policies").Some? {
      var (s, room) := T.FindArray(file, "policies").value;
      ReadAreKept(s, room, MAX_POLICIES, "");
      assert T.LoadPolicies(file) == T.ReadPolicies(s, room, MAX_POLICIES, "");
    }
  }

  lemma {:induction false} ReadAreKept(s: string, room: nat, free: nat, stale: string)
    requires room <= |s|
    ensures forall p :: p in T.ReadPolicies(s, room, free, stale) ==> T.KeepsPolicy(p)
    decreases room
  {
    hide T.NextObject, T.ReadPolicy;
    if room > 0 && free > 0 && T.NextObject(s[..room], 0).Some? {
      var (at, len) := T.NextObject(s[..room], 0).value;
      var p := T.ReadPolicy(s[at..], stale);
      if T.KeepsPolicy(p) {
        ReadAreKept(s[at + len..], room - at - len, free - 1, "");
        var rest := T.ReadPolicies(s[at + len..], room - at - len, free - 1, "");
        assert T.ReadPolicies(s, room, free, stale) == [p] + rest;
      } else {
        ReadAreKept(s[at + len..], room - at - len, free, p.policy);
      }
    }
  }

  /** Evaluating approves exactly what a rule always allows. */
  lemma ApprovedIff(agentId: string, file: string, r: Request, now: nat)
    requires T.Load(agentId, file).Some?
    ensures StepFile(agentId, file, Evaluate(r, now)).1 == Approved
      <==> NormalizeRequest(r).kind != "" && NormalizeRequest(r).subject != ""
           && Ruling(T.Load(agentId, file).value.policies, NormalizeRequest(r)) == "always"
  {
    hide T.Load, T.Print, Perform, NormalizeRequest, Ruling;
    PerformApprovesIff(T.Load(agentId, file).value, r, now);
  }

  lemma PerformApprovesIff(m: Manifest, r: Request, now: nat)
    ensures Perform(m, Evaluate(r, now)).1 == Approved
      <==> (NormalizeRequest(r).kind != "" && NormalizeRequest(r).subject != ""
            && Ruling(m.policies, NormalizeRequest(r)) == "always")
    ensures Perform(m, Evaluate(r, now)).1 == Approved ==> Perform(m, Evaluate(r, now)).0.None?
  {
    hide NormalizeRequest, Ruling, AddPending;
  }

  /** After any run of granting and evaluating, with the broker or without: a firm request for which a rule was
      granted is forwarded when the last such rule says "always", never when it says "never", and as the broker decides
      when it says to ask, whatever else was granted or evaluated. */
  lemma LatestGrantForwards(agentId: string, ops: seq<Op>, bytes: string, broker: Broker, now: nat)
    requires IsValidAgentId(agentId)
    requires H.ParseRequest(bytes).Ok? && H.ParseRequest(bytes).value.host != ""
    requires var q := NormalizeRequest(ToAccess(H.ParseRequest(bytes).value));
      Firm(q) && LatestGrantOnFile(agentId, ops, |ops|, q).Some?
    ensures var r := ToAccess(H.ParseRequest(bytes).value);
      var policy := LatestGrantOnFile(agentId, ops, |ops|, NormalizeRequest(r)).value;
      Verdict(agentId, RunFile(agentId, "", ops, |ops|), bytes, broker, now).0.Some?
      <==> policy == "always" || (policy == "ask" && BrokerApproves(agentId, r, broker))
  {
    hide H.ParseRequest, T.Load, NormalizeRequest, Firm, IsValidAgentId, LatestGrantOnFile, Ruling, Verdict;
    hide BrokerApproves, RunFile, FindExact, FindPolicy, Settled, ExactPolicy, T.KeepsPolicy;
    var file := RunFile(agentId, "", ops, |ops|);
    var q := NormalizeRequest(ToAccess(H.ParseRequest(bytes).value));
    FirmIsNamed(q);
    FileGrantGoverns(agentId, ops, |ops|, q);
    LatestGrantRules(agentId, file, q);
    ForwardedIff(agentId, file, bytes, broker, now);
    RuledIsNotEmpty(agentId, file, q);
    PolicyLengths();
  }

  /** After these operations the request is forwarded as the last rule granted for exactly it says, if there is one. */
  ghost predicate ForwardsByGrant(agentId: string, ops: seq<Op>, bytes: string, broker: Broker, now: nat)
    requires H.ParseRequest(bytes).Ok?
  {
    var r := ToAccess(H.ParseRequest(bytes).value);
    match LatestGrantOnFile(agentId, ops, |ops|, NormalizeRequest(r))
    case None => true
    case Some(policy) =>
      Verdict(agentId, RunFile(agentId, "", ops, |ops|), bytes, broker, now).0.Some?
      <==> policy == "always" || (policy == "ask" && BrokerApproves(agentId, r, broker))
  }

  /** So it is after every run, whatever the broker says, exactly when the request is firm (or has no host once it is
      trimmed, so that no rule can be granted for it). */
  lemma FirmIffForwardsByGrant(agentId: string, bytes: string)
    requires IsValidAgentId(agentId)
    requires H.ParseRequest(bytes).Ok? && H.ParseRequest(bytes).value.host != ""
    ensures var q := NormalizeRequest(ToAccess(H.ParseRequest(bytes).value));
      (forall ops: seq<Op>, broker: Broker, now: nat :: ForwardsByGrant(agentId, ops, bytes, broker, now))
      <==> Firm(q) || q.subject == ""
  {
    HttpKind(H.ParseRequest(bytes).value);
    hide H.ParseRequest, NormalizeRequest, IsValidAgentId, Firm, ForwardsByGrant, G.Misled, ToAccess;
    var r := ToAccess(H.ParseRequest(bytes).value);
    var q := NormalizeRequest(r);
    if Firm(q) || q.subject == "" {
      forall ops: seq<Op>, broker: Broker, now: nat ensures ForwardsByGrant(agentId, ops, bytes, broker, now) {
        FirmForwards(agentId, ops, bytes, broker, now);
      }
    } else {
      G.NotFirmFails(agentId, r);
      var ops :| G.Misled(agentId, ops, q);
      MisledForwards(agentId, ops, bytes);
      assert !ForwardsByGrant(agentId, ops, bytes, NoBroker, 0);
    }
  }

  lemma HttpKind(p: H.Parsed)
    ensures NormalizeRequest(ToAccess(p)).kind == "http"
  {
    WordNormal("http", KIND_SIZE, true);
    hide NormalizeToken;
  }

  lemma FirmForwards(agentId: string, ops: seq<Op>, bytes: string, broker: Broker, now: nat)
    requires IsValidAgentId(agentId) && H.ParseRequest(bytes).Ok? && H.ParseRequest(bytes).value.host != ""
    requires var q := NormalizeRequest(ToAccess(H.ParseRequest(bytes).value)); Firm(q) || q.subject == ""
    ensures ForwardsByGrant(agentId, ops, bytes, broker, now)
  {
    hide H.ParseRequest, NormalizeRequest, IsValidAgentId, Firm, Verdict, BrokerApproves, RunFile, LatestGrantOnFile;
    var q := NormalizeRequest(ToAccess(H.ParseRequest(bytes).value));
    if q.subject == "" { G.NamelessIsNotGranted(agentId, ops, |ops|, q); }
    if LatestGrantOnFile(agentId, ops, |ops|, q).Some? { LatestGrantForwards(agentId, ops, bytes, broker, now); }
  }

  /** Without a broker, only what rules "always" is forwarded. */
  lemma MisledForwards(agentId: string, ops: seq<Op>, bytes: string)
    requires IsValidAgentId(agentId) && H.ParseRequest(bytes).Ok? && H.ParseRequest(bytes).value.host != ""
    requires var q := NormalizeRequest(ToAccess(H.ParseRequest(bytes).value));
      q.kind != "" && q.subject != "" && G.Misled(agentId, ops, q)
    ensures !ForwardsByGrant(agentId, ops, bytes, NoBroker, 0)
  {
    hide H.ParseRequest, T.Load, NormalizeRequest, IsValidAgentId, Ruling, Verdict, RunFile, LatestGrantOnFile;
    hide NeedsPrompt, Decide;
    ForwardedIff(agentId, RunFile(agentId, "", ops, |ops|), bytes, NoBroker, 0);
  }

  lemma RuledIsNotEmpty(agentId: string, file: string, q: Request)
    requires T.Load(agentId, file).Some? && FindExact(T.Load(agentId, file).value.policies, q, 0) >= 0
    ensures Ruling(T.Load(agentId, file).value.policies, q) != ""
  {
    hide T.Load, FindPolicy, FindExact, Ruling, T.KeepsPolicy;
    LoadedAreKept(agentId, file);
    KeptRuling(T.Load(agentId, file).value.policies, q);
    ExactRuleGoverns(T.Load(agentId, file).value.policies, q);
  }

  /** The same file afterwards, and the same forwarded but for the URL. */
  ghost predicate SameVerdict(agentId: string, file: string, a: string, b: string, broker: Broker, now: nat) {
    var (x, y) := (Verdict(agentId, file, a, broker, now), Verdict(agentId, file, b, broker, now));
    && x.1 == y.1 && (x.0.Some? <==> y.0.Some?)
    && (x.0.Some? ==> x.0.value.(url := y.0.value.url) == y.0.value)
  }

  /** The agent is known, and the request can be parsed and, with its host trimmed, be given a rule. */
  predicate CanBeForwarded(agentId: string, bytes: string) {
    && IsValidAgentId(agentId) && H.ParseRequest(bytes).Ok? && H.ParseRequest(bytes).value.host != ""
    && NormalizeRequest(ToAccess(H.ParseRequest(bytes).value)).subject != ""
  }

  lemma SameButUrlSameVerdict(agentId: string, file: string, a: string, b: string, broker: Broker, now: nat)
    requires F.SameButUrl(H.ParseRequest(a), H.ParseRequest(b))
    ensures SameVerdict(agentId, file, a, b, broker, now)
  {
    hide H.ParseRequest, StepFile, Decide, NeedsPrompt;
  }

  /** A file whose only rule allows every HTTP request. */
  function AllowsAll(agentId: string): string { T.Print(Manifest(agentId, [ALLOW_ALL], [])) }

  const ALLOW_ALL := PolicyEntry(Request("http", "*", "", ""), "always")

  lemma AllowAllIsFirm()
    ensures Firm(ALLOW_ALL.request) && T.KeepsPolicy(ALLOW_ALL)
  {
    var q := ALLOW_ALL.request;
    PolicyWords();
    AllowAllIsNormal();
    KeyEnds();
    hide M.Hit, NormalizeRequest, Firm, IsPolicyValue;
    OtherEndIsNoKey(q.kind, "path");
    ShorterIsNoKey(q.kind, "method");
    ShorterIsNoKey(q.kind, "policy");
    ShorterIsNoKey(q.subject, "path");
    ShorterIsNoKey(q.subject, "policy");
    ShorterIsNoKey(q.method_, "policy");
    FirmIff(q);
  }

  lemma AllowAllIsNormal()
    ensures NormalRequest(ALLOW_ALL.request)
  {
    WordNormal("http", KIND_SIZE, true);
    NormalizedIff("*", SUBJECT_SIZE, true);
    NormalizedIff("", METHOD_SIZE, false);
    NormalizedIff("", PATH_SIZE, false);
    hide NormalizeToken;
  }

  lemma AllAllowed(agentId: string, bytes: string, now: nat)
    requires CanBeForwarded(agentId, bytes)
    ensures Verdict(agentId, AllowsAll(agentId), bytes, NoBroker, now).0.Some?
  {
    hide H.ParseRequest, T.Load, T.Print, NormalizeToken, IsValidAgentId, Verdict, Firm, Cut;
    AllowAllIsFirm();
    RuleForwards(agentId, ALLOW_ALL.request, bytes, now);
  }

  /** Two requests get the same verdict from every file and every broker exactly when their parses differ in the URL at
      most, or neither can be forwarded at all. */
  lemma SameVerdictIff(agentId: string, a: string, b: string)
    ensures (forall file: string, broker: Broker, now: nat :: SameVerdict(agentId, file, a, b, broker, now))
      <==> || F.SameButUrl(H.ParseRequest(a), H.ParseRequest(b))
           || (!CanBeForwarded(agentId, a) && !CanBeForwarded(agentId, b))
  {
    hide H.ParseRequest, IsValidAgentId, SameVerdict, CanBeForwarded, Verdict;
    if F.SameButUrl(H.ParseRequest(a), H.ParseRequest(b)) {
      forall file: string, broker: Broker, now: nat ensures SameVerdict(agentId, file, a, b, broker, now) {
        SameButUrlSameVerdict(agentId, file, a, b, broker, now);
      }
    } else if !CanBeForwarded(agentId, a) && !CanBeForwarded(agentId, b) {
      forall file: string, broker: Broker, now: nat ensures SameVerdict(agentId, file, a, b, broker, now) {
        NotForwarded(agentId, file, a, broker, now);
        NotForwarded(agentId, file, b, broker, now);
        BothRefused(agentId, file, a, b, broker, now);
      }
    } else {
      if CanBeForwarded(agentId, a) { AllAllowed(agentId, a, 0); }
      if CanBeForwarded(agentId, b) { AllAllowed(agentId, b, 0); }
      OtherVerdict(agentId, AllowsAll(agentId), a, b);
    }
  }

  lemma BothRefused(agentId: string, file: string, a: string, b: string, broker: Broker, now: nat)
    requires Verdict(agentId, file, a, broker, now) == Verdict(agentId, file, b, broker, now) == (None, file)
    ensures SameVerdict(agentId, file, a, b, broker, now)
  {
    hide Verdict;
  }

  lemma NotForwarded(agentId: string, file: string, bytes: string, broker: Broker, now: nat)
    requires !CanBeForwarded(agentId, bytes)
    ensures Verdict(agentId, file, bytes, broker, now) == (None, file)
  {
    hide H.ParseRequest, T.Load, NormalizeRequest, IsValidAgentId, Ruling, FindPolicy, Decide;
  }

  lemma OtherVerdict(agentId: string, file: string, a: string, b: string)
    requires !F.SameButUrl(H.ParseRequest(a), H.ParseRequest(b))
    requires Verdict(agentId, file, a, NoBroker, 0).0.Some? || Verdict(agentId, file, b, NoBroker, 0).0.Some?
    ensures !SameVerdict(agentId, file, a, b, NoBroker, 0)
  {
    hide H.ParseRequest, StepFile, NeedsPrompt, IsValidAgentId;
  }

  /** Writing the request in the other form changes neither whether it is forwarded nor the file, and of what is
      forwarded the URL at most, exactly when the URL fits and white space behind the Host value is no matter, or the
      request is refused in either form. */
  lemma FormsGetTheSameVerdict(agentId: string, m: string, authority: string, path: string, sent: string,
                               version: string, headers: string, before: seq<string>, name: string, space: string,
                               blank: string, after: string)
    requires F.IsRequest(m, authority, path, version) && F.Stands(sent, path)
    requires F.IsHostLine(before, name, space, blank)
    ensures var a, b := F.AbsoluteForm(m, authority, sent, version, headers),
        F.OriginForm(m, authority, path, version, before, name, space, blank, after);
      (forall file: string, broker: Broker, now: nat :: SameVerdict(agentId, file, a, b, broker, now))
      <==> || (|"http://" + (authority + blank) + path| < H.URL_SIZE && (blank == "" || F.BlankIsNoMatter(authority)))
           || (!CanBeForwarded(agentId, a) && !CanBeForwarded(agentId, b))
  {
    hide H.ParseRequest, F.AbsoluteForm, F.OriginForm, F.IsRequest, F.Stands, F.SameButUrl, SameVerdict;
    hide F.IsHostLine, F.BlankIsNoMatter, CanBeForwarded, IsValidAgentId;
    F.FormsAgreeIff(m, authority, path, sent, version, headers, before, name, space, blank, after);
    SameVerdictIff(agentId, F.AbsoluteForm(m, authority, sent, version, headers),
      F.OriginForm(m, authority, path, version, before, name, space, blank, after));
  }

  // ---------- what the request and the question to the broker are ----------

  /** With one rule on file that says "always", a request is forwarded exactly when the rule's kind is "http", its
      subject matches the host, and its method and path are given as in the request or left open. */
  lemma RuleForwards(agentId: string, rule: Request, bytes: string, now: nat)
    requires IsValidAgentId(agentId) && Firm(rule)
    ensures var file := T.Print(Manifest(agentId, [PolicyEntry(rule, "always")], []));
      Verdict(agentId, file, bytes, NoBroker, now).0.Some? <==>
        && H.ParseRequest(bytes).Ok?
        && (var p := H.ParseRequest(bytes).value;
            var host := NormalizeToken(p.host, SUBJECT_SIZE, true);
            && p.host != "" && host != "" && rule.kind == "http" && SubjectMatches(rule.subject, host)
            && rule.method_ in {"", "*", NormalizeToken(p.method_, METHOD_SIZE, false)}
            && rule.path in {"", "*", NormalizeToken(Cut(p.path, PATH_SIZE), PATH_SIZE, false)})
  {
    hide H.ParseRequest, T.Load, T.Print, NormalizeToken, IsValidAgentId, Ruling, Verdict, Decide, SubjectMatches;
    hide Survivors, Settled, T.KeepsPolicy, Firm, Cut;
    var e := PolicyEntry(rule, "always");
    AlwaysIsKept(rule);
    PrintedIsSettled(Manifest(agentId, [e], []));
    OwnRuleReloads(e, rule);
    S.SurvivorsOfOne(e);
    if H.ParseRequest(bytes).Ok? {
      HttpKind(H.ParseRequest(bytes).value);
      OneRule(rule, "always", NormalizeRequest(ToAccess(H.ParseRequest(bytes).value)));
    }
    PolicyLengths();
    ForwardedIff(agentId, T.Print(Manifest(agentId, [e], [])), bytes, NoBroker, now);
  }

  lemma AlwaysIsKept(rule: Request)
    requires Firm(rule)
    ensures T.KeepsPolicy(PolicyEntry(rule, "always"))
  {
    PolicyWords();
    FirmIsNamed(rule);
    hide IsPolicyValue, Firm;
  }

  /** What is sent to the broker, if it takes it. */
  function Asked(agentId: string, file: string, bytes: string, written: Answer<()>): string {
    match H.ParseRequest(bytes)
    case Err(_) => ""
    case Ok(p) =>
      var line := Line(ToFields(agentId, ToAccess(p))) + "\n";
      if agentId == "" || p.host == "" || !NeedsPrompt(agentId, file, ToAccess(p)) then ""
      else if |line| < PAYLOAD_SIZE && written.Good? then line else ""
  }

  /** Nothing is sent about a request that a rule decides; about any other, if it fits, one line: an object that says
      for which agent, and what host, method and path the request has. */
  lemma AskedIs(agentId: string, file: string, bytes: string, written: Answer<()>)
    requires IsValidAgentId(agentId) && T.Load(agentId, file).Some? && H.ParseRequest(bytes).Ok?
    ensures var asked, p := Asked(agentId, file, bytes, written), H.ParseRequest(bytes).value;
      && (Ruling(T.Load(agentId, file).value.policies, NormalizeRequest(ToAccess(p))) in {"always", "never"} ==>
            asked == "")
      && (asked != "" ==>
            && asked[|asked| - 1] == '\n' && |asked| < PAYLOAD_SIZE
            && ReadObject(asked[..|asked| - 1]) == Some([("agent_id", agentId), ("kind", "http"), ("subject", p.host),
                 ("method", p.method_), ("path", if |p.path| < 512 then p.path else p.path[..511])]))
  {
    hide H.ParseRequest, T.Load, NormalizeRequest, Ruling, Line, ReadObject, NeedsPrompt, IsValidAgentId;
    var p := H.ParseRequest(bytes).value;
    var q := NormalizeRequest(ToAccess(p));
    PolicyLengths();
    if q.kind != "" && q.subject != "" { PromptIff(agentId, file, ToAccess(p)); }
    else { NoPrompt(agentId, file, ToAccess(p)); }
    var line := Line(ToFields(agentId, ToAccess(p)));
    LineRoundTrip(ToFields(agentId, ToAccess(p)));
    assert (line + "\n")[..|line|] == line;
  }

  /** The handler itself, over the agent's store and the broker's socket. */
  method HandleClient(bytes: string, store: Store, broker: BrokerSocket?, now: nat) returns (forwarded: bool)
    requires broker != null ==> broker.Valid()
    modifies store, broker
    ensures broker != null ==> broker.Valid()
    ensures broker != null ==>
      broker.sent == old(broker.sent) + Asked(store.agentId, old(store.file), bytes, broker.written)
    ensures var seen := if broker == null then NoBroker else Broker(broker.written, old(broker.Ahead()));
      (forwarded, store.file)
        == (var (p, after) := Verdict(store.agentId, old(store.file), bytes, seen, now); (p.Some?, after))
  {
    hide H.ParseRequest, T.Load, NormalizeRequest, IsValidAgentId, FindPolicy, Decide, StepFile, RequestFields, Cut;
    ghost var seen := if broker == null then NoBroker else Broker(broker.written, broker.Ahead());
    var parsed := new P.ProxyRequest();
    var rc := parsed.Parse(bytes);
    if rc.Err? || store.agentId == "" { return false; }
    var p := parsed.Value();
    if p.host == "" { return false; }
    if !IsValidAgentId(store.agentId) { return false; }
    var r := ToAccess(p);
    if broker != null {
      var ok, needed := store.NeedsPrompt(r);
      if ok && needed {
        var decision := broker.RequestBrokerDecision(store.agentId, r.kind, r.subject, r.method_, r.path);
        return decision == Good(APPROVE);
      }
    }
    var outcome := store.Evaluate(r, now);
    return outcome == Approved;
  }
}
