/** Access requests, the rules an agent has been given for them, and the requests still waiting for one. */
module AccessRules {
  import opened Wrappers
  import opened CText

  const AGENT_ID_SIZE: nat := 64
  const KIND_SIZE: nat := 32
  const SUBJECT_SIZE: nat := 256
  const METHOD_SIZE: nat := 64
  const PATH_SIZE: nat := 512
  const POLICY_SIZE: nat := 16
  const ID_SIZE: nat := 64
  const MAX_POLICIES: nat := 128
  const MAX_PENDING: nat := 128

  datatype Request = Request(kind: string, subject: string, method_: string, path: string)
  datatype PolicyEntry = PolicyEntry(request: Request, policy: string)
  datatype PendingEntry = PendingEntry(id: string, request: Request, createdAt: nat)
  datatype Manifest = Manifest(agentId: string, policies: seq<PolicyEntry>, pending: seq<PendingEntry>)

  // ---------- normal form ----------

  function NormalizeToken(s: string, size: nat, lowercase: bool): string
    requires size > 0
  {
    var t := Cut(Trim(s), size);
    if lowercase then Lower(t) else t
  }

  function NormalizeRequest(r: Request): Request {
    Request(NormalizeToken(r.kind, KIND_SIZE, true), NormalizeToken(r.subject, SUBJECT_SIZE, true),
            NormalizeToken(r.method_, METHOD_SIZE, false), NormalizeToken(r.path, PATH_SIZE, false))
  }

  /** Normalising twice is normalising once exactly when the cut to the field size does not leave a
      space at the end. */
  lemma NormalizeTwiceIff(s: string, size: nat, lowercase: bool)
    requires size > 1
    ensures var once := NormalizeToken(s, size, lowercase);
      NormalizeToken(once, size, lowercase) == once <==> (|Trim(s)| < size || !IsSpace(Trim(s)[size - 2]))
  {
    var t := Cut(Trim(s), size);
    var once := NormalizeToken(s, size, lowercase);
    TrimTrims(s);
    LowerTwice(t);
    LowerKeepsSpaces(t);
    NormalizedIff(once, size, lowercase);
    CutTrimmedIff(Trim(s), size);
  }

  /** A kind of 30 letters, a space and another letter: normalised once it ends in the space, twice it does not. */
  lemma SpaceLeftByCut()
    ensures var kind := seq(30, _ => 'a') + " b";
      var once := NormalizeToken(kind, KIND_SIZE, true);
      once == seq(30, _ => 'a') + " " && NormalizeToken(once, KIND_SIZE, true) != once
  {
    var kind := seq(30, _ => 'a') + " b";
    assert kind[0] == 'a' && kind[31] == 'b' && kind[30] == ' ' && |kind| == KIND_SIZE;
    TrimTrims(kind);
    NormalizeTwiceIff(kind, KIND_SIZE, true);
    hide Trim;
    assert Lower(kind[..31]) == seq(30, _ => 'a') + " ";
  }

  lemma CutTrimmedIff(s: string, size: nat)
    requires Trimmed(s) && size > 1
    ensures Trimmed(Cut(s, size)) <==> (|s| < size || !IsSpace(s[size - 2]))
  {
  }

  /** A short lower-case text is in normal form exactly when it is trimmed. */
  lemma NormalizedIff(u: string, size: nat, lowercase: bool)
    requires |u| < size && (lowercase ==> Lower(u) == u)
    ensures NormalizeToken(u, size, lowercase) == u <==> Trimmed(u)
  {
    TrimTrims(u);
    TrimShrinks(u);
    hide Trim;
  }

  lemma TrimShrinks(s: string)
    ensures |Trim(s)| <= |s| && (|Trim(s)| == |s| ==> Trim(s) == s)
  {
  }

  lemma LowerTwice(s: string)
    ensures Lower(Lower(s)) == Lower(s)
  {
  }

  lemma LowerKeepsSpaces(s: string)
    ensures Trimmed(Lower(s)) <==> Trimmed(s)
  {
  }

  ghost predicate NormalRequest(r: Request) { NormalizeRequest(r) == r }

  predicate IsPolicyValue(policy: string) {
    policy == "always" || policy == "never" || policy == "ask"
  }

  predicate IsValidAgentId(id: string) {
    && 4 < |id| < AGENT_ID_SIZE && id[..4] == "agt-"
    && forall i :: 4 <= i < |id| ==> IdChar(id[i])
  }

  predicate IdChar(c: char) {
    'a' <= c <= 'z' || 'A' <= c <= 'Z' || '0' <= c <= '9' || c == '_' || c == '-'
  }

  // ---------- which rule governs a request ----------

  predicate SubjectMatches(rule: string, subject: string) {
    if rule == subject || rule == "*" then true
    else if !("*." <= rule) then false
    else |subject| > |rule| - 1 && EndsWith(subject, rule[1..])
  }

  predicate FieldMatches(rule: string, value: string) {
    rule == "" || rule == "*" || rule == value
  }

  predicate Matches(rule: Request, r: Request) {
    rule.kind == r.kind && SubjectMatches(rule.subject, r.subject)
    && FieldMatches(rule.method_, r.method_) && FieldMatches(rule.path, r.path)
  }

  /** Specificity: an equal subject outweighs equal method and path, an equal method an equal path. */
  function Score(rule: Request, r: Request): nat {
    (if rule.subject == r.subject then 4 else 0) + (if rule.method_ == r.method_ then 2 else 0)
    + if rule.path == r.path then 1 else 0
  }

  /** `best` is the first of the most specific rules among the first `n` that match. */
  ghost predicate Governs(ps: seq<PolicyEntry>, r: Request, best: int, n: nat)
    requires n <= |ps|
  {
    if best < 0 then best == -1 && forall i :: 0 <= i < n ==> !Matches(ps[i].request, r)
    else
      && best < n && Matches(ps[best].request, r)
      && forall i :: 0 <= i < n && Matches(ps[i].request, r) ==>
           if i < best then Score(ps[i].request, r) < Score(ps[best].request, r)
           else Score(ps[i].request, r) <= Score(ps[best].request, r)
  }

  function FindPolicy(ps: seq<PolicyEntry>, r: Request, n: nat): (best: int)
    requires n <= |ps|
    ensures Governs(ps, r, best, n)
  {
    if n == 0 then -1
    else
      var b := FindPolicy(ps, r, n - 1);
      if Matches(ps[n - 1].request, r)
        && (b < 0 || Score(ps[n - 1].request, r) > Score(ps[b].request, r)) then n - 1 else b
  }

  /** The policy of the governing rule, or "" when no rule matches. */
  function Ruling(ps: seq<PolicyEntry>, r: Request): string {
    var i := FindPolicy(ps, r, |ps|);
    if i < 0 then "" else ps[i].policy
  }

  lemma GovernsUnique(ps: seq<PolicyEntry>, r: Request, a: int, b: int)
    requires Governs(ps, r, a, |ps|) && Governs(ps, r, b, |ps|)
    ensures a == b
  {
  }

  // ---------- granting rules ----------

  function FindExact(ps: seq<PolicyEntry>, r: Request, from: nat): (i: int)
    requires from <= |ps|
    ensures i == -1 || (from <= i < |ps| && ps[i].request == r)
    ensures forall j :: from <= j < |ps| && (i == -1 || j < i) ==> ps[j].request != r
    decreases |ps| - from
  {
    if from == |ps| then -1 else if ps[from].request == r then from else FindExact(ps, r, from + 1)
  }

  /** Overwrite the rule for exactly this request, or append one; refused when the list is full. */
  function SetPolicy(ps: seq<PolicyEntry>, r: Request, policy: string): Option<seq<PolicyEntry>> {
    var i := FindExact(ps, r, 0);
    if i >= 0 then Some(ps[i := PolicyEntry(r, policy)])
    else if |ps| >= MAX_POLICIES then None
    else Some(ps + [PolicyEntry(r, policy)])
  }

  /** A rule for exactly the request governs it, whatever other rules there are. */
  lemma ExactRuleGoverns(ps: seq<PolicyEntry>, r: Request)
    requires FindExact(ps, r, 0) >= 0
    ensures FindPolicy(ps, r, |ps|) == FindExact(ps, r, 0)
  {
    var i := FindExact(ps, r, 0);
    assert Governs(ps, r, i, |ps|) by {
      forall j | 0 <= j < i && Matches(ps[j].request, r) ensures Score(ps[j].request, r) < Score(ps[i].request, r) {
        assert ps[j].request != r;
      }
    }
    GovernsUnique(ps, r, i, FindPolicy(ps, r, |ps|));
  }

  /** Granting a rule settles the request it is for. */
  lemma GrantSettles(ps: seq<PolicyEntry>, rule: Request, policy: string)
    requires SetPolicy(ps, rule, policy).Some?
    ensures var u := SetPolicy(ps, rule, policy).value;
      FindExact(u, rule, 0) >= 0 && Ruling(u, rule) == policy
  {
    hide Matches, Score;
    var u := SetPolicy(ps, rule, policy).value;
    var i := FindExact(ps, rule, 0);
    var at := if i >= 0 then i else |ps|;
    assert u[at] == PolicyEntry(rule, policy);
    assert FindExact(u, rule, 0) == at;
    ExactRuleGoverns(u, rule);
  }

  /** It leaves every other request that has a rule of its own as it was, whether it matches it or not. */
  lemma GrantKeepsExactRules(ps: seq<PolicyEntry>, rule: Request, policy: string, r: Request)
    requires SetPolicy(ps, rule, policy).Some? && r != rule && FindExact(ps, r, 0) >= 0
    ensures var u := SetPolicy(ps, rule, policy).value;
      FindExact(u, r, 0) >= 0 && Ruling(u, r) == Ruling(ps, r)
  {
    hide Matches, Score;
    var u := SetPolicy(ps, rule, policy).value;
    var k := FindExact(ps, r, 0);
    assert u[k] == ps[k];
    assert FindExact(u, r, 0) == k;
    ExactRuleGoverns(u, r);
    ExactRuleGoverns(ps, r);
  }

  /** And it leaves every request it does not match as it was, with a rule of its own or without. */
  lemma GrantKeepsUnmatched(ps: seq<PolicyEntry>, rule: Request, policy: string, r: Request)
    requires SetPolicy(ps, rule, policy).Some? && !Matches(rule, r)
    ensures Ruling(SetPolicy(ps, rule, policy).value, r) == Ruling(ps, r)
  {
    hide Matches, Score;
    var u := SetPolicy(ps, rule, policy).value;
    var i := FindExact(ps, rule, 0);
    var at := if i >= 0 then i else |ps|;
    var best := FindPolicy(ps, r, |ps|);
    assert u[at] == PolicyEntry(rule, policy);
    assert forall j :: 0 <= j < |ps| && j != at ==> u[j] == ps[j];
    assert best != at;
    assert Governs(u, r, best, |u|);
    GovernsUnique(u, r, best, FindPolicy(u, r, |u|));
  }

  // ---------- requests that wait ----------

  /** The requests on a waiting list. */
  function Requests(ws: seq<PendingEntry>): set<Request> {
    if ws == [] then {} else Requests(ws[..|ws| - 1]) + {ws[|ws| - 1].request}
  }

  ghost predicate NoDuplicates(ws: seq<PendingEntry>) {
    ws == [] || (NoDuplicates(ws[..|ws| - 1]) && ws[|ws| - 1].request !in Requests(ws[..|ws| - 1]))
  }

  /** The waiting list without the requests a rule matches. */
  function RemovePending(ws: seq<PendingEntry>, rule: Request): (rest: seq<PendingEntry>)
    ensures |rest| <= |ws|
  {
    if ws == [] then []
    else
      var rest := RemovePending(ws[..|ws| - 1], rule);
      if Matches(rule, ws[|ws| - 1].request) then rest else rest + [ws[|ws| - 1]]
  }

  function AddPending(ws: seq<PendingEntry>, r: Request, now: nat): Option<seq<PendingEntry>> {
    if r in Requests(ws) then Some(ws)
    else if |ws| >= MAX_PENDING then None
    else Some(ws + [PendingEntry(RequestId(r), r, now)])
  }

  /** Being equal to a rule is one way of matching it, so testing for both removes no more. */
  lemma MatchesItself(r: Request)
    ensures Matches(r, r)
  {
  }

  lemma {:induction false} RemovePendingRequests(ws: seq<PendingEntry>, rule: Request)
    ensures forall r :: r in Requests(RemovePending(ws, rule)) <==> r in Requests(ws) && !Matches(rule, r)
    ensures NoDuplicates(ws) ==> NoDuplicates(RemovePending(ws, rule))
    ensures forall e :: e in RemovePending(ws, rule) ==> e in ws
  {
    hide Matches;
    if ws != [] {
      var n := |ws| - 1;
      RemovePendingRequests(ws[..n], rule);
      var rest := RemovePending(ws[..n], rule);
      assert (rest + [ws[n]])[..|rest|] == rest;
    }
  }

  lemma AddPendingRequests(ws: seq<PendingEntry>, r: Request, now: nat)
    requires AddPending(ws, r, now).Some?
    ensures var u := AddPending(ws, r, now).value;
      Requests(u) == Requests(ws) + {r} && (NoDuplicates(ws) ==> NoDuplicates(u))
  {
    var u := AddPending(ws, r, now).value;
    if r !in Requests(ws) { assert u[..|ws|] == ws; }
  }

  lemma {:induction false} RequestsAre(ws: seq<PendingEntry>, r: Request)
    ensures r in Requests(ws) <==> exists i :: 0 <= i < |ws| && ws[i].request == r
  {
    if ws != [] {
      RequestsAre(ws[..|ws| - 1], r);
      assert forall i :: 0 <= i < |ws| - 1 ==> ws[..|ws| - 1][i] == ws[i];
    }
  }

  // ---------- request ids ----------

  /** The running hash over a string's bytes, in 64-bit arithmetic. */
  function HashFrom(hash: nat, s: string, n: nat): (h: nat)
    requires n <= |s| && hash < WORD
    ensures h < WORD
  {
    if n == 0 then hash else (HashFrom(hash, s, n - 1) * 33 + s[n - 1] as nat) % WORD
  }

  function HashField(hash: nat, s: string): (h: nat)
    requires hash < WORD
    ensures h < WORD
  {
    (HashFrom(hash, s, |s|) * 33 + '|' as nat) % WORD
  }

  function RequestHash(r: Request): (h: nat)
    ensures h < WORD
  {
    HashField(HashField(HashField(HashField(5381, r.kind), r.subject), r.method_), r.path)
  }

  function Hex(n: nat): (s: string)
    ensures |s| > 0
    ensures forall i :: 0 <= i < |s| ==> '0' <= s[i] <= '9' || 'a' <= s[i] <= 'f'
  {
    if n < 16 then [HexDigit(n)] else Hex(n / 16) + [HexDigit(n % 16)]
  }

  function RequestId(r: Request): string { "req-" + Hex(RequestHash(r)) }
}
