/** Requests that do not stand firm: for each of them there is a run after which the last rule granted for exactly that
    request is not what decides it. */
module GrantConverse {
  import opened Wrappers
  import opened CText
  import opened AccessRules
  import opened ManifestText
  import opened ManifestRoundTrip
  import opened ManifestReload
  import opened ManifestTheorems
  import opened ManifestInstances
  import opened AccessRuns
  import opened GrantRuns
  import opened FirmRequests
  import opened ShieldedRuns

  /** What would now decide a request is not what was last granted for exactly it. */
  ghost predicate Misled(agentId: string, ops: seq<Op>, q: Request) {
    var latest, m := LatestGrantOnFile(agentId, ops, |ops|, q), Load(agentId, RunFile(agentId, "", ops, |ops|));
    latest.Some? && m.Some? && ((latest.value == "always") != (Ruling(m.value.policies, q) == "always"))
  }

  lemma ReachedMisled(agentId: string, ops: seq<Op>, ps: seq<PolicyEntry>, q: Request, p: string)
    requires Reached(agentId, ops, ps, q, Some(p)) && ((p == "always") != (Ruling(ps, q) == "always"))
    ensures Misled(agentId, ops, q)
  {
    hide Load, RunFile, LatestGrantOnFile, Ruling;
  }

  // ---------- grants behind a shield ----------

  lemma NextReaches(agentId: string, ops: seq<Op>, rest: seq<PolicyEntry>, q: Request, latest: Option<string>,
                    x: Request, p: string, c: char, more: seq<PolicyEntry>)
    requires IsValidAgentId(agentId) && ShieldKind(c) && Reached(agentId, ops, [Shield(c)] + rest, q, latest)
    requires |rest| <= 1 && (forall i :: 0 <= i < |rest| ==> ShortPolicy(rest[i]))
    requires KeepsPolicy(PolicyEntry(NormalizeRequest(x), p))
    requires Set([Shield(c)] + rest, NormalizeRequest(x), p) == [Shield(c)] + more
    ensures Reached(agentId, ops + [Apply(x, p)], [Shield(c)] + Survivors(more), q,
                    if NormalizeRequest(x) == q then Some(p) else latest)
  {
    ShieldBack(c);
    hide Set, Reached, Survivors, KeepsPolicy, NormalizeRequest, IsValidAgentId, Shield, ShortPolicy, BackOf;
    hide ShieldKind;
    var ps := [Shield(c)] + rest;
    forall i | 0 <= i < |ps| ensures ShortPolicy(ps[i]) { if i > 0 { assert ps[i] == rest[i - 1]; } }
    GrantReaches(agentId, ops, ps, q, latest, x, p, c);
    SurvivorsOfMore(Shield(c), more);
  }

  lemma ShieldBack(c: char)
    requires ShieldKind(c)
    ensures BackOf(Shield(c)) == [Shield(c)] && ShortPolicy(Shield(c))
  {
    ShieldReloads(c);
    hide KeepsPolicy, RecoveredPolicy, ShortPolicy, Shield;
  }

  lemma SetBehind(s: PolicyEntry, rest: seq<PolicyEntry>, r: Request, p: string)
    requires s.request != r && |rest| <= 1
    ensures rest == [] ==> Set([s] + rest, r, p) == [s] + [PolicyEntry(r, p)]
    ensures rest != [] && rest[0].request == r ==> Set([s] + rest, r, p) == [s] + [PolicyEntry(r, p)]
    ensures rest != [] && rest[0].request != r ==> Set([s] + rest, r, p) == [s] + [rest[0], PolicyEntry(r, p)]
  {
    var ps := [s] + rest;
    var i := FindExact(ps, r, 0);
    if rest == [] {
      assert i == -1;
    } else {
      assert ps[1] == rest[0];
    }
  }

  lemma BackIsShort(p: PolicyEntry)
    ensures |BackOf(p)| <= 1 && forall i :: 0 <= i < |BackOf(p)| ==> ShortPolicy(BackOf(p)[i])
  {
    RecoveredIsShort(p);
    hide RecoveredPolicy, ShortRequest, IsPolicyValue;
  }

  function ShieldFor(q: Request): (c: char)
    ensures ShieldKind(c) && q.kind != [c]
  {
    if q.kind == "a" then 'b' else 'a'
  }

  /** A shield and one grant. */
  function OneGrant(x: Request, p: string, c: char): seq<Op> { [Apply(Shield(c).request, "ask")] + [Apply(x, p)] }

  lemma OneGrantReaches(agentId: string, x: Request, p: string, c: char, q: Request)
    requires IsValidAgentId(agentId) && ShieldKind(c) && q.kind != [c] && NormalizeRequest(x).kind != [c]
    requires KeepsPolicy(PolicyEntry(NormalizeRequest(x), p))
    ensures Reached(agentId, OneGrant(x, p, c), [Shield(c)] + BackOf(PolicyEntry(NormalizeRequest(x), p)), q,
                    if NormalizeRequest(x) == q then Some(p) else None)
  {
    assert Shield(c).request.kind == [c];
    hide Reached, Survivors, KeepsPolicy, NormalizeRequest, IsValidAgentId, Shield, Set, BackOf, ShieldKind;
    var r := NormalizeRequest(x);
    ShieldReached(agentId, c, q);
    SetBehind(Shield(c), [], r, p);
    assert [Shield(c)] + [] == [Shield(c)];
    NextReaches(agentId, [Apply(Shield(c).request, "ask")], [], q, None, x, p, c, [PolicyEntry(r, p)]);
    SurvivorsOfOne(PolicyEntry(r, p));
  }

  /** One more grant, for the request whose rule came back. */
  lemma OverwriteReaches(agentId: string, ops: seq<Op>, back: PolicyEntry, q: Request, latest: Option<string>,
                         x: Request, p: string, c: char)
    requires IsValidAgentId(agentId) && ShieldKind(c) && Reached(agentId, ops, [Shield(c)] + [back], q, latest)
    requires ShortPolicy(back) && NormalizeRequest(x) == back.request && back.request.kind != [c] && back.request != q
    requires KeepsPolicy(PolicyEntry(back.request, p))
    ensures Reached(agentId, ops + [Apply(x, p)], [Shield(c)] + BackOf(PolicyEntry(back.request, p)), q, latest)
  {
    assert Shield(c).request.kind == [c];
    hide Reached, Survivors, KeepsPolicy, NormalizeRequest, IsValidAgentId, Shield, ShieldKind, ShortPolicy, Set;
    hide BackOf;
    var e := PolicyEntry(back.request, p);
    SetBehind(Shield(c), [back], e.request, p);
    NextReaches(agentId, ops, [back], q, latest, x, p, c, [e]);
    SurvivorsOfOne(e);
  }

  /** One more grant, for another request. */
  lemma AppendReaches(agentId: string, ops: seq<Op>, back: PolicyEntry, q: Request, latest: Option<string>,
                      x: Request, p: string, c: char)
    requires IsValidAgentId(agentId) && ShieldKind(c) && Reached(agentId, ops, [Shield(c)] + [back], q, latest)
    requires ShortPolicy(back) && NormalizeRequest(x) == q && q.kind != [c] && back.request != q
    requires KeepsPolicy(PolicyEntry(q, p))
    ensures Reached(agentId, ops + [Apply(x, p)], [Shield(c)] + (BackOf(back) + BackOf(PolicyEntry(q, p))), q, Some(p))
  {
    assert Shield(c).request.kind == [c];
    hide Reached, Survivors, KeepsPolicy, NormalizeRequest, IsValidAgentId, Shield, ShieldKind, ShortPolicy, Set;
    hide BackOf;
    var e := PolicyEntry(q, p);
    SetBehind(Shield(c), [back], q, p);
    NextReaches(agentId, ops, [back], q, latest, x, p, c, [back, e]);
    SurvivorsOfTwo(back, e);
  }

  lemma SurvivorsOfTwo(p: PolicyEntry, w: PolicyEntry)
    ensures Survivors([p, w]) == BackOf(p) + BackOf(w)
  {
    hide Survivors, BackOf;
    assert [p, w] == [p] + [w];
    SurvivorsOfMore(p, [w]);
    SurvivorsOfOne(w);
  }

  lemma KeptBack(p: PolicyEntry)
    requires KeepsPolicy(RecoveredPolicy(p))
    ensures BackOf(p) == [RecoveredPolicy(p)]
  {
    hide KeepsPolicy, RecoveredPolicy;
  }

  // ---------- what a rule reads back as ----------

  /** The policy of a rule for the request is read at its own field. */
  predicate OwnPolicy(r: Request) {
    !Hit(r.kind, "policy") && !Hit(r.subject, "policy") && !Hit(r.method_, "policy")
  }

  lemma PolicyRead(r: Request, p: string, w: string)
    requires IsPolicyValue(p)
    ensures RecoveredPolicy(PolicyEntry(r, p)).request == RecoveredPolicy(PolicyEntry(r, w)).request
    ensures !OwnPolicy(r) ==> RecoveredPolicy(PolicyEntry(r, p)) == RecoveredPolicy(PolicyEntry(r, w))
    ensures OwnPolicy(r) ==> RecoveredPolicy(PolicyEntry(r, p)).policy == p
  {
    PolicyReadsItself(p);
    hide RecoveredPolicy, Read, IsPolicyValue, OwnPolicy, PolicyFrom;
    RereadIs(PolicyEntry(r, p));
    RereadIs(PolicyEntry(r, w));
    PolicySource(r, p, w);
  }

  lemma PolicySource(r: Request, p: string, w: string)
    ensures if OwnPolicy(r) then PolicyFrom(PolicyEntry(r, p)) == p
            else PolicyFrom(PolicyEntry(r, p)) == PolicyFrom(PolicyEntry(r, w))
  {
    hide Hit;
  }

  lemma PolicyReadsItself(p: string)
    requires IsPolicyValue(p)
    ensures Read("policy", p) == p
  {
    PolicyIsNoRequestKey();
    PolicyValueStored(p);
    PolicyValueHasNoControl(p);
    MangleIff(p);
    hide Stored, Mangle, IsPolicyValue, IsRequestKey;
  }

  /** Reading depends on where the method and the path are read, and not on what else the request holds. */
  lemma SameReading(a: PolicyEntry, b: PolicyEntry)
    requires a.request.kind == b.request.kind && a.request.subject == b.request.subject
    requires MethodFrom(a.request) == MethodFrom(b.request) && PathFrom(a.request) == PathFrom(b.request)
    requires PolicyFrom(a) == PolicyFrom(b)
    ensures RecoveredPolicy(a) == RecoveredPolicy(b)
  {
    RereadIs(a);
    RereadIs(b);
    hide RecoveredPolicy, MethodFrom, PathFrom, PolicyFrom, Read;
  }

  lemma FieldRead(k: string, v: string, w: string)
    requires k != "id" && Mangle(v) == w && NormalizeToken(w, SizeOf(k), IsLowercased(k)) == w
    ensures Read(k, v) == w
  {
    NormalFacts(w, SizeOf(k), IsLowercased(k));
    hide Mangle, NormalizeToken, SizeOf, IsLowercased;
  }

  lemma NormalFacts(v: string, size: nat, lowercase: bool)
    requires size > 0 && NormalizeToken(v, size, lowercase) == v
    ensures |v| < size && (lowercase ==> Lower(v) == v) && Trimmed(v)
  {
    LowerTwice(Cut(Trim(v), size));
    hide Trim;
    NormalizedIff(v, size, lowercase);
  }

  // ---------- a value whose last letters are written with a tab ----------

  lemma HitIsLong(v: string, k: string)
    requires Hit(v, k)
    ensures |v| >= |k|
  {
  }

  /** The same value, with a tab for the letter 't' of the key it is taken for.  It is taken for no key, and what is
      read back for it is the value. */
  function Veil(v: string): (u: string)
    ensures |u| == |v|
  {
    KeyEnds();
    if Hit(v, "method") then (HitIsLong(v, "method"); v[|v| - 4 := '\t'])
    else if Hit(v, "path") then (HitIsLong(v, "path"); v[|v| - 2 := '\t'])
    else v
  }

  /** Where the letter is. */
  lemma HitHasT(v: string)
    ensures Hit(v, "method") ==> |v| >= 6 && v[|v| - 4] == 't'
    ensures Hit(v, "path") ==> |v| >= 4 && v[|v| - 2] == 't'
  {
    KeyEnds();
    assert "method"[2] == 't' && "path"[2] == 't';
    if Hit(v, "method") { LetterOfHit(v, "method", 2); }
    if Hit(v, "path") { LetterOfHit(v, "path", 2); }
  }

  lemma LetterOfHit(v: string, k: string, i: nat)
    requires Hit(v, k) && i < |k|
    ensures |v| >= |k| && v[|v| - |k| + i] == k[i]
  {
    if v != k {
      var ending := v[|v| - (|k| + 1)..];
      assert ending == "\"" + k;
      assert ending[i + 1] == v[|v| - |k| + i];
    }
  }

  lemma VeilIs(v: string)
    ensures Veil(v) != v ==>
      exists i :: i in {|v| - 4, |v| - 2} && 2 <= i < |v| - 1 && v[i] == 't' && Veil(v) == v[i := '\t']
    ensures Veil(v) == v ==> !Hit(v, "method") && !Hit(v, "path")
  {
    HitHasT(v);
    hide Hit;
    if Hit(v, "method") {
      assert Veil(v) == v[|v| - 4 := '\t'];
    } else if Hit(v, "path") {
      assert Veil(v) == v[|v| - 2 := '\t'];
    }
  }

  lemma TabIsNoKey(v: string, k: string, i: nat)
    requires i < |v| <= i + |k| && v[i] == '\t' && '\t' !in k
    ensures !Hit(v, k)
  {
    if Hit(v, k) { LetterOfHit(v, k, i + |k| - |v|); }
  }

  lemma NoTabInKeys()
    ensures '\t' !in "method" && '\t' !in "path" && '\t' !in "policy"
  {
  }

  lemma VeilIsNoKey(v: string)
    ensures !Hit(Veil(v), "method") && !Hit(Veil(v), "path") && (Hit(Veil(v), "policy") ==> Hit(v, "policy"))
  {
    VeilIs(v);
    KeyEnds();
    NoTabInKeys();
    hide Hit, Veil;
    if Veil(v) != v {
      var i :| i in {|v| - 4, |v| - 2} && 2 <= i < |v| - 1 && v[i] == 't' && Veil(v) == v[i := '\t'];
      TabIsNoKey(Veil(v), "method", i);
      TabIsNoKey(Veil(v), "path", i);
      TabIsNoKey(Veil(v), "policy", i);
    }
  }

  lemma {:induction false} TabReadsAsT(v: string, i: nat)
    requires NoControl(v) && i < |v| && v[i] == 't'
    ensures Mangle(v[i := '\t']) == v
  {
    var u, w := v[i := '\t'], v[1..];
    assert NoControl(w) by { assert forall j :: 0 <= j < |w| ==> w[j] == v[j + 1]; }
    TabIsEscaped();
    PlainIsKept(v[0]);
    MangleIff(w);
    hide MangleChar, Mangle, NoControl;
    FirstMangled(u);
    assert v == [v[0]] + w;
    if i == 0 {
      assert u[1..] == w;
    } else {
      assert w[i - 1] == v[i];
      assert u[1..] == w[i - 1 := '\t'];
      TabReadsAsT(w, i - 1);
    }
  }

  lemma FirstMangled(v: string)
    requires v != ""
    ensures Mangle(v) == MangleChar(v[0]) + Mangle(v[1..])
  {
  }

  lemma TabIsEscaped()
    ensures MangleChar('\t') == "t"
  {
  }

  lemma PlainIsKept(c: char)
    requires c as int >= 0x20
    ensures MangleChar(c) == [c]
  {
  }

  lemma VeilReads(v: string)
    requires NoControl(v)
    ensures Mangle(Veil(v)) == v
  {
    VeilIs(v);
    MangleIff(v);
    hide Veil, Mangle;
    if Veil(v) != v {
      var i :| i in {|v| - 4, |v| - 2} && 2 <= i < |v| - 1 && v[i] == 't' && Veil(v) == v[i := '\t'];
      TabReadsAsT(v, i);
    }
  }

  lemma VeilIsNormal(v: string, size: nat, lowercase: bool)
    requires size > 0 && NormalizeToken(v, size, lowercase) == v
    ensures NormalizeToken(Veil(v), size, lowercase) == Veil(v)
  {
    NormalFacts(v, size, lowercase);
    VeilIs(v);
    hide Veil, Trim;
    var u := Veil(v);
    if u != v {
      var i :| i in {|v| - 4, |v| - 2} && 2 <= i < |v| - 1 && v[i] == 't' && u == v[i := '\t'];
      assert u[0] == v[0] && u[|u| - 1] == v[|v| - 1];
      if lowercase { TabIsLower(v, i); }
    }
    NormalizedIff(u, size, lowercase);
  }

  lemma TabIsLower(v: string, i: nat)
    requires i < |v| && Lower(v) == v
    ensures Lower(v[i := '\t']) == v[i := '\t']
  {
    var u := v[i := '\t'];
    forall j | 0 <= j < |u| ensures Lower(u)[j] == u[j] { assert Lower(v)[j] == v[j]; }
  }

  // ---------- a rule that does not come back, or whose policy is read elsewhere ----------

  lemma NoneMatch(ps: seq<PolicyEntry>, q: Request)
    requires forall i :: 0 <= i < |ps| ==> !Matches(ps[i].request, q)
    ensures Ruling(ps, q) == ""
  {
    hide Matches, Score;
  }

  lemma OtherKind(s: Request, q: Request)
    requires s.kind != q.kind
    ensures !Matches(s, q)
  {
  }

  lemma PolicyMakesNoDifference(q: Request, s: PolicyEntry, p: string, w: string)
    requires IsPolicyValue(p) && IsPolicyValue(w) && q.kind != s.request.kind
    requires !OwnPolicy(q) || !Matches(RecoveredPolicy(PolicyEntry(q, p)).request, q)
    ensures Ruling([s] + BackOf(PolicyEntry(q, p)), q) == Ruling([s] + BackOf(PolicyEntry(q, w)), q)
  {
    PolicyRead(q, p, w);
    OtherKind(s.request, q);
    hide RecoveredPolicy, OwnPolicy, Matches, BackOf, IsPolicyValue, Ruling;
    if OwnPolicy(q) {
      NoneMatchBehind(s, PolicyEntry(q, p), q);
      NoneMatchBehind(s, PolicyEntry(q, w), q);
    } else {
      SameBack(PolicyEntry(q, p), PolicyEntry(q, w));
    }
  }

  lemma NoneMatchBehind(s: PolicyEntry, p: PolicyEntry, q: Request)
    requires !Matches(s.request, q) && !Matches(RecoveredPolicy(p).request, q)
    ensures Ruling([s] + BackOf(p), q) == ""
  {
    hide RecoveredPolicy, Matches, KeepsPolicy, Ruling;
    NoneMatch([s] + BackOf(p), q);
  }

  lemma SameBack(p: PolicyEntry, w: PolicyEntry)
    requires RecoveredPolicy(p) == RecoveredPolicy(w)
    ensures BackOf(p) == BackOf(w)
  {
    hide RecoveredPolicy, KeepsPolicy;
  }

  lemma OneGrantMisleads(agentId: string, x: Request)
    requires IsValidAgentId(agentId) && NormalizeRequest(x).kind != "" && NormalizeRequest(x).subject != ""
    requires var q := NormalizeRequest(x);
      !OwnPolicy(q) || !Matches(RecoveredPolicy(PolicyEntry(q, "never")).request, q)
    ensures exists ops :: Misled(agentId, ops, NormalizeRequest(x))
  {
    PolicyWords();
    hide NormalizeRequest, IsValidAgentId, IsPolicyValue, RecoveredPolicy, OwnPolicy, Matches, BackOf, Shield, Ruling;
    hide OneGrant, Misled, Reached;
    var q := NormalizeRequest(x);
    var c := ShieldFor(q);
    ShieldKindIs(c);
    PolicyMakesNoDifference(q, Shield(c), "never", "always");
    var p := if Ruling([Shield(c)] + BackOf(PolicyEntry(q, "never")), q) == "always" then "never" else "always";
    OneGrantReaches(agentId, x, p, c, q);
    ReachedMisled(agentId, OneGrant(x, p, c), [Shield(c)] + BackOf(PolicyEntry(q, p)), q, p);
  }

  lemma ShieldKindIs(c: char)
    ensures Shield(c).request.kind == [c]
  {
  }

  // ---------- a rule that comes back as another one that matches ----------

  lemma MatchIsNamed(r: Request, q: Request)
    requires Matches(r, q) && q.kind != "" && q.subject != ""
    ensures r.kind == q.kind && r.subject != ""
  {
  }

  lemma RecoveredIsNormal(p: PolicyEntry)
    ensures NormalRequest(RecoveredPolicy(p).request) && NoControlIn(RecoveredPolicy(p).request)
  {
    RecoveredIsSettled(p);
    hide RecoveredPolicy;
    SettledIsNormal(RecoveredPolicy(p));
  }

  lemma SettledIsNormal(e: PolicyEntry)
    requires Settled(e)
    ensures NormalRequest(e.request) && NoControlIn(e.request)
  {
    PolicyFields(e);
    hide PolicyAsEntry, Stored, NoControl, NormalizeRequest, PlainKeys, IsRequestKey, SizeOf;
    var fs := PolicyAsEntry(e).fields;
    assert Stored(fs[0].key, fs[0].val) == fs[0].val && Stored(fs[1].key, fs[1].val) == fs[1].val;
    assert Stored(fs[2].key, fs[2].val) == fs[2].val && Stored(fs[3].key, fs[3].val) == fs[3].val;
    assert NoControl(fs[0].val) && NoControl(fs[1].val) && NoControl(fs[2].val) && NoControl(fs[3].val);
    StoredIsNormal(e.request);
  }

  /** The rule that came back is overwritten as its own request. */
  lemma TwoGrantsMislead(agentId: string, x: Request)
    requires IsValidAgentId(agentId) && NormalizeRequest(x).kind != "" && NormalizeRequest(x).subject != ""
    requires var q := NormalizeRequest(x);
      && OwnPolicy(q) && Matches(RecoveredPolicy(PolicyEntry(q, "never")).request, q)
      && RecoveredPolicy(PolicyEntry(q, "never")).request != q
    ensures exists ops :: Misled(agentId, ops, NormalizeRequest(x))
  {
    PolicyWords();
    hide NormalizeRequest, IsValidAgentId, IsPolicyValue, RecoveredPolicy, OwnPolicy, Matches, BackOf, Shield, Ruling;
    hide OneGrant, Misled, Reached, ShortPolicy;
    var q := NormalizeRequest(x);
    var r, c := RecoveredPolicy(PolicyEntry(q, "never")).request, ShieldFor(q);
    MatchIsNamed(r, q);
    RecoveredIsNormal(PolicyEntry(q, "never"));
    var ps := [Shield(c)] + BackOf(PolicyEntry(r, "never"));
    var p := if Ruling(ps, q) == "always" then "never" else "always";
    PolicyRead(q, p, "never");
    KeptBack(PolicyEntry(q, p));
    BackIsShort(PolicyEntry(q, p));
    assert BackOf(PolicyEntry(q, p))[0] == PolicyEntry(r, p);
    OneGrantReaches(agentId, x, p, c, q);
    OverwriteReaches(agentId, OneGrant(x, p, c), PolicyEntry(r, p), q, Some(p), r, "never", c);
    ReachedMisled(agentId, OneGrant(x, p, c) + [Apply(r, "never")], ps, q, p);
  }

  // ---------- a rule that comes back by coincidence ----------

  function OtherThan(v: string): (w: string)
    ensures w != v && |w| == 1
  {
    if v == "a" then "b" else "a"
  }

  lemma OtherIsPlain(v: string, size: nat)
    requires size > 1
    ensures NormalizeToken(OtherThan(v), size, false) == OtherThan(v) && NoControl(OtherThan(v))
    ensures !Hit(OtherThan(v), "policy")
  {
    NormalizedIff(OtherThan(v), size, false);
    KeyEnds();
    ShorterIsNoKey(OtherThan(v), "policy");
    hide NormalizeToken, Hit;
  }

  /** The request with its first two values veiled. */
  function Veiled(q: Request): Request { q.(kind := Veil(q.kind), subject := Veil(q.subject)) }

  lemma VeiledIsNormal(q: Request)
    requires NormalRequest(q)
    ensures NormalRequest(Veiled(q))
  {
    hide NormalizeToken, Veil;
    VeilIsNormal(q.kind, KIND_SIZE, true);
    VeilIsNormal(q.subject, SUBJECT_SIZE, true);
  }

  lemma VeiledReads(q: Request, p: string)
    requires NormalRequest(q) && NoControlIn(q) && OwnPolicy(q) && IsPolicyValue(p)
    ensures RecoveredPolicy(PolicyEntry(Veiled(q), p)) == PolicyEntry(q, p)
  {
    RereadIs(PolicyEntry(Veiled(q), p));
    VeilIsNoKey(q.kind);
    VeilIsNoKey(q.subject);
    PolicyReadsItself(p);
    FieldsRead(q);
    hide RecoveredPolicy, Hit, Read, Veil, NormalizeRequest, IsPolicyValue, NoControl;
  }

  lemma FieldsRead(q: Request)
    requires NormalRequest(q) && NoControlIn(q)
    ensures Read("kind", Veil(q.kind)) == q.kind && Read("subject", Veil(q.subject)) == q.subject
    ensures Read("method", q.method_) == q.method_ && Read("path", q.path) == q.path
  {
    VeilReads(q.kind);
    VeilReads(q.subject);
    MangleIff(q.method_);
    MangleIff(q.path);
    SizesOf();
    hide NormalizeToken, Mangle, Veil, Read, NoControl, SizeOf, IsLowercased;
    FieldRead("kind", Veil(q.kind), q.kind);
    FieldRead("subject", Veil(q.subject), q.subject);
    FieldRead("method", q.method_, q.method_);
    FieldRead("path", q.path, q.path);
  }

  lemma SizesOf()
    ensures SizeOf("kind") == KIND_SIZE && SizeOf("subject") == SUBJECT_SIZE && SizeOf("method") == METHOD_SIZE
    ensures SizeOf("path") == PATH_SIZE && IsLowercased("kind") && IsLowercased("subject")
    ensures !IsLowercased("method") && !IsLowercased("path")
    ensures "kind" != "id" && "subject" != "id" && "method" != "id" && "path" != "id"
  {
    assert "kind"[0] == 'k' && "subject"[0] == 's' && "method"[0] == 'm' && "path"[0] == 'p' && "id"[0] == 'i';
    assert "policy"[0] == 'p' && |"policy"| == 6 && |"path"| == 4;
  }

  /** The request that differs only in the field that is not read at its own place. */
  function Twin(q: Request): (e: Request)
    ensures e != q
  {
    if Hit(q.kind, "path") || Hit(q.subject, "path") then q.(path := OtherThan(q.path))
    else q.(method_ := OtherThan(q.method_))
  }

  lemma TwinIsPlain(q: Request)
    requires NormalRequest(q) && NoControlIn(q) && OwnPolicy(q)
    ensures NormalRequest(Twin(q)) && NoControlIn(Twin(q)) && OwnPolicy(Twin(q))
  {
    OtherIsPlain(q.path, PATH_SIZE);
    OtherIsPlain(q.method_, METHOD_SIZE);
    hide Hit, NormalizeToken, NoControl, OtherThan;
  }

  lemma TwinReads(q: Request, p: string)
    requires OwnPolicy(q) && (Hit(q.kind, "method") || Hit(q.kind, "path") || Hit(q.subject, "path"))
    ensures RecoveredPolicy(PolicyEntry(Twin(q), p)) == RecoveredPolicy(PolicyEntry(q, p))
  {
    OtherIsPlain(q.method_, METHOD_SIZE);
    hide Hit, RecoveredPolicy, OtherThan, NormalizeToken, NoControl;
    SameReading(PolicyEntry(Twin(q), p), PolicyEntry(q, p));
  }

  lemma VeiledKind(q: Request, c: char)
    requires q.kind != [c] && q.kind != "" && q.subject != ""
    ensures Veiled(q).kind != [c] && Veiled(q).kind != "" && Veiled(q).subject != ""
  {
    VeilIs(q.kind);
    hide Veil;
  }

  lemma FirstOfTwo(s: PolicyEntry, q: Request, p: string, w: string)
    requires s.request.kind != q.kind
    ensures Ruling([s] + ([PolicyEntry(q, p)] + [PolicyEntry(q, w)]), q) == p
  {
    var ps := [s] + ([PolicyEntry(q, p)] + [PolicyEntry(q, w)]);
    hide Matches, Score;
    assert ps[0] == s && ps[1] == PolicyEntry(q, p);
    assert FindExact(ps, q, 0) == 1;
    ExactRuleGoverns(ps, q);
  }

  /** A first rule comes back as a rule for the twin, and at the next reload as one for the request itself, in front of
      its own. */
  lemma TwinMisleads(agentId: string, x: Request)
    requires IsValidAgentId(agentId) && NormalizeRequest(x).kind != "" && NormalizeRequest(x).subject != ""
    requires var q := NormalizeRequest(x);
      && OwnPolicy(q) && RecoveredPolicy(PolicyEntry(q, "never")).request == q
      && (Hit(q.kind, "method") || Hit(q.kind, "path") || Hit(q.subject, "path"))
    ensures exists ops :: Misled(agentId, ops, NormalizeRequest(x))
  {
    PolicyWords();
    hide NormalizeRequest, IsValidAgentId, IsPolicyValue, RecoveredPolicy, OwnPolicy, BackOf, Shield, Ruling, Hit;
    hide OneGrant, Misled, Reached, ShortPolicy, Twin, Veiled, NoControlIn;
    var q := NormalizeRequest(x);
    var c, e := ShieldFor(q), Twin(q);
    TwinRules(q);
    TwinKeepsKind(q);
    VeiledKind(e, c);
    var v := Veiled(e);
    OneGrantReaches(agentId, v, "never", c, q);
    BackIsShort(PolicyEntry(v, "never"));
    assert BackOf(PolicyEntry(v, "never"))[0] == PolicyEntry(e, "never");
    var latest := if v == q then Some("never") else None;
    AppendReaches(agentId, OneGrant(v, "never", c), PolicyEntry(e, "never"), q, latest, x, "always", c);
    ShieldKindIs(c);
    FirstOfTwo(Shield(c), q, "never", "always");
    ReachedMisled(agentId, OneGrant(v, "never", c) + [Apply(x, "always")],
                  [Shield(c)] + ([PolicyEntry(q, "never")] + [PolicyEntry(q, "always")]), q, "always");
  }

  lemma TwinKeepsKind(q: Request)
    ensures Twin(q).kind == q.kind && Twin(q).subject == q.subject
  {
    hide Hit;
  }

  /** How the rules of such a run read back, one reload after another. */
  lemma TwinRules(q: Request)
    requires q.kind != "" && q.subject != "" && OwnPolicy(q) && RecoveredPolicy(PolicyEntry(q, "never")).request == q
    requires Hit(q.kind, "method") || Hit(q.kind, "path") || Hit(q.subject, "path")
    ensures var e, v := Twin(q), Veiled(Twin(q));
      && NormalRequest(v) && BackOf(PolicyEntry(v, "never")) == [PolicyEntry(e, "never")]
      && BackOf(PolicyEntry(e, "never")) == [PolicyEntry(q, "never")]
      && BackOf(PolicyEntry(q, "always")) == [PolicyEntry(q, "always")]
  {
    PolicyWords();
    hide NormalRequest, IsPolicyValue, RecoveredPolicy, OwnPolicy, Hit, Twin, Veiled, BackOf, NoControlIn;
    var e := Twin(q);
    RecoveredIsNormal(PolicyEntry(q, "never"));
    PolicyRead(q, "never", "always");
    PolicyRead(q, "always", "never");
    TwinIsPlain(q);
    TwinReads(q, "never");
    TwinKeepsKind(q);
    VeiledIsNormal(e);
    VeiledReads(e, "never");
    KeptBack(PolicyEntry(Veiled(e), "never"));
    KeptBack(PolicyEntry(e, "never"));
    KeptBack(PolicyEntry(q, "always"));
  }

  /** For every request with a name that does not stand firm there is a run that misleads. */
  lemma NotFirmFails(agentId: string, x: Request)
    requires IsValidAgentId(agentId) && NormalizeRequest(x).kind != "" && NormalizeRequest(x).subject != ""
    requires !Firm(NormalizeRequest(x))
    ensures exists ops :: Misled(agentId, ops, NormalizeRequest(x))
  {
    hide NormalizeRequest, IsValidAgentId, RecoveredPolicy, Hit, Misled, NoControlIn, Matches, Firm;
    var q := NormalizeRequest(x);
    var r := RecoveredPolicy(PolicyEntry(q, "never")).request;
    if !OwnPolicy(q) || !Matches(r, q) {
      OneGrantMisleads(agentId, x);
    } else if r != q {
      TwoGrantsMislead(agentId, x);
    } else {
      RecoveredIsNormal(PolicyEntry(q, "never"));
      FirmIff(q);
      TwinMisleads(agentId, x);
    }
  }

  // ---------- exactly the firm requests are decided by their last grant ----------

  /** An evaluation's outcome is the one that a policy calls for, if there is one. */
  ghost predicate AsGranted(outcome: Outcome, granted: Option<string>) {
    match granted
    case None => true
    case Some(policy) =>
      && (outcome == Approved <==> policy == "always")
      && (outcome == Denied <==> policy == "never")
      && (outcome == Waiting || outcome == Refused <==> policy != "always" && policy != "never")
  }

  /** The outcome of operation `k` is the one that the policy last granted for exactly its request calls for. */
  ghost predicate FollowsGrant(agentId: string, ops: seq<Op>, k: nat)
    requires k < |ops|
  {
    AsGranted(StepFile(agentId, RunFile(agentId, "", ops, k), ops[k]).1,
              LatestGrantOnFile(agentId, ops, k, NormalizeRequest(ops[k].request)))
  }

  /** In every run, at every evaluation of this request, the last grant for exactly it decides. */
  ghost predicate AlwaysFollowsGrant(agentId: string, q: Request) {
    forall ops: seq<Op>, k: nat ::
      k < |ops| && ops[k].Evaluate? && NormalizeRequest(ops[k].request) == q ==> FollowsGrant(agentId, ops, k)
  }

  lemma MisledRun(agentId: string, ops: seq<Op>, x: Request)
    requires Misled(agentId, ops, NormalizeRequest(x))
    requires NormalizeRequest(x).kind != "" && NormalizeRequest(x).subject != ""
    ensures !FollowsGrant(agentId, ops + [Evaluate(x, 0)], |ops|)
  {
    hide NormalizeRequest, Load, Ruling, StepFile, LatestGrantOnFile, RunFile;
    PrefixRun(agentId, ops, Evaluate(x, 0), |ops|, NormalizeRequest(x));
    var more := ops + [Evaluate(x, 0)];
    assert more[|ops|] == Evaluate(x, 0);
    EvaluateFile(agentId, RunFile(agentId, "", ops, |ops|), Evaluate(x, 0));
  }

  /** No rule is granted for a request without a kind or a subject. */
  lemma {:induction false} NamelessIsNotGranted(agentId: string, ops: seq<Op>, k: nat, q: Request)
    requires k <= |ops| && (q.kind == "" || q.subject == "")
    ensures LatestGrantOnFile(agentId, ops, k, q) == None
  {
    hide Load, NormalizeRequest, NormalizeToken, Print, Ruling, SetPolicy, AddPending, RemovePending, IsPolicyValue;
    if k > 0 { NamelessIsNotGranted(agentId, ops, k - 1, q); }
  }

  /** The last rule granted for exactly a request decides it at every evaluation of every run, with saves and reloads
      between the steps, exactly when the request is firm (or cannot have a rule). */
  lemma FirmIffFollowsGrant(agentId: string, x: Request)
    requires IsValidAgentId(agentId)
    ensures var q := NormalizeRequest(x);
      AlwaysFollowsGrant(agentId, q) <==> Firm(q) || q.kind == "" || q.subject == ""
  {
    hide NormalizeRequest, IsValidAgentId, Firm, FollowsGrant, Misled;
    var q := NormalizeRequest(x);
    if Firm(q) || q.kind == "" || q.subject == "" {
      forall ops: seq<Op>, k: nat | k < |ops| && ops[k].Evaluate? && NormalizeRequest(ops[k].request) == q
        ensures FollowsGrant(agentId, ops, k) {
        FirmFollowsGrant(agentId, ops, k);
      }
    } else {
      NotFirmFails(agentId, x);
      var ops :| Misled(agentId, ops, q);
      var more := ops + [Evaluate(x, 0)];
      MisledRun(agentId, ops, x);
      assert more[|ops|] == Evaluate(x, 0);
      assert !FollowsGrant(agentId, more, |ops|);
    }
  }

  lemma FirmFollowsGrant(agentId: string, ops: seq<Op>, k: nat)
    requires IsValidAgentId(agentId) && k < |ops| && ops[k].Evaluate?
    requires var q := NormalizeRequest(ops[k].request); Firm(q) || q.kind == "" || q.subject == ""
    ensures FollowsGrant(agentId, ops, k)
  {
    hide NormalizeRequest, IsValidAgentId, Firm, StepFile, RunFile, LatestGrantOnFile;
    var q := NormalizeRequest(ops[k].request);
    if LatestGrantOnFile(agentId, ops, k, q).Some? {
      if q.kind == "" || q.subject == "" { NamelessIsNotGranted(agentId, ops, k, q); }
      LatestExactGrantDecides(agentId, ops, k);
    }
  }
}
