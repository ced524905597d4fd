/** What a rule matches, which of several decides, and what a request's id is, said in terms of the fields. */
module RuleMatching {
  import opened Wrappers
  import opened CText
  import opened AccessRules

  // ---------- what is compared ----------

  /** Of a request whose values fit and have no white space around them, kind and subject are compared in lower case,
      and method and path as they are. */
  lemma ComparedAs(r: Request)
    requires Trimmed(r.kind) && Trimmed(r.subject) && Trimmed(r.method_) && Trimmed(r.path)
    requires |r.kind| < 32 && |r.subject| < 256 && |r.method_| < 64 && |r.path| < 512
    ensures NormalizeRequest(r) == Request(Lower(r.kind), Lower(r.subject), r.method_, r.path)
  {
    TrimTrims(r.kind);
    TrimTrims(r.subject);
    TrimTrims(r.method_);
    TrimTrims(r.path);
    hide Trim;
  }

  /** The id of an agent is the name of its file: it holds no dot and no slash. */
  lemma AgentIdIsFileName(id: string)
    requires IsValidAgentId(id)
    ensures '.' !in id && '/' !in id && id[..4] == "agt-" && 4 < |id| < 64
  {
    forall i | 0 <= i < |id| ensures id[i] != '.' && id[i] != '/' {
      if i < 4 { assert id[i] == id[..4][i]; }
    }
  }

  /** When there is no more room: a new rule is refused at 128 rules, and a new request at 128 that wait. */
  lemma NoMoreRoom(ps: seq<PolicyEntry>, ws: seq<PendingEntry>, r: Request, policy: string, now: nat)
    ensures SetPolicy(ps, r, policy) == None <==> |ps| >= 128 && forall i :: 0 <= i < |ps| ==> ps[i].request != r
    ensures AddPending(ws, r, now) == None <==> |ws| >= 128 && forall i :: 0 <= i < |ws| ==> ws[i].request != r
  {
    RequestsAre(ws, r);
    hide Requests;
  }

  // ---------- what a rule matches ----------

  /** `subject` is something in front of a dot and `s`. */
  ghost predicate IsBelow(subject: string, s: string) {
    exists front :: front != "" && subject == front + "." + s
  }

  /** A rule for "*.s" matches that very text and what stands below `s`: not `s` itself, and nothing that merely ends
      in it. */
  lemma WildcardMatches(s: string, subject: string)
    ensures SubjectMatches("*." + s, subject) <==> subject == "*." + s || IsBelow(subject, s)
  {
    var rule := "*." + s;
    assert rule != "*" && "*." <= rule && rule[1..] == "." + s;
    var n := |subject| - |s| - 1;
    if n > 0 && subject[n..] == "." + s {
      var front := subject[..n];
      assert front + "." + s == front + ("." + s);
      assert subject == front + "." + s;
    }
    if IsBelow(subject, s) {
      var front :| front != "" && subject == front + "." + s;
      assert front + "." + s == front + ("." + s);
      assert subject[n..] == "." + s;
    }
  }

  /** "*" matches every subject, and a rule that is no wildcard matches only itself. */
  lemma PlainMatches(rule: string, subject: string)
    ensures rule == "*" ==> SubjectMatches(rule, subject)
    ensures rule != "*" && (forall s :: rule != "*." + s) ==> (SubjectMatches(rule, subject) <==> subject == rule)
  {
    if "*." <= rule { assert rule == "*." + rule[2..]; }
  }

  lemma FieldMatchesIff(rule: string, value: string)
    ensures FieldMatches(rule, value) <==> rule in {"", "*", value}
  {
  }

  lemma OneRule(rule: Request, policy: string, r: Request)
    ensures Ruling([PolicyEntry(rule, policy)], r) == if Matches(rule, r) then policy else ""
  {
    hide Matches, Score;
  }

  /** The ruling of one wildcard rule. */
  lemma WildcardRuling(rule: Request, s: string, policy: string, r: Request)
    requires rule.subject == "*." + s
    ensures Ruling([PolicyEntry(rule, policy)], r) ==
      if r.kind == rule.kind && (r.subject == "*." + s || IsBelow(r.subject, s))
        && rule.method_ in {"", "*", r.method_} && rule.path in {"", "*", r.path}
      then policy else ""
  {
    OneRule(rule, policy, r);
    WildcardMatches(s, r.subject);
    hide SubjectMatches, IsBelow, Ruling;
  }

  /** One instance: a rule for the hosts of a domain says nothing of another domain whose name ends in the same
      letters, nor of the domain itself. */
  lemma OtherDomain(policy: string)
    ensures var rule := Request("http", "*.example.com", "", "");
      && Ruling([PolicyEntry(rule, policy)], Request("http", "www.example.com", "GET", "/")) == policy
      && Ruling([PolicyEntry(rule, policy)], Request("http", "badexample.com", "GET", "/")) == ""
      && Ruling([PolicyEntry(rule, policy)], Request("http", "example.com", "GET", "/")) == ""
  {
    var rule := Request("http", "*.example.com", "", "");
    assert "*.example.com" == "*." + "example.com";
    WildcardRuling(rule, "example.com", policy, Request("http", "www.example.com", "GET", "/"));
    WildcardRuling(rule, "example.com", policy, Request("http", "badexample.com", "GET", "/"));
    WildcardRuling(rule, "example.com", policy, Request("http", "example.com", "GET", "/"));
    BelowOrNot();
    hide Ruling, IsBelow;
  }

  lemma BelowOrNot()
    ensures IsBelow("www.example.com", "example.com")
    ensures !IsBelow("badexample.com", "example.com") && !IsBelow("example.com", "example.com")
    ensures "badexample.com" != "*.example.com" && "example.com" != "*.example.com"
  {
    assert "www.example.com" == "www" + "." + "example.com";
    assert |"badexample.com"| == 14 && |"example.com"| == 11 && |"*.example.com"| == 13;
    assert "badexample.com"[2] == 'd';
    DotInFront("badexample.com", "example.com");
    DotInFront("example.com", "example.com");
  }

  lemma DotInFront(subject: string, s: string)
    ensures IsBelow(subject, s) ==> |subject| > |s| + 1 && subject[|subject| - |s| - 1] == '.'
  {
    if IsBelow(subject, s) {
      var front :| front != "" && subject == front + "." + s;
      assert subject[|front|] == '.' && |subject| == |front| + 1 + |s|;
    }
  }

  // ---------- which of several rules decides ----------

  /** `a` fits `r` more closely: an equal subject counts before everything else, then an equal method, then an equal
      path. */
  ghost predicate FitsCloser(a: Request, b: Request, r: Request) {
    || (a.subject == r.subject && b.subject != r.subject)
    || ((a.subject == r.subject <==> b.subject == r.subject)
        && (|| (a.method_ == r.method_ && b.method_ != r.method_)
            || ((a.method_ == r.method_ <==> b.method_ == r.method_) && a.path == r.path && b.path != r.path)))
  }

  lemma ScoreIsCloseness(a: Request, b: Request, r: Request)
    ensures Score(a, r) > Score(b, r) <==> FitsCloser(a, b, r)
  {
  }

  /** The rule that decides matches; no matching rule fits more closely, and none in front of it as closely. */
  lemma ClosestRuleDecides(ps: seq<PolicyEntry>, r: Request, i: nat)
    requires i < |ps|
    ensures FindPolicy(ps, r, |ps|) == i <==>
      && Matches(ps[i].request, r)
      && (forall j :: 0 <= j < |ps| && Matches(ps[j].request, r) ==> !FitsCloser(ps[j].request, ps[i].request, r))
      && (forall j :: 0 <= j < i && Matches(ps[j].request, r) ==> FitsCloser(ps[i].request, ps[j].request, r))
  {
    hide Matches, Score, FitsCloser, FindPolicy;
    var b := FindPolicy(ps, r, |ps|);
    forall j | 0 <= j < |ps| ensures Score(ps[j].request, r) > Score(ps[i].request, r)
      <==> FitsCloser(ps[j].request, ps[i].request, r) {
      ScoreIsCloseness(ps[j].request, ps[i].request, r);
    }
    forall j | 0 <= j < |ps| ensures Score(ps[i].request, r) > Score(ps[j].request, r)
      <==> FitsCloser(ps[i].request, ps[j].request, r) {
      ScoreIsCloseness(ps[i].request, ps[j].request, r);
    }
    if Governs(ps, r, i, |ps|) { GovernsUnique(ps, r, i, b); }
  }

  // ---------- request ids ----------

  /** The fields of a request, each with a bar behind it. */
  function Barred(r: Request): string { r.kind + "|" + (r.subject + "|" + (r.method_ + "|" + (r.path + "|"))) }

  ghost function Pow33(n: nat): nat { if n == 0 then 1 else 33 * Pow33(n - 1) }

  /** The text read as a number to base 33, its characters as the digits. */
  ghost function Base33(s: string): nat { if s == "" then 0 else s[0] as nat * Pow33(|s| - 1) + Base33(s[1..]) }

  lemma {:induction false} Base33Snoc(s: string, c: char)
    ensures Base33(s + [c]) == 33 * Base33(s) + c as nat
  {
    if s == "" {
      assert (s + [c])[1..] == "" && Pow33(0) == 1;
    } else {
      Base33Snoc(s[1..], c);
      assert (s + [c])[1..] == s[1..] + [c];
      assert Pow33(|s|) == 33 * Pow33(|s| - 1);
      assert s[0] as nat * (33 * Pow33(|s| - 1)) == 33 * (s[0] as nat * Pow33(|s| - 1));
    }
  }

  lemma ModStep(a: nat, c: nat)
    ensures (a % WORD * 33 + c) % WORD == (33 * a + c) % WORD
  {
    var q := a / WORD;
    assert a == q * WORD + a % WORD;
    assert 33 * a + c == (a % WORD * 33 + c) + (33 * q) * WORD;
    ModPlus(a % WORD * 33 + c, 33 * q);
  }

  lemma {:induction false} ModPlus(a: nat, k: nat)
    ensures (a + k * WORD) % WORD == a % WORD
  {
    if k > 0 {
      ModPlus(a, k - 1);
      assert a + k * WORD == a + (k - 1) * WORD + WORD;
    }
  }

  /** The running hash of a text is that number behind the seed, in 64 bits. */
  lemma {:induction false} HashIsBase33(seed: nat, s: string)
    requires seed < WORD
    ensures HashFrom(seed, s, |s|) == (seed * Pow33(|s|) + Base33(s)) % WORD
  {
    hide WORD;
    if s == "" {
      SeedAlone(seed, s);
    } else {
      var n := |s| - 1;
      var front := s[..n];
      HashIsBase33(seed, front);
      hide HashFrom, Base33;
      HashLast(seed, front, s[n]);
      assert s == front + [s[n]];
      Base33Snoc(front, s[n]);
      OneMoreDigit(seed, Pow33(n), Base33(front), s[n] as nat);
    }
  }

  lemma SeedAlone(seed: nat, s: string)
    requires seed < WORD && s == ""
    ensures HashFrom(seed, s, |s|) == (seed * Pow33(|s|) + Base33(s)) % WORD
  {
    assert Pow33(0) == 1 && seed * 1 == seed;
  }

  lemma OneMoreDigit(seed: nat, power: nat, value: nat, c: nat)
    ensures ((seed * power + value) % WORD * 33 + c) % WORD == (seed * (33 * power) + (33 * value + c)) % WORD
  {
    ModStep(seed * power + value, c);
    TimesThirtyThree(seed, power, value, c);
  }

  lemma HashLast(seed: nat, front: string, c: char)
    requires seed < WORD
    ensures HashFrom(seed, front + [c], |front| + 1) == (HashFrom(seed, front, |front|) * 33 + c as nat) % WORD
  {
    HashPrefix(seed, front, [c], |front|);
    assert (front + [c])[|front|] == c;
  }

  lemma TimesThirtyThree(seed: nat, power: nat, value: nat, c: nat)
    ensures 33 * (seed * power + value) + c == seed * (33 * power) + (33 * value + c)
  {
    assert seed * (33 * power) == 33 * (seed * power);
  }

  lemma {:induction false} HashPrefix(seed: nat, s: string, t: string, n: nat)
    requires seed < WORD && n <= |s|
    ensures HashFrom(seed, s + t, n) == HashFrom(seed, s, n)
  {
    if n > 0 { HashPrefix(seed, s, t, n - 1); }
  }

  lemma {:induction false} HashConcat(seed: nat, s: string, t: string, n: nat)
    requires seed < WORD && n <= |t|
    ensures HashFrom(seed, s + t, |s| + n) == HashFrom(HashFrom(seed, s, |s|), t, n)
  {
    if n == 0 { HashPrefix(seed, s, t, |s|); } else {
      HashConcat(seed, s, t, n - 1);
      assert (s + t)[|s| + n - 1] == t[n - 1];
    }
  }

  lemma FieldHash(seed: nat, s: string)
    requires seed < WORD
    ensures HashField(seed, s) == HashFrom(seed, s + "|", |s| + 1)
  {
    HashPrefix(seed, s, "|", |s|);
  }

  /** The id of a request is made of the number its barred fields stand for. */
  lemma IdIsBase33(r: Request)
    ensures RequestId(r) == "req-" + Hex((5381 * Pow33(|Barred(r)|) + Base33(Barred(r))) % WORD)
  {
    hide HashFrom, HashField, Hex, Pow33, Base33;
    var p := r.path + "|";
    var m := r.method_ + "|";
    var s := r.subject + "|";
    var k := r.kind + "|";
    BarredHash(5381, k, s, m, p);
    FieldHash(5381, r.kind);
    FieldHash(HashField(5381, r.kind), r.subject);
    FieldHash(HashField(HashField(5381, r.kind), r.subject), r.method_);
    FieldHash(HashField(HashField(HashField(5381, r.kind), r.subject), r.method_), r.path);
    HashIsBase33(5381, Barred(r));
    assert Barred(r) == k + (s + (m + p));
  }

  lemma BarredHash(seed: nat, k: string, s: string, m: string, p: string)
    requires seed < WORD
    ensures var all := k + (s + (m + p));
      HashFrom(seed, all, |all|) ==
        HashFrom(HashFrom(HashFrom(HashFrom(seed, k, |k|), s, |s|), m, |m|), p, |p|)
  {
    hide HashFrom;
    HashConcat(seed, k, s + (m + p), |s + (m + p)|);
    HashConcat(HashFrom(seed, k, |k|), s, m + p, |m + p|);
    HashConcat(HashFrom(HashFrom(seed, k, |k|), s, |s|), m, p, |p|);
  }

  /** Since a bar can also stand in a field, two requests can have the same id; both can still wait. */
  lemma SameId(a: string, b: string, c: string, m: string, p: string, now: nat)
    ensures var q, r := Request(a + "|" + b, c, m, p), Request(a, b + "|" + c, m, p);
      && q != r && RequestId(q) == RequestId(r)
      && AddPending([PendingEntry(RequestId(q), q, now)], r, now)
         == Some([PendingEntry(RequestId(q), q, now), PendingEntry(RequestId(q), r, now)])
  {
    hide RequestId, Hex, Pow33, Base33;
    var q, r := Request(a + "|" + b, c, m, p), Request(a, b + "|" + c, m, p);
    var rest := m + "|" + (p + "|");
    assert Barred(q) == a + ("|" + (b + ("|" + (c + ("|" + rest)))));
    assert Barred(r) == a + ("|" + (b + ("|" + (c + ("|" + rest)))));
    IdIsBase33(q);
    IdIsBase33(r);
    assert |q.kind| > |r.kind|;
    var ws := [PendingEntry(RequestId(q), q, now)];
    assert ws[..0] == [] && Requests(ws[..0]) == {};
    assert Requests(ws) == {q};
    assert ws + [PendingEntry(RequestId(q), r, now)]
      == [PendingEntry(RequestId(q), q, now), PendingEntry(RequestId(q), r, now)];
  }
}
