/** When a manifest comes back from its file as it was. */
module ManifestTheorems {
  import opened Wrappers
  import opened CText
  import opened AccessRules
  import opened ManifestText
  import opened ManifestRoundTrip
  import opened ManifestReload
  import opened ManifestPending

  ghost predicate NoControls(ps: seq<Pair>) { forall j :: 0 <= j < |ps| ==> NoControl(ps[j].val) }

  /** Each field is in the form it is stored in. */
  ghost predicate InStoredForm(ps: seq<Pair>) {
    forall j :: 0 <= j < |ps| ==> Stored(ps[j].key, ps[j].val) == ps[j].val
  }

  /** No key is looked up in the wrong place, or what stands there is the same value: the first value before a
      key that is taken for that key is the one right before it, or the one after it carries the key's own value. */
  ghost predicate ReadInPlace(ps: seq<Pair>) {
    forall j :: 0 <= j < |ps| ==>
      var i := Source(ps, ps[j].key);
      i == j || (i < |ps| && Stored(ps[j].key, ps[i].val) == ps[j].val)
  }

  ghost predicate Recovers(ps: seq<Pair>) {
    forall j :: 0 <= j < |ps| ==> Source(ps, ps[j].key) < |ps| && Recovered(ps, ps[j].key) == ps[j].val
  }

  lemma NormalizedHasNoControl(v: string, size: nat, lowercase: bool)
    requires NoControl(v) && size > 0
    ensures NoControl(NormalizeToken(v, size, lowercase))
  {
    TrimIsMiddle(v);
    hide Trim, IsSpace;
    var a, b :| 0 <= a <= b <= |v| && Trim(v) == v[a..b];
    var t := Cut(Trim(v), size);
    forall i | 0 <= i < |t| ensures t[i] as int >= 0x20 { assert t[i] == v[a + i]; }
  }

  lemma StoredHasNoControl(k: string, v: string)
    requires NoControl(v)
    ensures NoControl(Stored(k, v))
  {
    hide NormalizeToken;
    NormalizedHasNoControl(Cut(v, SizeOf(k)), SizeOf(k), IsLowercased(k));
  }

  lemma StoredFits(k: string, v: string)
    ensures |Stored(k, v)| < SizeOf(k)
  {
  }

  /** What has been through a field goes through it again unchanged. */
  lemma StoredTwice(k: string, v: string)
    ensures Stored(k, Stored(k, v)) == Stored(k, v)
  {
    if k != "id" {
      var size, lowercase := SizeOf(k), IsLowercased(k);
      var t := Trim(Cut(v, size));
      TrimTrims(Cut(v, size));
      TrimShrinks(Cut(v, size));
      LowerTwice(t);
      LowerKeepsSpaces(t);
      NormalizedIff(if lowercase then Lower(t) else t, size, lowercase);
      hide Trim, Trimmed;
    }
  }

  /** What a key gives back is in stored form and holds no control character, whatever was printed. */
  lemma RecoveredInForm(ps: seq<Pair>, k: string)
    requires Source(ps, k) < |ps|
    ensures NoControl(Recovered(ps, k)) && Stored(k, Recovered(ps, k)) == Recovered(ps, k)
  {
    hide Stored, Source, Mangle, SizeOf;
    var v := Mangle(ps[Source(ps, k)].val);
    MangleIff(ps[Source(ps, k)].val);
    StoredHasNoControl(k, v);
    StoredHasNoControl(k, "");
    StoredTwice(k, v);
    StoredTwice(k, "");
  }

  /** Fields come back as they were exactly when each is in stored form, none holds a control character, and every
      key is read in its place. */
  lemma RecoversIff(ps: seq<Pair>)
    requires forall j :: 0 <= j < |ps| ==> Source(ps, ps[j].key) < |ps|
    ensures Recovers(ps) <==> InStoredForm(ps) && NoControls(ps) && ReadInPlace(ps)
  {
    hide Stored, Source, Recovered;
    forall j | 0 <= j < |ps|
      ensures NoControl(Recovered(ps, ps[j].key))
      ensures Stored(ps[j].key, Recovered(ps, ps[j].key)) == Recovered(ps, ps[j].key)
    {
      RecoveredInForm(ps, ps[j].key);
    }
    if InStoredForm(ps) && NoControls(ps) { RecoversInPlaceIff(ps); }
  }

  lemma RecoversInPlaceIff(ps: seq<Pair>)
    requires InStoredForm(ps) && NoControls(ps) && forall j :: 0 <= j < |ps| ==> Source(ps, ps[j].key) < |ps|
    ensures Recovers(ps) <==> ReadInPlace(ps)
  {
    hide Stored, Source, Mangle, SizeOf;
    forall j | 0 <= j < |ps|
      ensures Recovered(ps, ps[j].key) == Stored(ps[j].key, ps[Source(ps, ps[j].key)].val)
    {
      var i := Source(ps, ps[j].key);
      MangleIff(ps[i].val);
      StoredFits(ps[i].key, ps[i].val);
    }
  }

  // ---------- one entry ----------

  lemma NormalField(s: string, size: nat, lowercase: bool)
    requires size > 0 && NormalizeToken(s, size, lowercase) == s
    ensures |s| < size && Cut(s, size) == s
  {
  }

  /** A request is in stored form when normalising it again changes nothing. */
  lemma RequestStoredForm(r: Request)
    requires NormalRequest(r)
    ensures InStoredForm(RequestFields(r))
  {
    hide NormalizeToken;
    NormalField(r.kind, KIND_SIZE, true);
    NormalField(r.subject, SUBJECT_SIZE, true);
    NormalField(r.method_, METHOD_SIZE, false);
    NormalField(r.path, PATH_SIZE, false);
  }

  lemma PolicyValueStored(v: string)
    requires IsPolicyValue(v)
    ensures Stored("policy", v) == v
  {
    hide Trim, TrimLeft, TrimRight;
    TrimTrims(v);
    PolicyValueLetters(v);
    assert Lower(v) == v;
  }

  lemma PolicyValueLetters(v: string)
    requires IsPolicyValue(v)
    ensures 0 < |v| < POLICY_SIZE && forall i :: 0 <= i < |v| ==> 'a' <= v[i] <= 'z'
  {
  }

  lemma PolicyStoredForm(p: PolicyEntry)
    requires NormalRequest(p.request) && IsPolicyValue(p.policy)
    ensures InStoredForm(PolicyAsEntry(p).fields)
  {
    hide Stored, NormalRequest, IsPolicyValue;
    RequestStoredForm(p.request);
    PolicyValueStored(p.policy);
    hide RequestFields, InStoredForm;
    StoredFormSnoc(RequestFields(p.request), Pair("policy", p.policy));
  }

  lemma StoredFormSnoc(ps: seq<Pair>, p: Pair)
    requires InStoredForm(ps) && Stored(p.key, p.val) == p.val
    ensures InStoredForm(ps + [p]) && InStoredForm([p] + ps)
  {
    hide Stored;
    forall j | 0 <= j < |ps| + 1 ensures Stored(([p] + ps)[j].key, ([p] + ps)[j].val) == ([p] + ps)[j].val {
      assert j > 0 ==> ([p] + ps)[j] == ps[j - 1];
    }
  }

  lemma IdStored(id: string)
    requires |id| < ID_SIZE
    ensures Stored("id", id) == id
  {
    hide NormalizeToken;
  }

  lemma PendingStoredForm(w: PendingEntry)
    requires NormalRequest(w.request) && |w.id| < ID_SIZE
    ensures InStoredForm(PendingAsEntry(w).fields)
  {
    RequestStoredForm(w.request);
    IdStored(w.id);
    hide Stored, RequestFields, InStoredForm, NormalRequest;
    StoredFormSnoc(RequestFields(w.request), Pair("id", w.id));
  }

  /** No value changes on its way through the file. */
  ghost predicate FieldsSurvive(ps: seq<Pair>) { InStoredForm(ps) && NoControls(ps) && ReadInPlace(ps) }

  ghost predicate PolicySurvives(p: PolicyEntry) { FieldsSurvive(PolicyAsEntry(p).fields) }

  ghost predicate PendingSurvives(w: PendingEntry) {
    var ps := PendingAsEntry(w).fields;
    FieldsSurvive(ps) && (FirstHit(ps, "created_at") + 1 >= |ps| || w.createdAt == 0)
  }

  lemma FiveFields(ps: seq<Pair>)
    requires |ps| == 5 && forall j :: 0 <= j < |ps| ==> Source(ps, ps[j].key) < |ps|
    ensures Recovers(ps) <==>
      && Recovered(ps, ps[0].key) == ps[0].val && Recovered(ps, ps[1].key) == ps[1].val
        && Recovered(ps, ps[2].key) == ps[2].val
      && Recovered(ps, ps[3].key) == ps[3].val && Recovered(ps, ps[4].key) == ps[4].val
  {
    hide Source, Recovered;
  }

  /** An entry comes back unchanged exactly when it survives, whatever is in it. */
  lemma PolicyRecoversIff(p: PolicyEntry)
    ensures RecoveredPolicy(p) == p <==> PolicySurvives(p)
  {
    hide Recovered, Source, InStoredForm, NoControls, ReadInPlace, PolicyAsEntry;
    PolicyFields(p);
    var ps := PolicyAsEntry(p).fields;
    forall j | 0 <= j < |ps| ensures Source(ps, ps[j].key) < |ps| { SourceInRange(ps, j); }
    RecoversIff(ps);
    FiveFields(ps);
  }

  lemma PendingRecoversIff(w: PendingEntry)
    ensures RecoveredPending(w) == w <==> PendingSurvives(w)
  {
    hide Recovered, Source, FirstHit, InStoredForm, NoControls, ReadInPlace, PendingAsEntry;
    PendingFields(w);
    var ps := PendingAsEntry(w).fields;
    forall j | 0 <= j < |ps| ensures Source(ps, ps[j].key) < |ps| { SourceInRange(ps, j); }
    RecoversIff(ps);
    FiveFields(ps);
  }

  // ---------- lists ----------

  lemma {:induction false} SurvivorsIff(ps: seq<PolicyEntry>)
    requires forall i :: 0 <= i < |ps| ==> KeepsPolicy(ps[i])
    ensures |Survivors(ps)| <= |ps|
    ensures Survivors(ps) == ps <==> forall i :: 0 <= i < |ps| ==> PolicySurvives(ps[i])
  {
    hide RecoveredPolicy, PolicySurvives, IsPolicyValue;
    if ps != [] {
      SurvivorsIff(ps[1..]);
      PolicyRecoversIff(ps[0]);
      assert ps == [ps[0]] + ps[1..];
      if KeepsPolicy(RecoveredPolicy(ps[0])) {
        assert Survivors(ps)[0] == RecoveredPolicy(ps[0]) && Survivors(ps)[1..] == Survivors(ps[1..]);
      } else {
        assert !PolicySurvives(ps[0]);
      }
    }
  }

  lemma {:induction false} SurvivingPendingIff(ws: seq<PendingEntry>)
    requires forall i :: 0 <= i < |ws| ==> KeepsPending(ws[i])
    ensures |SurvivingPending(ws)| <= |ws|
    ensures SurvivingPending(ws) == ws <==> forall i :: 0 <= i < |ws| ==> PendingSurvives(ws[i])
  {
    hide RecoveredPending, PendingSurvives;
    if ws != [] {
      SurvivingPendingIff(ws[1..]);
      PendingRecoversIff(ws[0]);
      assert ws == [ws[0]] + ws[1..];
      if KeepsPending(RecoveredPending(ws[0])) {
        assert SurvivingPending(ws)[0] == RecoveredPending(ws[0])
          && SurvivingPending(ws)[1..] == SurvivingPending(ws[1..]);
      } else {
        assert !PendingSurvives(ws[0]);
      }
    }
  }

  /** As the operations leave a manifest: every request has a kind and a subject, every policy is one of the three. */
  ghost predicate StoredManifest(m: Manifest) {
    && IsValidAgentId(m.agentId) && |m.policies| <= MAX_POLICIES && |m.pending| <= MAX_PENDING
    && (forall i :: 0 <= i < |m.policies| ==> KeepsPolicy(m.policies[i]))
    && (forall i :: 0 <= i < |m.pending| ==> KeepsPending(m.pending[i]))
  }

  /** The policies of a manifest come back from its text, all and in order, exactly when every entry is in stored
      form, free of control characters, and has each key read in its place.  Quotes, backslashes, braces and brackets
      in the values are no obstacle. */
  lemma PoliciesRoundTripIff(m: Manifest)
    requires StoredManifest(m)
    ensures LoadPolicies(Print(m)) == m.policies <==>
      forall i :: 0 <= i < |m.policies| ==> PolicySurvives(m.policies[i])
  {
    hide Print, Survivors, PolicySurvives, KeepsPolicy, KeepsPending, LoadPolicies;
    PoliciesReloaded(m);
    SurvivorsIff(m.policies);
  }

  // ---------- the waiting list ----------

  /** The waiting list comes back exactly when its entries survive, provided its name is found in its place. */
  lemma PendingRoundTripIff(m: Manifest)
    requires StoredManifest(m) && PendingInSight(m.policies)
    ensures LoadPending(Print(m)) == m.pending <==> forall i :: 0 <= i < |m.pending| ==> PendingSurvives(m.pending[i])
  {
    hide LoadPolicies, IsValidAgentId, PendingEntries, Print, FindArray, ReadPendings, SurvivingPending;
    hide PendingSurvives;
    hide KeepsPending, KeepsPolicy, PendingInSight, Inside;
    PendingFound(m);
    ReadPendingsBack(m.pending, true, "]" + "\n}\n", MAX_PENDING, "");
    SurvivingPendingIff(m.pending);
  }

  // ---------- the owner ----------

  lemma OwnerFound(m: Manifest)
    requires IsValidAgentId(m.agentId)
    ensures GetString(Print(m), "agent_id", AGENT_ID_SIZE, "") == (true, m.agentId)
  {
    hide After, AfterChar, Hit, QuotedThen, AfterHeader, Needle, GetString, Print, PlainKey, Mangle, IsValidAgentId;
    var tail := ",\n  " + AfterHeader(m);
    OwnerReached(m, tail);
    GetArrivedSpaced(Print(m), "agent_id", AGENT_ID_SIZE, "", m.agentId, tail);
    AgentIdPlain(m.agentId);
  }

  lemma OwnerReached(m: Manifest, tail: string)
    requires tail == ",\n  " + AfterHeader(m)
    ensures After(Print(m), Needle("agent_id")).Some?
    ensures AfterChar(After(Print(m), Needle("agent_id")).value, ':') == Some(" " + QuotedThen(m.agentId, tail))
  {
    hide After, AfterChar, Hit, QuotedThen, AfterHeader, Needle, PlainKey;
    KeysArePlain();
    KeyHits("version", "agent_id");
    HitsItself("agent_id");
    var owner := QuotedThen(m.agentId, tail);
    SkipText("{\n  ", QuotedThen("version", ": 1,\n  " + QuotedThen("agent_id", ": " + owner)), "agent_id");
    SkipQuoted("version", ": 1,\n  ", QuotedThen("agent_id", ": " + owner), "agent_id");
    AfterQuoted("agent_id", ": " + owner, "agent_id");
    SkipTo("", " " + owner, ':');
    assert "" + [':'] + (" " + owner) == ": " + owner;
  }

  lemma AgentIdPlain(id: string)
    requires IsValidAgentId(id)
    ensures Mangle(id) == id && |id| < AGENT_ID_SIZE
  {
    assert forall i :: 0 <= i < 4 ==> id[i] == id[..4][i];
    MangleIff(id);
  }

  lemma GetArrivedSpaced(obj: string, k: string, cap: nat, before: string, val: string, tail: string)
    requires cap > 0 && After(obj, Needle(k)).Some?
    requires AfterChar(After(obj, Needle(k)).value, ':') == Some(" " + QuotedThen(val, tail))
    ensures GetString(obj, k, cap, before) == (|Mangle(val)| < cap, Cut(Mangle(val), cap))
  {
    hide After, AfterChar, Needle, EscThen, ReadQuoted, Mangle;
    var u := EscThen(val, "\"" + tail);
    SpaceBeforeQuote(u);
    ReadValue(val, tail, cap - 1);
  }

  lemma SpaceBeforeQuote(u: string)
    ensures TrimLeft(" " + ("\"" + u)) == "\"" + u && ("\"" + u)[0] == '"' && ("\"" + u)[1..] == u
  {
    var t := "\"" + u;
    assert (" " + t)[0] == ' ' && (" " + t)[1..] == t && TrimLeft(t) == t;
  }

  /** Printing and loading gives the same manifest exactly when every entry survives. */
  lemma RoundTrip(m: Manifest)
    requires StoredManifest(m) && PendingInSight(m.policies)
    ensures Load(m.agentId, Print(m)) == Some(m) <==>
      (forall i :: 0 <= i < |m.policies| ==> PolicySurvives(m.policies[i])) &&
      (forall i :: 0 <= i < |m.pending| ==> PendingSurvives(m.pending[i]))
  {
    hide Print, KeepsPolicy, KeepsPending, LoadPolicies, LoadPending, PolicySurvives, PendingSurvives, PendingInSight;
    hide GetString;
    OwnerFound(m);
    PoliciesRoundTripIff(m);
    PendingRoundTripIff(m);
  }

  // ---------- the simple case ----------

  /** The key names that a lookup behind the first field can be for. */
  predicate IsLookedUp(k: string) {
    k == "kind" || k == "subject" || k == "method" || k == "path" || k == "policy" || k == "created_at"
      || k == "pending"
  }

  /** A value that neither is nor ends in a quote followed by a key name. */
  ghost predicate Harmless(v: string) { NoControl(v) && forall k :: IsLookedUp(k) ==> !Hit(v, k) }

  ghost predicate HarmlessRequest(r: Request) {
    Harmless(r.kind) && Harmless(r.subject) && Harmless(r.method_) && Harmless(r.path)
  }

  lemma {:induction false} HarmlessFields(ps: seq<Pair>, k: string)
    requires forall j :: 0 <= j < |ps| ==> !Hit(ps[j].val, k)
    ensures FirstHit(ps, k) == |ps| || ps[FirstHit(ps, k)].key == k
  {
  }

  lemma DistinctKeys(ps: seq<Pair>, j: nat)
    requires j < |ps| && forall i :: 0 <= i < j ==> ps[i].key != ps[j].key
    requires forall i :: 0 <= i < |ps| ==> !Hit(ps[i].val, ps[j].key)
    ensures Source(ps, ps[j].key) == j
  {
    HarmlessFields(ps, ps[j].key);
  }

  ghost predicate KeysDistinct(ps: seq<Pair>) {
    forall i, j :: 0 <= i < j < |ps| ==> ps[i].key != ps[j].key
  }

  lemma PolicyKeysDistinct(p: PolicyEntry)
    ensures KeysDistinct(PolicyAsEntry(p).fields)
    ensures forall j :: 0 < j < |PolicyAsEntry(p).fields| ==> IsLookedUp(PolicyAsEntry(p).fields[j].key)
    ensures PolicyAsEntry(p).fields[0].key == "kind"
  {
  }

  lemma PendingKeysDistinct(w: PendingEntry)
    ensures KeysDistinct(PendingAsEntry(w).fields)
    ensures forall j :: 0 < j < |PendingAsEntry(w).fields| ==> IsLookedUp(PendingAsEntry(w).fields[j].key)
    ensures forall j :: 0 <= j < |PendingAsEntry(w).fields| ==> PendingAsEntry(w).fields[j].key != "created_at"
  {
  }

  /** When no value is taken for any key that is looked up, every key is read in its place. */
  lemma AllInPlace(ps: seq<Pair>)
    requires KeysDistinct(ps) && forall j :: 0 <= j < |ps| ==> Harmless(ps[j].val)
    requires forall j :: 0 < j < |ps| ==> IsLookedUp(ps[j].key)
    ensures NoControls(ps) && ReadInPlace(ps)
  {
    hide Source, Stored, Hit, IsLookedUp, NoControl;
    forall j | 0 <= j < |ps| ensures Source(ps, ps[j].key) == j {
      if j == 0 { FirstKeySource(ps); } else { DistinctKeys(ps, j); }
    }
  }

  lemma HarmlessPolicySurvives(p: PolicyEntry)
    requires NormalRequest(p.request) && HarmlessRequest(p.request) && IsPolicyValue(p.policy)
    ensures PolicySurvives(p)
  {
    hide Source, InStoredForm, NormalRequest, Harmless, PolicyAsEntry, IsPolicyValue, IsLookedUp, KeysDistinct;
    hide NoControls;
    hide ReadInPlace;
    PolicyStoredForm(p);
    PolicyFields(p);
    PolicyValueHarmless(p.policy);
    PolicyKeysDistinct(p);
    AllInPlace(PolicyAsEntry(p).fields);
  }

  lemma PolicyValueHarmless(v: string)
    requires IsPolicyValue(v)
    ensures Harmless(v)
  {
    PolicyValueLetters(v);
    NotAKey(v);
    hide IsPolicyValue, IsLookedUp;
    forall k | IsLookedUp(k) ensures !Hit(v, k) { NoQuoteNoHit(v, k); }
  }

  lemma NotAKey(v: string)
    requires IsPolicyValue(v)
    ensures !IsLookedUp(v)
  {
  }

  /** A value without quotes is taken for a key only when it is that key. */
  lemma NoQuoteNoHit(v: string, k: string)
    requires v != k && forall i :: 0 <= i < |v| ==> v[i] != '"'
    ensures !Hit(v, k)
  {
    if |v| > |k| {
      var ending := v[|v| - (|k| + 1)..];
      assert ending[0] == v[|v| - (|k| + 1)];
    }
  }

  lemma HarmlessPendingSurvives(w: PendingEntry)
    requires NormalRequest(w.request) && HarmlessRequest(w.request) && w.id == RequestId(w.request)
    ensures PendingSurvives(w)
  {
    hide Source, InStoredForm, NormalRequest, Hit, NoControl, PendingAsEntry, IsLookedUp, KeysDistinct, RequestId;
    hide FirstHit;
    PendingFields(w);
    RequestIdHarmless(w.request);
    PendingStoredForm(w);
    PendingKeysDistinct(w);
    var ps := PendingAsEntry(w).fields;
    AllInPlace(ps);
    CreatedAtLookedUp();
    HarmlessFields(ps, "created_at");
  }

  lemma CreatedAtLookedUp()
    ensures IsLookedUp("created_at")
  {
  }

  lemma FirstKeySource(ps: seq<Pair>)
    requires ps != []
    ensures Source(ps, ps[0].key) == 0
  {
  }

  lemma RequestIdHarmless(r: Request)
    ensures Harmless(RequestId(r)) && |RequestId(r)| < ID_SIZE
  {
    var h := RequestHash(r);
    var id, hex := RequestId(r), Hex(h);
    hide RequestHash, Hex, IsLookedUp;
    SixteensOfWord();
    HexLength(h, 16);
    assert forall i :: 4 <= i < |id| ==> id[i] == hex[i - 4];
    assert forall i :: 0 <= i < 4 ==> id[i] == "req-"[i];
    forall k | IsLookedUp(k) ensures !Hit(id, k) {
      LookedUpLetters(k);
      NoQuoteNoHit(id, k);
    }
  }

  lemma LookedUpLetters(k: string)
    requires IsLookedUp(k)
    ensures |k| > 3 && k[3] != '-'
  {
  }

  lemma SixteensOfWord()
    ensures Sixteens(16) == WORD
  {
    assert Sixteens(4) == 0x1_0000;
    assert Sixteens(8) == 0x1_0000_0000;
    assert Sixteens(12) == 0x1_0000_0000_0000;
  }

  /** 16 to the `digits`. */
  ghost function Sixteens(digits: nat): nat { if digits == 0 then 1 else 16 * Sixteens(digits - 1) }

  lemma {:induction false} HexLength(n: nat, digits: nat)
    requires n < Sixteens(digits) && digits > 0
    ensures |Hex(n)| <= digits
  {
    if n >= 16 {
      assert digits > 1 by { assert Sixteens(1) == 16 * Sixteens(0); }
      HexLength(n / 16, digits - 1);
    }
  }
}
