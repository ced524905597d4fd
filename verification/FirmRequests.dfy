/** Where each field of a rule is read, and which requests stand firm, said in terms of their values. */
module FirmRequests {
  import opened Wrappers
  import opened CText
  import opened AccessRules
  import opened ManifestText
  import opened ManifestRoundTrip
  import opened ManifestReload
  import opened ManifestTheorems
  import opened ManifestInstances
  import opened GrantRuns

  // ---------- where the keys of an entry are read ----------

  /** The first two keys are always read at their own fields; the others behind the first value taken for them. */
  lemma Places(fs: seq<Pair>)
    requires |fs| == 5 && KeysDistinct(fs)
    ensures Source(fs, fs[0].key) == 0 && Source(fs, fs[1].key) == 1
    ensures Source(fs, fs[2].key) == if Hit(fs[0].val, fs[2].key) then 1 else 2
    ensures Source(fs, fs[3].key) ==
      if Hit(fs[0].val, fs[3].key) then 1 else if Hit(fs[1].val, fs[3].key) then 2 else 3
    ensures Source(fs, fs[4].key) ==
      if Hit(fs[0].val, fs[4].key) then 1 else if Hit(fs[1].val, fs[4].key) then 2
      else if Hit(fs[2].val, fs[4].key) then 3 else 4
  {
    hide Hit;
    PlaceOf(fs, 0, 0);
    PlaceOf(fs, 1, if Hit(fs[0].val, fs[1].key) then 0 else 1);
    PlaceOf(fs, 2, FirstTaken(fs, 2));
    PlaceOf(fs, 3, FirstTaken(fs, 3));
    PlaceOf(fs, 4, FirstTaken(fs, 4));
  }

  /** The first field in front of field `j` whose value is taken for its key, or `j`. */
  function FirstTaken(fs: seq<Pair>, j: nat): (i: nat)
    requires j < |fs| == 5
    ensures i <= j && (i < j ==> Hit(fs[i].val, fs[j].key)) && forall h :: 0 <= h < i ==> !Hit(fs[h].val, fs[j].key)
  {
    if j > 0 && Hit(fs[0].val, fs[j].key) then 0
    else if j > 1 && Hit(fs[1].val, fs[j].key) then 1
    else if j > 2 && Hit(fs[2].val, fs[j].key) then 2
    else if j > 3 && Hit(fs[3].val, fs[j].key) then 3
    else j
  }

  lemma PlaceOf(fs: seq<Pair>, j: nat, i: nat)
    requires j < |fs| && i <= j && KeysDistinct(fs) && (i < j ==> Hit(fs[i].val, fs[j].key))
    requires forall h :: 0 <= h < i ==> !Hit(fs[h].val, fs[j].key)
    ensures Source(fs, fs[j].key) == if i < j then i + 1 else j
  {
    hide Hit;
    FirstAt(fs, fs[j].key, i);
  }

  /** What a value reads as for a key. */
  function Read(k: string, v: string): string {
    var w := Mangle(v);
    Stored(k, if IsRequestKey(k) && |w| >= PATH_SIZE then "" else w)
  }

  function MethodFrom(r: Request): string { if Hit(r.kind, "method") then r.subject else r.method_ }

  function PathFrom(r: Request): string {
    if Hit(r.kind, "path") then r.subject else if Hit(r.subject, "path") then r.method_ else r.path
  }

  function PolicyFrom(p: PolicyEntry): string {
    var r := p.request;
    if Hit(r.kind, "policy") then r.subject else if Hit(r.subject, "policy") then r.method_
    else if Hit(r.method_, "policy") then r.path else p.policy
  }

  function Reread(p: PolicyEntry): PolicyEntry {
    var r := p.request;
    PolicyEntry(Request(Read("kind", r.kind), Read("subject", r.subject), Read("method", MethodFrom(r)),
                        Read("path", PathFrom(r))), Read("policy", PolicyFrom(p)))
  }

  lemma RereadIs(p: PolicyEntry)
    ensures RecoveredPolicy(p) == Reread(p)
  {
    hide Hit, Stored, Mangle, PolicyAsEntry, IsRequestKey, Source, PlainKeys;
    PolicyFields(p);
    PolicyKeysDistinct(p);
    Places(PolicyAsEntry(p).fields);
  }

  /** No key of a request's rule is read at another field. */
  ghost predicate KeysInPlace(r: Request) {
    && !Hit(r.kind, "method") && !Hit(r.kind, "path") && !Hit(r.subject, "path")
    && !Hit(r.kind, "policy") && !Hit(r.subject, "policy") && !Hit(r.method_, "policy")
  }

  ghost predicate NoControlIn(r: Request) {
    NoControl(r.kind) && NoControl(r.subject) && NoControl(r.method_) && NoControl(r.path)
  }

  /** A request is firm exactly when it has a kind and a subject, its normal form is stable, no value holds a control
      character, and none is taken for the key of a field further back than the next one. */
  lemma FirmIff(q: Request)
    ensures Firm(q) <==> q.kind != "" && q.subject != "" && NormalRequest(q) && NoControlIn(q) && KeysInPlace(q)
  {
    var p := PolicyEntry(q, "ask");
    var fs := PolicyAsEntry(p).fields;
    AskIsPolicy();
    PolicyFields(p);
    PolicyKeysDistinct(p);
    PolicyValueHasNoControl("ask");
    hide Hit, Stored, PolicyAsEntry, IsRequestKey, PlainKeys, NormalizeRequest, IsPolicyValue, Source, NoControl;
    Places(fs);
    if NormalRequest(q) { PolicyStoredForm(p); }
    if InStoredForm(fs) {
      assert Stored(fs[0].key, fs[0].val) == fs[0].val && Stored(fs[1].key, fs[1].val) == fs[1].val;
      assert Stored(fs[2].key, fs[2].val) == fs[2].val && Stored(fs[3].key, fs[3].val) == fs[3].val;
      StoredIsNormal(q);
    }
    PlacesInOrder(fs);
    FiveControls(fs);
  }

  lemma PlacesInOrder(fs: seq<Pair>)
    requires |fs| == 5 && KeysDistinct(fs)
    ensures (forall j :: 0 <= j < |fs| ==> Source(fs, fs[j].key) == j) <==>
      (&& !Hit(fs[0].val, fs[2].key) && !Hit(fs[0].val, fs[3].key) && !Hit(fs[1].val, fs[3].key)
       && !Hit(fs[0].val, fs[4].key) && !Hit(fs[1].val, fs[4].key) && !Hit(fs[2].val, fs[4].key))
  {
    hide Hit, Source;
    Places(fs);
  }

  lemma FiveControls(fs: seq<Pair>)
    requires |fs| == 5
    ensures NoControls(fs) <==> NoControl(fs[0].val) && NoControl(fs[1].val) && NoControl(fs[2].val)
                                && NoControl(fs[3].val) && NoControl(fs[4].val)
  {
    hide NoControl;
  }

  // ---------- values that are taken for no key ----------

  lemma ShorterIsNoKey(v: string, k: string)
    requires |v| < |k|
    ensures !Hit(v, k)
  {
  }

  lemma OtherEndIsNoKey(v: string, k: string)
    requires v != "" && k != "" && v[|v| - 1] != k[|k| - 1]
    ensures !Hit(v, k)
  {
    if |v| > |k| {
      var ending := v[|v| - (|k| + 1)..];
      assert ending[|k|] == v[|v| - 1];
    }
  }

  lemma KeyEnds()
    ensures |"method"| == 6 && "method"[5] == 'd' && |"path"| == 4 && "path"[3] == 'h'
    ensures |"policy"| == 6 && "policy"[5] == 'y' && |"pending"| == 7 && "pending"[6] == 'g'
  {
  }
}
