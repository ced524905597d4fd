/** Which models a specialty may use, and in what order. */
module Registry {
  import opened Wrappers
  import opened ChatMessages
  import opened CommaLists

  datatype RawBackends = Missing | Text(text: string) | Listed(items: seq<string>)

  /** A model as configured; `backends` is what the configuration gives. */
  datatype RawSpec = RawSpec(name: string, flavor: string, capability: string, tier: string, backend: string,
                             ramGb: real, vramGb: real, contextTokens: int, placement: string, backends: RawBackends)

  datatype ModelSpec = ModelSpec(name: string, flavor: string, capability: string, tier: string, backend: string,
                                 ramGb: real, vramGb: real, contextTokens: int, placement: string,
                                 gpuBackends: seq<string>)

  datatype Specialty = Specialty(name: string, capability: string, flavor: Option<string>,
                                 minContextTokens: Option<int>, model: Option<string>)

  datatype Refusal = UnknownSpecialty | UnknownModel | ExceedsRam | ExceedsVram | UnsupportedBackend | NoMatch
  datatype Resolved<+T> = Found(value: T) | Refused(why: Refusal)

  // ---------- a model's derived fields ----------

  /** The items of a list written with commas, each stripped, empty ones left out. */
  function SplitItems(text: string): seq<string> { Items(Split(text), Strip) }

  function DefaultBackends(backend: string): seq<string> {
    if backend == "vllm" then ["vllm"]
    else if backend == "llama" then ["cuda-llama", "rocm-llama", "vulkan-llama", "sycl-llama"]
    else []
  }

  /** What a model looks like after construction. */
  function PostInit(raw: RawSpec): ModelSpec {
    var placement := if raw.placement == "auto" then (if raw.vramGb > 0.0 then "gpu" else "cpu") else raw.placement;
    var given := match raw.backends case Missing => [] case Text(t) => SplitItems(t) case Listed(items) => items;
    ModelSpec(raw.name, raw.flavor, raw.capability, raw.tier, raw.backend, raw.ramGb, raw.vramGb, raw.contextTokens,
      placement, if placement == "gpu" && given == [] then DefaultBackends(raw.backend) else given)
  }

  /** A constructed model given to the constructor again. */
  function Again(m: ModelSpec): RawSpec {
    RawSpec(m.name, m.flavor, m.capability, m.tier, m.backend, m.ramGb, m.vramGb, m.contextTokens, m.placement,
      Listed(m.gpuBackends))
  }

  /** Constructing again changes nothing. */
  lemma PostInitTwice(raw: RawSpec)
    ensures PostInit(Again(PostInit(raw))) == PostInit(raw)
  {
    assert "gpu" != "auto" && "cpu" != "auto" by { assert |"gpu"| != |"auto"|; }
    hide DefaultBackends, SplitItems;
  }

  // ---------- filters ----------

  predicate OnGpu(m: ModelSpec) { m.placement == "gpu" && m.vramGb > 0.0 }

  predicate BackendSupported(m: ModelSpec, supported: Option<seq<string>>) {
    OnGpu(m) && supported.Some? ==> exists b :: b in m.gpuBackends && b in supported.value
  }

  /** What is asked for. */
  datatype Query = Query(name: string, tierOrder: seq<string>, flavor: Option<string>, capability: Option<string>,
                         maxRamGb: Option<real>, maxVramGb: Option<real>, supported: Option<seq<string>>)

  function OrElse(given: Option<string>, other: Option<string>): Option<string> {
    if given.Some? && given.value != "" then given else other
  }

  predicate WithinLimits(m: ModelSpec, q: Query) {
    && (q.maxRamGb.Some? ==> m.ramGb <= q.maxRamGb.value)
    && (q.maxVramGb.Some? ==> m.vramGb <= q.maxVramGb.value)
  }

  predicate Passes(m: ModelSpec, q: Query, s: Specialty) {
    && Some(m.capability) == OrElse(q.capability, Some(s.capability))
    && (var flavor := OrElse(q.flavor, s.flavor); flavor.Some? ==> m.flavor == flavor.value)
    && (s.minContextTokens.Some? ==> m.contextTokens >= s.minContextTokens.value)
    && WithinLimits(m, q)
    && BackendSupported(m, q.supported)
  }

  function Passing(models: seq<ModelSpec>, q: Query, s: Specialty): (r: seq<ModelSpec>)
    ensures forall m :: m in r <==> m in models && Passes(m, q, s)
  {
    if models == [] then []
    else
      var rest := Passing(models[1..], q, s);
      assert forall m :: m in models <==> m == models[0] || m in models[1..];
      if Passes(models[0], q, s) then [models[0]] + rest else rest
  }

  // ---------- order ----------

  function PlacementRank(m: ModelSpec): nat {
    if !OnGpu(m) then 2 else if m.backend == "vllm" then 0 else 1
  }

  /** Position of a tier; of a tier listed twice, the later one. */
  function TierRank(order: seq<string>, tier: string): nat {
    if order == [] then 999
    else if order[|order| - 1] == tier then |order| - 1
    else TierRank(order[..|order| - 1], tier)
  }

  datatype Key = Key(placement: nat, tier: nat, name: string)

  function KeyOf(m: ModelSpec, tiers: seq<string>): Key { Key(PlacementRank(m), TierRank(tiers, m.tier), m.name) }

  predicate NameLeq(a: string, b: string) {
    a == "" || (b != "" && (a[0] < b[0] || (a[0] == b[0] && NameLeq(a[1..], b[1..]))))
  }

  predicate KeyLeq(a: Key, b: Key) {
    || a.placement < b.placement
    || (a.placement == b.placement && (a.tier < b.tier || (a.tier == b.tier && NameLeq(a.name, b.name))))
  }

  lemma {:induction false} NameOrder(a: string, b: string)
    ensures NameLeq(a, b) || NameLeq(b, a)
    ensures NameLeq(a, b) && NameLeq(b, a) ==> a == b
  {
    if a != "" && b != "" && a[0] == b[0] {
      NameOrder(a[1..], b[1..]);
      assert a == [a[0]] + a[1..] && b == [b[0]] + b[1..];
    }
  }

  lemma {:induction false} NameTransitive(a: string, b: string, c: string)
    requires NameLeq(a, b) && NameLeq(b, c)
    ensures NameLeq(a, c)
  {
    if a != "" && a[0] == b[0] == c[0] { NameTransitive(a[1..], b[1..], c[1..]); }
  }

  lemma KeyOrder(a: Key, b: Key)
    ensures KeyLeq(a, b) || KeyLeq(b, a)
    ensures KeyLeq(a, b) && KeyLeq(b, a) ==> a == b
  {
    NameOrder(a.name, b.name);
  }

  lemma KeyTransitive(a: Key, b: Key, c: Key)
    requires KeyLeq(a, b) && KeyLeq(b, c)
    ensures KeyLeq(a, c)
  {
    if a.placement == b.placement == c.placement && a.tier == b.tier == c.tier {
      NameTransitive(a.name, b.name, c.name);
    }
  }

  ghost predicate InOrder(ms: seq<ModelSpec>, tiers: seq<string>) {
    forall i :: 0 < i < |ms| ==> KeyLeq(KeyOf(ms[i - 1], tiers), KeyOf(ms[i], tiers))
  }

  /** The models with a given key, in the order of the sequence. */
  ghost function WithKey(ms: seq<ModelSpec>, key: Key, tiers: seq<string>): seq<ModelSpec> {
    if ms == [] then []
    else (if KeyOf(ms[0], tiers) == key then [ms[0]] else []) + WithKey(ms[1..], key, tiers)
  }

  /** `b` has the elements of `a`, those with equal keys in the same order. */
  ghost predicate StablePermutation(a: seq<ModelSpec>, b: seq<ModelSpec>, tiers: seq<string>) {
    multiset(a) == multiset(b) && forall key :: WithKey(a, key, tiers) == WithKey(b, key, tiers)
  }

  function InsertByKey(m: ModelSpec, ms: seq<ModelSpec>, tiers: seq<string>): seq<ModelSpec> {
    if ms == [] || KeyLeq(KeyOf(m, tiers), KeyOf(ms[0], tiers)) then [m] + ms
    else [ms[0]] + InsertByKey(m, ms[1..], tiers)
  }

  /** Python's sorted() under the key. */
  function Sorted(ms: seq<ModelSpec>, tiers: seq<string>): seq<ModelSpec> {
    if ms == [] then [] else InsertByKey(ms[0], Sorted(ms[1..], tiers), tiers)
  }

  lemma {:induction false} InsertSorts(m: ModelSpec, ms: seq<ModelSpec>, tiers: seq<string>)
    requires InOrder(ms, tiers)
    ensures var r := InsertByKey(m, ms, tiers);
      InOrder(r, tiers) && multiset(r) == multiset([m] + ms) && (r[0] == m || (ms != [] && r[0] == ms[0]))
  {
    hide KeyOf, KeyLeq;
    if ms != [] && !KeyLeq(KeyOf(m, tiers), KeyOf(ms[0], tiers)) {
      var rest := ms[1..];
      assert forall i :: 0 < i < |rest| ==> rest[i] == ms[i + 1] && rest[i - 1] == ms[i];
      InsertSorts(m, rest, tiers);
      KeyOrder(KeyOf(m, tiers), KeyOf(ms[0], tiers));
      var r := InsertByKey(m, rest, tiers);
      assert multiset([ms[0]] + r) == multiset([ms[0]]) + multiset(r);
      assert ms == [ms[0]] + rest;
      assert rest != [] ==> KeyLeq(KeyOf(ms[0], tiers), KeyOf(rest[0], tiers)) by {
        if rest != [] { assert rest[0] == ms[1]; }
      }
    }
  }

  lemma {:induction false} InsertIsStable(m: ModelSpec, ms: seq<ModelSpec>, key: Key, tiers: seq<string>)
    ensures WithKey(InsertByKey(m, ms, tiers), key, tiers) == WithKey([m] + ms, key, tiers)
  {
    assert ([m] + ms)[1..] == ms;
    if ms != [] && !KeyLeq(KeyOf(m, tiers), KeyOf(ms[0], tiers)) {
      InsertIsStable(m, ms[1..], key, tiers);
      KeyOrder(KeyOf(m, tiers), KeyOf(ms[0], tiers));
      hide KeyOf, KeyLeq;
      assert ([m] + ms[1..])[1..] == ms[1..];
      var r := InsertByKey(m, ms[1..], tiers);
      assert ([ms[0]] + r)[1..] == r;
    }
  }

  /** Sorting gives a stable permutation in order. */
  lemma {:induction false} SortedSorts(ms: seq<ModelSpec>, tiers: seq<string>)
    ensures InOrder(Sorted(ms, tiers), tiers) && StablePermutation(ms, Sorted(ms, tiers), tiers)
  {
    if ms != [] {
      hide KeyOf, KeyLeq, InOrder;
      var rest := Sorted(ms[1..], tiers);
      SortedSorts(ms[1..], tiers);
      InsertSorts(ms[0], rest, tiers);
      assert ms == [ms[0]] + ms[1..];
      forall key ensures WithKey(ms, key, tiers) == WithKey(Sorted(ms, tiers), key, tiers) {
        InsertIsStable(ms[0], rest, key, tiers);
        assert ([ms[0]] + rest)[1..] == rest;
      }
    }
  }

  lemma {:induction false} KeyPresent(ms: seq<ModelSpec>, key: Key, tiers: seq<string>)
    ensures WithKey(ms, key, tiers) != [] <==> exists i :: 0 <= i < |ms| && KeyOf(ms[i], tiers) == key
  {
    hide KeyOf;
    if ms != [] {
      KeyPresent(ms[1..], key, tiers);
      if WithKey(ms[1..], key, tiers) != [] {
        var i :| 0 <= i < |ms[1..]| && KeyOf(ms[1..][i], tiers) == key;
        assert KeyOf(ms[i + 1], tiers) == key;
      }
      if i :| 0 < i < |ms| && KeyOf(ms[i], tiers) == key { assert ms[1..][i - 1] == ms[i]; }
    }
  }

  lemma {:induction false} FirstIsLeast(ms: seq<ModelSpec>, i: nat, tiers: seq<string>)
    requires InOrder(ms, tiers) && i < |ms|
    ensures KeyLeq(KeyOf(ms[0], tiers), KeyOf(ms[i], tiers))
  {
    if i > 0 {
      FirstIsLeast(ms, i - 1, tiers);
      hide KeyOf, KeyLeq;
      KeyTransitive(KeyOf(ms[0], tiers), KeyOf(ms[i - 1], tiers), KeyOf(ms[i], tiers));
    } else {
      KeyOrder(KeyOf(ms[0], tiers), KeyOf(ms[0], tiers));
    }
  }

  lemma SameFirst(a: seq<ModelSpec>, b: seq<ModelSpec>, tiers: seq<string>)
    requires a != [] && InOrder(a, tiers) && InOrder(b, tiers)
    requires forall key :: WithKey(a, key, tiers) == WithKey(b, key, tiers)
    ensures b != [] && a[0] == b[0]
  {
    hide KeyOf, KeyLeq, InOrder;
    var ka := KeyOf(a[0], tiers);
    KeyPresent(a, ka, tiers);
    KeyPresent(b, ka, tiers);
    var i :| 0 <= i < |b| && KeyOf(b[i], tiers) == ka;
    FirstIsLeast(b, i, tiers);
    var kb := KeyOf(b[0], tiers);
    KeyPresent(b, kb, tiers);
    KeyPresent(a, kb, tiers);
    var j :| 0 <= j < |a| && KeyOf(a[j], tiers) == kb;
    FirstIsLeast(a, j, tiers);
    KeyOrder(ka, kb);
    assert WithKey(a, ka, tiers)[0] == a[0] && WithKey(b, ka, tiers)[0] == b[0];
  }

  /** Only one sequence is in order and a stable permutation of the input: any stable sort gives the same result. */
  lemma {:induction false} SortIsUnique(a: seq<ModelSpec>, b: seq<ModelSpec>, tiers: seq<string>)
    requires InOrder(a, tiers) && InOrder(b, tiers)
    requires forall key :: WithKey(a, key, tiers) == WithKey(b, key, tiers)
    ensures a == b
  {
    hide KeyOf, KeyLeq;
    if a != [] {
      SameFirst(a, b, tiers);
      forall key ensures WithKey(a[1..], key, tiers) == WithKey(b[1..], key, tiers) {
        var first := if KeyOf(a[0], tiers) == key then [a[0]] else [];
        assert WithKey(a, key, tiers) == WithKey(b, key, tiers);
        assert WithKey(a, key, tiers) == first + WithKey(a[1..], key, tiers);
        assert WithKey(b, key, tiers) == first + WithKey(b[1..], key, tiers);
        assert WithKey(a[1..], key, tiers) == (first + WithKey(a[1..], key, tiers))[|first|..];
        assert WithKey(b[1..], key, tiers) == (first + WithKey(b[1..], key, tiers))[|first|..];
      }
      assert forall i :: 0 < i < |a[1..]| ==> a[1..][i] == a[i + 1] && a[1..][i - 1] == a[i];
      assert forall i :: 0 < i < |b[1..]| ==> b[1..][i] == b[i + 1] && b[1..][i - 1] == b[i];
      SortIsUnique(a[1..], b[1..], tiers);
      assert a == [a[0]] + a[1..] && b == [b[0]] + b[1..];
    } else if b != [] {
      SameFirst(b, a, tiers);
    }
  }

  // ---------- candidates ----------

  function FirstNamed(models: seq<ModelSpec>, name: string): Option<ModelSpec> {
    if models == [] then None else if models[0].name == name then Some(models[0]) else FirstNamed(models[1..], name)
  }

  /** A model that a specialty names outright. */
  function ResolveModelName(models: seq<ModelSpec>, name: string, q: Query): Resolved<ModelSpec> {
    match FirstNamed(models, name)
    case None => Refused(UnknownModel)
    case Some(m) =>
      if q.maxRamGb.Some? && m.ramGb > q.maxRamGb.value then Refused(ExceedsRam)
      else if q.maxVramGb.Some? && m.vramGb > q.maxVramGb.value then Refused(ExceedsVram)
      else if !BackendSupported(m, q.supported) then Refused(UnsupportedBackend)
      else Found(m)
  }

  function ResolveCandidates(models: seq<ModelSpec>, specialties: map<string, Specialty>,
                             q: Query): Resolved<seq<ModelSpec>> {
    if q.name !in specialties then Refused(UnknownSpecialty)
    else
      var s := specialties[q.name];
      match s.model
      case Some(name) =>
        (match ResolveModelName(models, name, q)
         case Found(m) => Found([m])
         case Refused(why) => Refused(why))
      case None => Found(Sorted(Passing(models, q, s), q.tierOrder))
  }

  function ResolveSpecialty(models: seq<ModelSpec>, specialties: map<string, Specialty>,
                            q: Query): Resolved<ModelSpec> {
    match ResolveCandidates(models, specialties, q)
    case Refused(why) => Refused(why)
    case Found(candidates) => if candidates == [] then Refused(NoMatch) else Found(candidates[0])
  }

  /** Without a pinned model the candidates are exactly the models that pass, each as often as it is listed, by
      placement, tier and name, and equal keys in the order of the registry. */
  lemma CandidatesAreSorted(models: seq<ModelSpec>, specialties: map<string, Specialty>, q: Query)
    requires q.name in specialties && specialties[q.name].model.None?
    ensures var r, passing := ResolveCandidates(models, specialties, q), Passing(models, q, specialties[q.name]);
      r.Found? && InOrder(r.value, q.tierOrder) && StablePermutation(passing, r.value, q.tierOrder)
  {
    hide Passing;
    SortedSorts(Passing(models, q, specialties[q.name]), q.tierOrder);
  }

  /** The model chosen is one that passes with the least key; there is none exactly when no model passes. */
  lemma BestCandidate(models: seq<ModelSpec>, specialties: map<string, Specialty>, q: Query)
    requires q.name in specialties && specialties[q.name].model.None?
    ensures var r, s := ResolveSpecialty(models, specialties, q), specialties[q.name];
      if exists m :: m in models && Passes(m, q, s) then
        && r.Found? && r.value in models && Passes(r.value, q, s)
        && forall m :: m in models && Passes(m, q, s) ==> KeyLeq(KeyOf(r.value, q.tierOrder), KeyOf(m, q.tierOrder))
      else r == Refused(NoMatch)
  {
    hide Passes, KeyOf, KeyLeq, Sorted;
    var s := specialties[q.name];
    var passing := Passing(models, q, s);
    var sorted := Sorted(passing, q.tierOrder);
    SortedSorts(passing, q.tierOrder);
    forall m ensures m in sorted <==> m in passing {
      assert m in multiset(sorted) <==> m in multiset(passing);
    }
    if sorted != [] {
      assert sorted[0] in sorted;
      forall m | m in models && Passes(m, q, s)
        ensures KeyLeq(KeyOf(sorted[0], q.tierOrder), KeyOf(m, q.tierOrder))
      {
        var i :| 0 <= i < |sorted| && sorted[i] == m;
        FirstIsLeast(sorted, i, q.tierOrder);
      }
    }
    if m :| m in models && Passes(m, q, s) { assert m in sorted; }
  }

  /** A pinned model is given exactly when the first model of that name meets limits and backends. */
  lemma PinnedIff(models: seq<ModelSpec>, specialties: map<string, Specialty>, q: Query, name: string)
    requires q.name in specialties && specialties[q.name].model == Some(name)
    ensures var r, first := ResolveSpecialty(models, specialties, q), FirstNamed(models, name);
      r.Found? <==> first.Some? && WithinLimits(first.value, q) && BackendSupported(first.value, q.supported)
    ensures var r := ResolveSpecialty(models, specialties, q); r.Found? ==> Some(r.value) == FirstNamed(models, name)
  {
  }
}
