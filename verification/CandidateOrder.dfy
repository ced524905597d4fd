/** Which models a specialty may use and in what order, said of the result itself, in terms of the fields of the models
    and of what is asked for. */
module CandidateOrder {
  import opened Wrappers
  import opened ChatMessages
  import opened Registry

  // ---------- which models ----------

  /** Meets every condition that the query or the specialty sets. */
  ghost predicate Suits(m: ModelSpec, q: Query, s: Specialty) {
    && (q.capability in {None, Some("")} ==> m.capability == s.capability)
    && (q.capability !in {None, Some("")} ==> Some(m.capability) == q.capability)
    && (q.flavor !in {None, Some("")} ==> Some(m.flavor) == q.flavor)
    && (q.flavor in {None, Some("")} && s.flavor.Some? ==> Some(m.flavor) == s.flavor)
    && (forall least :: s.minContextTokens == Some(least) ==> least <= m.contextTokens)
    && (forall most :: q.maxRamGb == Some(most) ==> m.ramGb <= most)
    && (forall most :: q.maxVramGb == Some(most) ==> m.vramGb <= most)
    && (m.placement != "gpu" || m.vramGb <= 0.0 || q.supported.None?
        || !(forall i, j :: 0 <= i < |m.gpuBackends| && 0 <= j < |q.supported.value| ==>
               m.gpuBackends[i] != q.supported.value[j]))
  }

  lemma PassesIff(m: ModelSpec, q: Query, s: Specialty)
    ensures Passes(m, q, s) <==> Suits(m, q, s)
  {
    BackendIff(m, q.supported);
  }

  lemma BackendIff(m: ModelSpec, supported: Option<seq<string>>)
    ensures BackendSupported(m, supported) <==>
      || m.placement != "gpu" || m.vramGb <= 0.0 || supported.None?
      || !(forall i, j :: 0 <= i < |m.gpuBackends| && 0 <= j < |supported.value| ==>
             m.gpuBackends[i] != supported.value[j])
  {
    if m.placement == "gpu" && m.vramGb > 0.0 && supported.Some? {
      if b :| b in m.gpuBackends && b in supported.value {
        var i :| 0 <= i < |m.gpuBackends| && m.gpuBackends[i] == b;
        var j :| 0 <= j < |supported.value| && supported.value[j] == b;
        assert m.gpuBackends[i] == supported.value[j];
      }
      if i, j :| 0 <= i < |m.gpuBackends| && 0 <= j < |supported.value| && m.gpuBackends[i] == supported.value[j] {
        assert m.gpuBackends[i] in m.gpuBackends && m.gpuBackends[i] in supported.value;
      }
    }
  }

  lemma {:induction false} PassingIsFilter(models: seq<ModelSpec>, q: Query, s: Specialty, m: ModelSpec)
    ensures multiset(Passing(models, q, s))[m] == if Suits(m, q, s) then multiset(models)[m] else 0
  {
    if models != [] {
      hide Passes, Suits;
      var rest := Passing(models[1..], q, s);
      PassingIsFilter(models[1..], q, s, m);
      PassesIff(models[0], q, s);
      assert models == [models[0]] + models[1..];
      assert multiset(models) == multiset([models[0]]) + multiset(models[1..]);
      assert multiset([models[0]] + rest) == multiset([models[0]]) + multiset(rest);
    }
  }

  // ---------- in what order ----------

  /** In dictionary order by character. */
  ghost predicate Ascending(a: string, b: string) {
    a <= b || exists i :: 0 <= i < |a| && i < |b| && a[..i] == b[..i] && a[i] < b[i]
  }

  lemma LaterDifference(a: string, b: string, i: nat)
    requires a != "" && b != "" && a[0] == b[0] && i < |a| - 1 && i < |b| - 1
    requires a[1..][..i] == b[1..][..i] && a[1..][i] < b[1..][i]
    ensures Ascending(a, b)
  {
    assert a[..i + 1] == [a[0]] + a[1..][..i] && b[..i + 1] == [b[0]] + b[1..][..i];
    assert a[i + 1] < b[i + 1];
  }

  lemma FirstDifference(a: string, b: string, i: nat)
    requires i < |a| && i < |b| && a[..i] == b[..i] && a[i] < b[i]
    ensures a[0] < b[0] || (a[0] == b[0] && Ascending(a[1..], b[1..]))
  {
    if i > 0 {
      assert a[0] == a[..i][0] && b[0] == b[..i][0];
      assert a[1..][..i - 1] == a[..i][1..] && b[1..][..i - 1] == b[..i][1..];
      assert a[1..][i - 1] < b[1..][i - 1];
    }
  }

  lemma AscendingStep(a: string, b: string)
    requires a != "" && b != ""
    ensures Ascending(a, b) <==> a[0] < b[0] || (a[0] == b[0] && Ascending(a[1..], b[1..]))
  {
    var u, v := a[1..], b[1..];
    assert a == [a[0]] + u && b == [b[0]] + v;
    assert a <= b <==> a[0] == b[0] && u <= v;
    if a[0] < b[0] { assert a[..0] == b[..0]; }
    if a[0] == b[0] && Ascending(u, v) && !(u <= v) {
      var i :| 0 <= i < |u| && i < |v| && u[..i] == v[..i] && u[i] < v[i];
      LaterDifference(a, b, i);
    }
    if Ascending(a, b) && !(a <= b) {
      var i :| 0 <= i < |a| && i < |b| && a[..i] == b[..i] && a[i] < b[i];
      FirstDifference(a, b, i);
    }
  }

  lemma {:induction false} NameLeqIff(a: string, b: string)
    ensures NameLeq(a, b) <==> Ascending(a, b)
  {
    if a != "" && b != "" {
      hide Ascending;
      NameLeqIff(a[1..], b[1..]);
      AscendingStep(a, b);
    }
  }

  /** `n` is where a tier stands in the list of tiers, the last place if it stands there twice, and 999 if it does not
      stand there. */
  ghost predicate TierPlace(tiers: seq<string>, tier: string, n: nat) {
    if tier !in tiers then n == 999
    else n < |tiers| && tiers[n] == tier && forall i :: n < i < |tiers| ==> tiers[i] != tier
  }

  lemma {:induction false} TierRankIs(tiers: seq<string>, tier: string, n: nat)
    ensures TierPlace(tiers, tier, n) <==> n == TierRank(tiers, tier)
  {
    if tiers != [] {
      var k := |tiers| - 1;
      var front := tiers[..k];
      TierRankIs(front, tier, n);
      assert tiers == front + [tiers[k]];
      if tiers[k] != tier && tier in tiers {
        TierRankIs(front, tier, TierRank(front, tier));
        assert TierPlace(tiers, tier, n) <==> TierPlace(front, tier, n);
      }
    }
  }

  ghost predicate RunsOnGpu(m: ModelSpec) { m.placement == "gpu" && m.vramGb > 0.0 }

  /** `a` may stand before `b`: a model on a GPU before any other, vllm before the other models on a GPU, then by the
      place of the tier, then by name. */
  ghost predicate MayPrecede(a: ModelSpec, b: ModelSpec, tiers: seq<string>) {
    && (RunsOnGpu(b) ==> RunsOnGpu(a))
    && (RunsOnGpu(b) && b.backend == "vllm" ==> a.backend == "vllm")
    && (RunsOnGpu(a) == RunsOnGpu(b) && (RunsOnGpu(a) ==> (a.backend == "vllm" <==> b.backend == "vllm")) ==>
          forall i, j :: TierPlace(tiers, a.tier, i) && TierPlace(tiers, b.tier, j) ==>
            i <= j && (i == j ==> Ascending(a.name, b.name)))
  }

  lemma MayPrecedeIff(a: ModelSpec, b: ModelSpec, tiers: seq<string>)
    ensures KeyLeq(KeyOf(a, tiers), KeyOf(b, tiers)) <==> MayPrecede(a, b, tiers)
  {
    hide NameLeq, TierRank, TierPlace, Ascending;
    NameLeqIff(a.name, b.name);
    TierRankIs(tiers, a.tier, TierRank(tiers, a.tier));
    TierRankIs(tiers, b.tier, TierRank(tiers, b.tier));
    forall i: nat ensures TierPlace(tiers, a.tier, i) <==> i == TierRank(tiers, a.tier) {
      TierRankIs(tiers, a.tier, i);
    }
    forall i: nat ensures TierPlace(tiers, b.tier, i) <==> i == TierRank(tiers, b.tier) {
      TierRankIs(tiers, b.tier, i);
    }
  }

  lemma {:induction false} InOrderPairs(ms: seq<ModelSpec>, tiers: seq<string>, i: nat, j: nat)
    requires InOrder(ms, tiers) && i < j < |ms|
    ensures KeyLeq(KeyOf(ms[i], tiers), KeyOf(ms[j], tiers))
  {
    hide KeyOf, KeyLeq;
    if i + 1 < j {
      InOrderPairs(ms, tiers, i, j - 1);
      KeyTransitive(KeyOf(ms[i], tiers), KeyOf(ms[j - 1], tiers), KeyOf(ms[j], tiers));
    }
  }

  /** Without a pinned model the candidates are the models that suit, each as often as it is listed, and any two of them
      stand in order. */
  lemma CandidatesInOrder(models: seq<ModelSpec>, specialties: map<string, Specialty>, q: Query)
    requires q.name in specialties && specialties[q.name].model.None?
    ensures var r, s := ResolveCandidates(models, specialties, q), specialties[q.name];
      && r.Found?
      && (forall m :: multiset(r.value)[m] == if Suits(m, q, s) then multiset(models)[m] else 0)
      && forall i, j :: 0 <= i < j < |r.value| ==> MayPrecede(r.value[i], r.value[j], q.tierOrder)
  {
    hide Passing, Suits, MayPrecede, KeyOf, KeyLeq, Sorted, InOrder;
    CandidatesAreSorted(models, specialties, q);
    var r, s := ResolveCandidates(models, specialties, q).value, specialties[q.name];
    forall m ensures multiset(r)[m] == if Suits(m, q, s) then multiset(models)[m] else 0 {
      PassingIsFilter(models, q, s, m);
    }
    forall i, j | 0 <= i < j < |r| ensures MayPrecede(r[i], r[j], q.tierOrder) {
      InOrderPairs(r, q.tierOrder, i, j);
      MayPrecedeIff(r[i], r[j], q.tierOrder);
    }
  }

  /** The model chosen is on a GPU if any that suits is, and a vllm one if any of those is. */
  lemma GpuIsPreferred(models: seq<ModelSpec>, specialties: map<string, Specialty>, q: Query, m: ModelSpec)
    requires q.name in specialties && specialties[q.name].model.None?
    requires m in models && Suits(m, q, specialties[q.name]) && m.placement == "gpu" && m.vramGb > 0.0
    ensures var r := ResolveSpecialty(models, specialties, q);
      && r.Found? && r.value.placement == "gpu" && r.value.vramGb > 0.0
      && (m.backend == "vllm" ==> r.value.backend == "vllm")
  {
    hide Suits, KeyOf, KeyLeq, ResolveSpecialty;
    PassesIff(m, q, specialties[q.name]);
    BestCandidate(models, specialties, q);
    MayPrecedeIff(ResolveSpecialty(models, specialties, q).value, m, q.tierOrder);
  }

  /** Why a pinned model is refused, or that it is given: the first of its name is looked at, its RAM before its VRAM
      before its backends. */
  lemma PinnedIs(models: seq<ModelSpec>, specialties: map<string, Specialty>, q: Query, name: string, i: nat)
    requires q.name in specialties && specialties[q.name].model == Some(name)
    ensures var r := ResolveSpecialty(models, specialties, q);
      && ((forall m :: m in models ==> m.name != name) ==> r == Refused(UnknownModel))
      && (i < |models| && models[i].name == name && (forall j :: 0 <= j < i ==> models[j].name != name) ==>
            r == var m := models[i];
              if q.maxRamGb.Some? && m.ramGb > q.maxRamGb.value then Refused(ExceedsRam)
              else if q.maxVramGb.Some? && m.vramGb > q.maxVramGb.value then Refused(ExceedsVram)
              else if BackendSupported(m, q.supported) then Found(m)
              else Refused(UnsupportedBackend))
  {
    hide BackendSupported;
    if i < |models| && models[i].name == name && forall j :: 0 <= j < i ==> models[j].name != name {
      assert models[i] in models;
      FirstNamedIs(models, name, i);
    }
    if forall m :: m in models ==> m.name != name { NoneNamed(models, name); }
  }

  lemma {:induction false} FirstNamedIs(models: seq<ModelSpec>, name: string, i: nat)
    requires i < |models| && models[i].name == name && forall j :: 0 <= j < i ==> models[j].name != name
    ensures FirstNamed(models, name) == Some(models[i])
  {
    if i > 0 {
      forall j | 0 <= j < i - 1 ensures models[1..][j].name != name { assert models[1..][j] == models[j + 1]; }
      FirstNamedIs(models[1..], name, i - 1);
    }
  }

  lemma {:induction false} NoneNamed(models: seq<ModelSpec>, name: string)
    requires forall m :: m in models ==> m.name != name
    ensures FirstNamed(models, name) == None
  {
    if models != [] {
      assert forall m :: m in models[1..] ==> m in models;
      NoneNamed(models[1..], name);
    }
  }

  // ---------- as configured ----------

  /** Where a configured model runs, and which GPU backends it can use when none are named. */
  lemma ConfiguredModel(raw: RawSpec, supported: seq<string>)
    ensures var m := PostInit(raw);
      && (m.placement == "gpu" <==> raw.placement == "gpu" || (raw.placement == "auto" && raw.vramGb > 0.0))
      && (raw.placement == "auto" && raw.vramGb <= 0.0 ==> m.placement == "cpu")
      && (raw.placement != "auto" ==> m.placement == raw.placement)
      && (forall items :: raw.backends == Listed(items) && (items != [] || m.placement != "gpu") ==>
            m.gpuBackends == items)
      && (raw.backends == Missing && m.placement != "gpu" ==> m.gpuBackends == [])
      && (RunsOnGpu(m) && raw.backends in {Missing, Listed([])} ==>
            (BackendSupported(m, Some(supported)) <==>
              || (raw.backend == "vllm" && "vllm" in supported)
              || (raw.backend == "llama"
                  && exists b :: b in ["cuda-llama", "rocm-llama", "vulkan-llama", "sycl-llama"] && b in supported)))
  {
    PlacementWords();
    hide SplitItems;
    var m := PostInit(raw);
    if RunsOnGpu(m) && raw.backends in {Missing, Listed([])} {
      assert m.gpuBackends == DefaultBackends(raw.backend);
      if raw.backend == "vllm" && "vllm" in supported { assert "vllm" in m.gpuBackends; }
    }
  }

  lemma PlacementWords()
    ensures "gpu" != "auto" && "cpu" != "auto" && "cpu" != "gpu" && "vllm" != "llama"
  {
    assert |"gpu"| != |"auto"| && "cpu"[0] != "gpu"[0] && |"vllm"| != |"llama"|;
  }
}
