/** Many processes loading models at once.  Each call into the scheduler is one atomic step, because
    it runs under the file lock; between two of its calls a process can be overtaken by any other.
    Whether a backend is healthy, or starts at all, is decided by the environment. */
module LoadProtocol {
  import opened Wrappers
  import opened SlotTable
  import opened Scheduler

  datatype Chat = Chat(name: string, specialty: string, backend: string, niceness: int, ram: real, vram: real)

  /** How far a process has come with its chat. */
  datatype Proc =
    | Resting
    | Admitted(chat: Chat)                        // next: read the model's record
    | Found(chat: Chat, pid: int, port: int)      // next: probe the recorded backend
    | Replacing(chat: Chat)                       // next: evict the unhealthy record
    | Starting(chat: Chat)                        // next: spawn a backend
    | Started(chat: Chat, pid: int, port: int)    // next: mark the model loaded
    | Serving(chat: Chat)                         // next: mark it unloaded

  datatype System = System(models: Models, procs: seq<Proc>)

  datatype Action =
    | Ask(p: nat, chat: Chat, now: int)
    | LookUp(p: nat)
    | Probe(p: nat, healthy: bool)
    | Replace(p: nat)
    | Spawn(p: nat, started: bool, pid: int, port: int)
    | Mark(p: nat, now: int)
    | Finish(p: nat, now: int)
    | EvictFromOutside(name: string)

  predicate Enabled(s: System, a: Action) {
    match a
    case EvictFromOutside(_) => true
    case Ask(p, _, _) => p < |s.procs| && s.procs[p].Resting?
    case LookUp(p) => p < |s.procs| && s.procs[p].Admitted?
    case Probe(p, healthy) => p < |s.procs| && s.procs[p].Found?
      && (healthy ==> s.procs[p].port > 0 && s.procs[p].pid > 0)
    case Replace(p) => p < |s.procs| && s.procs[p].Replacing?
    case Spawn(p, _, _, _) => p < |s.procs| && s.procs[p].Starting?
    case Mark(p, _) => p < |s.procs| && s.procs[p].Started?
    case Finish(p, _) => p < |s.procs| && s.procs[p].Serving?
  }

  /** The scheduler call that an enabled action makes, if it is one that writes. */
  function Call(s: System, lim: Limits, a: Action): Option<ModelOp>
    requires Enabled(s, a)
  {
    match a
    case Ask(_, chat, now) => Some(Request(chat.name, lim, chat.niceness, chat.ram, chat.vram, now))
    case Replace(p) => Some(Evict(s.procs[p].chat.name))
    case Mark(p, now) =>
      var q := s.procs[p];
      Some(Load(q.chat.name,
        Model(Field(q.chat.specialty), Field(q.chat.backend), q.chat.ram, q.chat.vram, q.pid, q.port, 1, now, now)))
    case Finish(p, now) => Some(Unload(s.procs[p].chat.name, now))
    case EvictFromOutside(name) => Some(Evict(name))
    case LookUp(_) => None
    case Probe(_, _) => None
    case Spawn(_, _, _, _) => None
  }

  /** Where an enabled action takes the process that performs it. */
  function Next(s: System, lim: Limits, a: Action): Proc
    requires Enabled(s, a) && !a.EvictFromOutside? && lim.ram > 0.0
  {
    match a
    case Ask(p, chat, now) => if StepModels(s.models, Call(s, lim, a).value).1 then Admitted(chat) else Resting
    case LookUp(p) =>
      var i := Find(s.models, s.procs[p].chat.name);
      if i >= 0 then Found(s.procs[p].chat, s.models[i].val.pid, s.models[i].val.port) else Starting(s.procs[p].chat)
    case Probe(p, healthy) =>
      var q := s.procs[p];
      if healthy then Started(q.chat, q.pid, q.port) else Replacing(q.chat)
    case Replace(p) => Starting(s.procs[p].chat)
    case Spawn(p, started, pid, port) => if started then Started(s.procs[p].chat, pid, port) else Resting
    case Mark(p, _) => Serving(s.procs[p].chat)
    case Finish(_, _) => Resting
  }

  function ModelsAfter(s: System, lim: Limits, a: Action): Models
    requires Enabled(s, a) && lim.ram > 0.0
  {
    match Call(s, lim, a)
    case None => s.models
    case Some(op) => StepModels(s.models, op).0
  }

  /** One step; an action that is not enabled changes nothing. */
  function Step(s: System, lim: Limits, a: Action): (t: System)
    requires lim.ram > 0.0
    ensures |t.procs| == |s.procs|
  {
    if !Enabled(s, a) then s
    else System(ModelsAfter(s, lim, a), if a.EvictFromOutside? then s.procs else s.procs[a.p := Next(s, lim, a)])
  }

  /** The state after the first `k` actions. */
  function Run(s: System, lim: Limits, actions: seq<Action>, k: nat): System
    requires lim.ram > 0.0 && k <= |actions|
  {
    if k == 0 then s else Step(Run(s, lim, actions, k - 1), lim, actions[k - 1])
  }

  lemma {:induction false} RunPrefix(s: System, lim: Limits, first: seq<Action>, second: seq<Action>, k: nat)
    requires lim.ram > 0.0 && k <= |first|
    ensures Run(s, lim, first + second, k) == Run(s, lim, first, k)
  {
    if k > 0 { RunPrefix(s, lim, first, second, k - 1); }
  }

  lemma {:induction false} RunConcat(s: System, lim: Limits, first: seq<Action>, second: seq<Action>, k: nat)
    requires lim.ram > 0.0 && k <= |second|
    ensures Run(s, lim, first + second, |first| + k) == Run(Run(s, lim, first, |first|), lim, second, k)
  {
    if k == 0 { RunPrefix(s, lim, first, second, |first|); } else { RunConcat(s, lim, first, second, k - 1); }
  }

  /** Nothing loaded, nobody working. */
  function Start(n: nat): System {
    System(seq(MAX_MODELS, _ => Free), seq(n, _ => Resting))
  }

  // ---------- sums over sets of names ----------

  lemma {:induction false} SetSumSubset(few: set<string>, many: set<string>, size: Sizes, r: Resource)
    requires few <= many && forall n :: size(n, r) >= 0.0
    ensures 0.0 <= SetSum(few, size, r) <= SetSum(many, size, r)
    decreases many
  {
    if x :| x in many && x !in few {
      SetSumWithout(many, x, size, r);
      SetSumSubset(few, many - {x}, size, r);
    } else {
      assert few == many;
      if x :| x in many {
        SetSumWithout(many, x, size, r);
        SetSumSubset(few - {x}, many - {x}, size, r);
      }
    }
  }

  // ---------- the names that hold or are about to hold memory ----------

  predicate Pending(q: Proc) {
    !q.Resting? && !q.Serving?
  }

  ghost function PendingNames(procs: seq<Proc>, n: nat): set<string>
    requires n <= |procs|
  {
    if n == 0 then {} else PendingNames(procs, n - 1) + if Pending(procs[n - 1]) then {procs[n - 1].chat.name} else {}
  }

  lemma {:induction false} PendingNamesAre(procs: seq<Proc>, n: nat, name: string)
    requires n <= |procs|
    ensures name in PendingNames(procs, n) <==>
      exists q :: 0 <= q < n && Pending(procs[q]) && procs[q].chat.name == name
  {
    if n > 0 { PendingNamesAre(procs, n - 1, name); }
  }

  /** Loaded names and the names of chats that were admitted but have not marked their model loaded. */
  ghost function Outstanding(s: System): set<string> {
    AsMap(s.models).Keys + PendingNames(s.procs, |s.procs|)
  }

  ghost predicate FitsSizes(chat: Chat, size: Sizes) {
    |chat.name| < FIELD_SMALL && chat.ram == size(chat.name, Ram) && chat.vram == size(chat.name, Vram)
  }

  ghost predicate Consistent(s: System, size: Sizes) {
    && WellFormed(s.models) && Recorded(AsMap(s.models), size)
    && forall q :: 0 <= q < |s.procs| && !s.procs[q].Resting? ==> FitsSizes(s.procs[q].chat, size)
  }

  lemma RecordedAfter(m: map<string, Model>, op: ModelOp, u: map<string, Model>, ok: bool, size: Sizes)
    requires Recorded(m, size) && ModelMapStep(m, op, u, ok)
    requires op.Load? ==> op.rec.ram == size(op.name, Ram) && op.rec.vram == size(op.name, Vram)
    ensures Recorded(u, size)
  {
    hide Needed, MapHasCapacity, OnlyIdleDropped, OldestDropped, MapAdmits;
  }

  lemma ModelsConsistent(s: System, lim: Limits, a: Action, size: Sizes)
    requires lim.ram > 0.0 && Consistent(s, size) && Enabled(s, a)
    ensures WellFormed(ModelsAfter(s, lim, a)) && Recorded(AsMap(ModelsAfter(s, lim, a)), size)
  {
    hide StepModels, AsMap, ModelMapStep;
    if Call(s, lim, a).Some? {
      var op := Call(s, lim, a).value;
      ModelStepRefines(s.models, op);
      RecordedAfter(AsMap(s.models), op, AsMap(ModelsAfter(s, lim, a)), StepModels(s.models, op).1, size);
    }
  }

  lemma StepConsistent(s: System, lim: Limits, a: Action, size: Sizes)
    requires lim.ram > 0.0 && Consistent(s, size) && (a.Ask? ==> FitsSizes(a.chat, size))
    ensures Consistent(Step(s, lim, a), size)
  {
    hide StepModels, Find, AsMap, Recorded, WellFormed, ModelsAfter;
    if Enabled(s, a) { ModelsConsistent(s, lim, a, size); }
  }

  /** What the scheduler counts as committed is the sum over the names that are loaded. */
  lemma CommittedIsLoaded(s: System, size: Sizes, r: Resource)
    requires Consistent(s, size)
    ensures Committed(s.models, r) == SetSum(AsMap(s.models).Keys, size, r)
  {
    CommittedIsSum(s.models, size, r, |s.models|);
    assert AsMap(s.models).Keys == KeySet(s.models, |s.models|);
  }

  // ---------- the capacity bound ----------

  /** `most` added up `k` times. */
  ghost function Times(k: nat, most: real): real {
    if k == 0 then 0.0 else Times(k - 1, most) + most
  }

  lemma {:induction false} TimesIsProduct(k: nat, most: real)
    ensures Times(k, most) == k as real * most
  {
    if k > 0 {
      TimesIsProduct(k - 1, most);
      assert k as real * most == (k - 1) as real * most + most;
    }
  }

  /** How many of the first `n` processes are not `p`. */
  function Others(n: nat, p: nat): nat { if p < n then n - 1 else n }

  /** Every process but `p` adds at most one name to a base that already has `p`'s. */
  lemma {:induction false} PendingAddsAtMost(base: set<string>, procs: seq<Proc>, n: nat, p: nat, size: Sizes,
                                             r: Resource, most: real)
    requires n <= |procs| && p < |procs|
    requires Pending(procs[p]) ==> procs[p].chat.name in base
    requires forall name :: 0.0 <= size(name, r) <= most
    ensures SetSum(base + PendingNames(procs, n), size, r) <= SetSum(base, size, r) + Times(Others(n, p), most)
  {
    if n == 0 {
      assert base + {} == base;
    } else {
      PendingAddsAtMost(base, procs, n - 1, p, size, r, most);
      assert 0.0 <= size("", r) <= most;
      var before := base + PendingNames(procs, n - 1);
      var after := base + PendingNames(procs, n);
      var q := procs[n - 1];
      if Pending(q) {
        SetSumWith(before, q.chat.name, size, r);
        assert after == before + {q.chat.name};
        assert p == n - 1 ==> q.chat.name in before;
      } else {
        assert after == before;
      }
      assert p != n - 1 ==> Times(Others(n, p), most) == Times(Others(n - 1, p), most) + most;
    }
  }

  /** The names loaded after a step were loaded before it, but for the one its process marks. */
  lemma LoadedAfter(s: System, lim: Limits, a: Action, size: Sizes)
    requires lim.ram > 0.0 && Consistent(s, size)
    ensures AsMap(Step(s, lim, a).models).Keys <=
            AsMap(s.models).Keys + if a.Mark? && Enabled(s, a) then {s.procs[a.p].chat.name} else {}
  {
    hide StepModels, Find, AsMap, KeysUnique, ModelMapStep;
    if Enabled(s, a) && Call(s, lim, a).Some? {
      var op := Call(s, lim, a).value;
      ModelStepRefines(s.models, op);
      KeysAfterCall(AsMap(s.models), op, AsMap(ModelsAfter(s, lim, a)), StepModels(s.models, op).1);
    }
  }

  lemma KeysAfterCall(m: map<string, Model>, op: ModelOp, u: map<string, Model>, ok: bool)
    requires ModelMapStep(m, op, u, ok)
    ensures u.Keys <= m.Keys + if op.Load? then {op.name} else {}
  {
    hide Needed, MapHasCapacity, OnlyIdleDropped, OldestDropped, MapAdmits;
  }

  /** Only an admission of a model that is not loaded can add a name. */
  lemma OutstandingShrinks(s: System, lim: Limits, a: Action, size: Sizes)
    requires lim.ram > 0.0 && Consistent(s, size)
    requires a.Ask? && Enabled(s, a) ==>
      Find(s.models, a.chat.name) >= 0
        || !Admit(s.models, lim, a.chat.name, a.chat.niceness, a.chat.ram, a.chat.vram, a.now).allowed
    ensures Outstanding(Step(s, lim, a)) <= Outstanding(s)
  {
    hide Find, AsMap, RamState, AfterEviction;
    var t := Step(s, lim, a);
    LoadedAfter(s, lim, a, size);
    forall name | name in Outstanding(t) ensures name in Outstanding(s) {
      PendingNamesAre(s.procs, |s.procs|, name);
      PendingNamesAre(t.procs, |t.procs|, name);
      if name !in AsMap(s.models) {
        if q :| 0 <= q < |t.procs| && Pending(t.procs[q]) && t.procs[q].chat.name == name {
          assert Pending(s.procs[q]) && s.procs[q].chat.name == name;
        } else {
          assert Pending(s.procs[a.p]) && s.procs[a.p].chat.name == name;
        }
      }
    }
  }

  ghost function LimitOf(lim: Limits, r: Resource): real { if r.Ram? then lim.ram else lim.vram }

  ghost predicate WithinBound(s: System, lim: Limits, size: Sizes, r: Resource, most: real)
    requires |s.procs| > 0
  {
    SetSum(Outstanding(s), size, r) <= LimitOf(lim, r) + Times(|s.procs| - 1, most)
  }

  lemma AdmissionWithinBound(s: System, lim: Limits, a: Action, size: Sizes, r: Resource, most: real)
    requires lim.ram > 0.0 && LimitOf(lim, r) > 0.0 && |s.procs| > 0
    requires Consistent(s, size) && a.Ask? && Enabled(s, a) && FitsSizes(a.chat, size)
    requires forall name :: 0.0 <= size(name, r) <= most
    requires WithinBound(s, lim, size, r, most)
    requires Find(s.models, a.chat.name) < 0
    requires Admit(s.models, lim, a.chat.name, a.chat.niceness, a.chat.ram, a.chat.vram, a.now).allowed
    ensures WithinBound(Step(s, lim, a), lim, size, r, most)
  {
    var t := Step(s, lim, a);
    StepConsistent(s, lim, a, size);
    AdmittedFits(s, lim, a, t, r);
    hide Step, Admit, AsMap, Outstanding, Committed, Find, Consistent;
    assert 0.0 <= size(a.chat.name, r);
    if size(a.chat.name, r) == 0.0 {
      LoadedAfter(s, lim, a, size);
      OthersOutstanding(s, t, a);
      SetSumSubset(Outstanding(t) - {a.chat.name}, Outstanding(s), size, r);
      SetSumWithout(Outstanding(t), a.chat.name, size, r);
    } else {
      FreshAdmission(t, a.p, lim, size, r, most);
    }
  }

  /** Right after an admission that was checked against the limit, everybody else's pending names come on top. */
  lemma FreshAdmission(t: System, p: nat, lim: Limits, size: Sizes, r: Resource, most: real)
    requires p < |t.procs| && Pending(t.procs[p]) && Consistent(t, size)
    requires forall name :: 0.0 <= size(name, r) <= most
    requires Committed(t.models, r) + size(t.procs[p].chat.name, r) <= LimitOf(lim, r)
    ensures WithinBound(t, lim, size, r, most)
  {
    hide AsMap, Committed, Consistent;
    var name := t.procs[p].chat.name;
    var loaded := AsMap(t.models).Keys;
    CommittedIsLoaded(t, size, r);
    SetSumWith(loaded, name, size, r);
    PendingAddsAtMost(loaded + {name}, t.procs, |t.procs|, p, size, r, most);
    PendingNamesAre(t.procs, |t.procs|, name);
    assert loaded + {name} + PendingNames(t.procs, |t.procs|) == Outstanding(t);
  }

  /** What an admission has checked about the state it leaves. */
  lemma AdmittedFits(s: System, lim: Limits, a: Action, t: System, r: Resource)
    requires lim.ram > 0.0 && LimitOf(lim, r) > 0.0 && a.Ask? && Enabled(s, a) && t == Step(s, lim, a)
    requires Find(s.models, a.chat.name) < 0
    requires Admit(s.models, lim, a.chat.name, a.chat.niceness, a.chat.ram, a.chat.vram, a.now).allowed
    ensures t.procs == s.procs[a.p := Admitted(a.chat)]
    ensures r.Ram? ==> Committed(t.models, r) + a.chat.ram <= LimitOf(lim, r)
    ensures r.Vram? && a.chat.vram > 0.0 ==> Committed(t.models, r) + a.chat.vram <= LimitOf(lim, r)
  {
    hide RamState, AfterEviction, Committed;
  }

  lemma StepWithinBound(s: System, lim: Limits, a: Action, size: Sizes, r: Resource, most: real)
    requires lim.ram > 0.0 && LimitOf(lim, r) > 0.0 && |s.procs| > 0
    requires Consistent(s, size) && (a.Ask? ==> FitsSizes(a.chat, size))
    requires forall name :: 0.0 <= size(name, r) <= most
    requires WithinBound(s, lim, size, r, most)
    ensures WithinBound(Step(s, lim, a), lim, size, r, most)
  {
    hide Admit, Step, Outstanding, Find, Consistent;
    if a.Ask? && Enabled(s, a) && Find(s.models, a.chat.name) < 0
       && Admit(s.models, lim, a.chat.name, a.chat.niceness, a.chat.ram, a.chat.vram, a.now).allowed {
      AdmissionWithinBound(s, lim, a, size, r, most);
    } else {
      OutstandingShrinks(s, lim, a, size);
      SetSumSubset(Outstanding(Step(s, lim, a)), Outstanding(s), size, r);
    }
  }

  /** An admission that adds its own name adds no other. */
  lemma OthersOutstanding(s: System, t: System, a: Action)
    requires a.Ask? && Enabled(s, a)
    requires AsMap(t.models).Keys <= AsMap(s.models).Keys && |t.procs| == |s.procs|
    requires forall q :: 0 <= q < |s.procs| && q != a.p ==> t.procs[q] == s.procs[q]
    requires t.procs[a.p] == Admitted(a.chat)
    ensures a.chat.name in Outstanding(t) && Outstanding(t) - {a.chat.name} <= Outstanding(s)
  {
    PendingNamesAre(t.procs, |t.procs|, a.chat.name);
    forall name | name in Outstanding(t) && name != a.chat.name ensures name in Outstanding(s) {
      PendingNamesAre(s.procs, |s.procs|, name);
      PendingNamesAre(t.procs, |t.procs|, name);
      if q :| 0 <= q < |t.procs| && Pending(t.procs[q]) && t.procs[q].chat.name == name {
        assert Pending(s.procs[q]) && s.procs[q].chat.name == name;
      }
    }
  }

  /** With N processes in any interleaving, a fixed limit, and each name always asking for the same amount,
      at most `most`, the names that are loaded or on their way never hold more than limit + (N-1) * most,
      and neither does the scheduler's own count.  With one process that is the limit itself. */
  lemma CapacityBound(n: nat, lim: Limits, actions: seq<Action>, size: Sizes, r: Resource, most: real, k: nat)
    requires n > 0 && lim.ram > 0.0 && LimitOf(lim, r) > 0.0 && k <= |actions|
    requires forall a :: a in actions && a.Ask? ==> FitsSizes(a.chat, size)
    requires forall name :: 0.0 <= size(name, r) <= most
    ensures var s := Run(Start(n), lim, actions, k);
      Committed(s.models, r) <= SetSum(Outstanding(s), size, r) <= LimitOf(lim, r) + (n - 1) as real * most
    ensures n == 1 ==> Committed(Run(Start(n), lim, actions, k).models, r) <= LimitOf(lim, r)
  {
    hide Step, Outstanding, Committed, Consistent;
    RunWithinBound(n, lim, actions, size, r, most, k);
    var s := Run(Start(n), lim, actions, k);
    BoundOnState(s, lim, size, r, most);
    TimesIsProduct(n - 1, most);
    if n == 1 { assert Times(0, most) == 0.0; }
  }

  lemma BoundOnState(s: System, lim: Limits, size: Sizes, r: Resource, most: real)
    requires |s.procs| > 0 && Consistent(s, size) && WithinBound(s, lim, size, r, most)
    requires forall name :: 0.0 <= size(name, r) <= most
    ensures Committed(s.models, r) <= SetSum(Outstanding(s), size, r) <= LimitOf(lim, r) + Times(|s.procs| - 1, most)
  {
    CommittedIsLoaded(s, size, r);
    SetSumSubset(AsMap(s.models).Keys, Outstanding(s), size, r);
  }

  lemma {:induction false} RunWithinBound(n: nat, lim: Limits, actions: seq<Action>, size: Sizes, r: Resource,
                                          most: real, k: nat)
    requires n > 0 && lim.ram > 0.0 && LimitOf(lim, r) > 0.0 && k <= |actions|
    requires forall a :: a in actions && a.Ask? ==> FitsSizes(a.chat, size)
    requires forall name :: 0.0 <= size(name, r) <= most
    ensures var s := Run(Start(n), lim, actions, k);
      |s.procs| == n && Consistent(s, size) && WithinBound(s, lim, size, r, most)
  {
    if k == 0 {
      StartIsEmpty(n);
      assert 0.0 <= size("", r) <= most;
      TimesNonNegative(n - 1, most);
    } else {
      RunWithinBound(n, lim, actions, size, r, most, k - 1);
      var s := Run(Start(n), lim, actions, k - 1);
      assert actions[k - 1] in actions;
      StepConsistent(s, lim, actions[k - 1], size);
      StepWithinBound(s, lim, actions[k - 1], size, r, most);
    }
  }

  lemma {:induction false} TimesNonNegative(k: nat, most: real)
    requires most >= 0.0
    ensures Times(k, most) >= 0.0
  {
    if k > 0 { TimesNonNegative(k - 1, most); }
  }

  lemma {:induction false} StartIsEmpty(n: nat)
    ensures Outstanding(Start(n)) == {} && WellFormed(Start(n).models)
  {
    var s := Start(n);
    forall name ensures name !in Outstanding(s) {
      PendingNamesAre(s.procs, n, name);
    }
  }
}
