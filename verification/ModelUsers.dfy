/** Who uses a loaded model: the reference counts of the scheduler against the chats in progress. */
module ModelUsers {
  import opened Wrappers
  import opened SlotTable
  import opened Scheduler
  import opened LoadProtocol

  /** How many of the first `n` processes are between marking `name` loaded and marking it unloaded. */
  function CountServing(procs: seq<Proc>, name: string, n: nat): nat
    requires n <= |procs|
  {
    if n == 0 then 0
    else CountServing(procs, name, n - 1) + if ServingName(procs[n - 1], name) then 1 else 0
  }

  predicate ServingName(q: Proc, name: string) { q.Serving? && q.chat.name == name }

  function Users(s: System, name: string): nat { CountServing(s.procs, name, |s.procs|) }

  /** The recorded reference count; a name that is not loaded counts as 0. */
  ghost function RefsIn(m: map<string, Model>, name: string): nat { if name in m then m[name].refcount else 0 }

  ghost function Refs(s: System, name: string): nat { RefsIn(AsMap(s.models), name) }

  ghost predicate RefsExact(s: System) {
    forall name :: Refs(s, name) == Users(s, name)
  }

  ghost predicate Sound(s: System) {
    && WellFormed(s.models)
    && forall q :: 0 <= q < |s.procs| && !s.procs[q].Resting? ==> |s.procs[q].chat.name| < FIELD_SMALL
  }

  /** The two ways to lose count: an explicit eviction of a model that is in use, and a load that finds
      no slot (or no name) but whose failure nobody looks at. */
  ghost predicate LosesCount(s: System, a: Action) {
    match a
    case EvictFromOutside(name) => Refs(s, name) > 0
    case Replace(p) => Enabled(s, a) && Refs(s, s.procs[p].chat.name) > 0
    case Mark(p, _) => Enabled(s, a) &&
      var name := s.procs[p].chat.name;
      name == "" || (name !in AsMap(s.models) && |AsMap(s.models)| == MAX_MODELS)
    case _ => false
  }

  lemma {:induction false} CountAfterMove(procs: seq<Proc>, p: nat, q: Proc, name: string, n: nat)
    requires p < |procs| && n <= |procs|
    ensures CountServing(procs[p := q], name, n) + (if p < n && ServingName(procs[p], name) then 1 else 0)
         == CountServing(procs, name, n) + if p < n && ServingName(q, name) then 1 else 0
  {
    if n > 0 { CountAfterMove(procs, p, q, name, n - 1); }
  }

  lemma {:induction false} CountAtLeast(procs: seq<Proc>, p: nat, name: string, n: nat)
    requires p < n <= |procs| && ServingName(procs[p], name)
    ensures CountServing(procs, name, n) > 0
  {
    if p < n - 1 { CountAtLeast(procs, p, name, n - 1); }
  }

  lemma StepSound(s: System, lim: Limits, a: Action)
    requires lim.ram > 0.0 && Sound(s) && (a.Ask? ==> |a.chat.name| < FIELD_SMALL)
    ensures Sound(Step(s, lim, a))
  {
    hide StepModels, Find, ModelMapStep, AsMap, KeysUnique;
    if Enabled(s, a) && Call(s, lim, a).Some? { ModelStepRefines(s.models, Call(s, lim, a).value); }
  }

  /** What a scheduler call does to the reference count of one name. */
  lemma RefsAfterCall(m: map<string, Model>, op: ModelOp, u: map<string, Model>, ok: bool, name: string)
    requires ModelMapStep(m, op, u, ok) && |m| <= MAX_MODELS
    requires op.Load? ==> op.rec.refcount == 1
    ensures RefsIn(u, name) ==
      if name != op.name then RefsIn(m, name)
      else match op
        case Request(_, _, _, _, _, _) => RefsIn(m, name)
        case Evict(_) => 0
        case Unload(_, _) => if RefsIn(m, name) > 0 then RefsIn(m, name) - 1 else 0
        case Load(_, _) =>
          if name == "" || (name !in m && |m| == MAX_MODELS) then RefsIn(m, name) else RefsIn(m, name) + 1
  {
    hide OldestDropped;
  }

  lemma RefsAfterStep(s: System, lim: Limits, a: Action, name: string)
    requires lim.ram > 0.0 && Sound(s) && Enabled(s, a)
    ensures var t := Step(s, lim, a);
      match Call(s, lim, a)
      case None => Refs(t, name) == Refs(s, name)
      case Some(op) =>
        if name != op.name || op.Request? || (op.Load? && LosesCount(s, a)) then Refs(t, name) == Refs(s, name)
        else if op.Load? then Refs(t, name) == Refs(s, name) + 1
        else if op.Unload? then Refs(t, name) == if Refs(s, name) > 0 then Refs(s, name) - 1 else 0
        else Refs(t, name) == 0
  {
    hide StepModels, Find, AsMap, ModelMapStep, Next;
    if Call(s, lim, a).Some? {
      var op := Call(s, lim, a).value;
      ModelStepRefines(s.models, op);
      MapSize(s.models);
      RefsAfterCall(AsMap(s.models), op, AsMap(Step(s, lim, a).models), StepModels(s.models, op).1, name);
    }
  }

  lemma UsersAfterStep(s: System, lim: Limits, a: Action, name: string)
    requires lim.ram > 0.0 && Enabled(s, a)
    ensures var t := Step(s, lim, a);
      Users(t, name) ==
        if a.Mark? && s.procs[a.p].chat.name == name then Users(s, name) + 1
        else if a.Finish? && s.procs[a.p].chat.name == name then Users(s, name) - 1
        else Users(s, name)
  {
    hide StepModels, Find, ModelsAfter;
    if !a.EvictFromOutside? {
      CountAfterMove(s.procs, a.p, Next(s, lim, a), name, |s.procs|);
    }
  }

  /** From an exact count, a step leaves an exact count if and only if it is not one of the two that lose it. */
  lemma StepKeepsCountIff(s: System, lim: Limits, a: Action)
    requires lim.ram > 0.0 && Sound(s) && RefsExact(s)
    ensures RefsExact(Step(s, lim, a)) <==> !LosesCount(s, a)
  {
    var t := Step(s, lim, a);
    if Enabled(s, a) {
      hide Step, Users, Refs;
      if LosesCount(s, a) {
        var name := Call(s, lim, a).value.name;
        RefsAfterStep(s, lim, a, name);
        UsersAfterStep(s, lim, a, name);
        assert Refs(s, name) == Users(s, name);
      } else {
        forall name ensures Refs(t, name) == Users(t, name) {
          RefsAfterStep(s, lim, a, name);
          UsersAfterStep(s, lim, a, name);
          assert Refs(s, name) == Users(s, name);
        }
      }
    }
  }

  /** Over every interleaving of chats, the counts are exact all along if and only if no step so far lost one. */
  lemma {:induction false} RunKeepsCountIff(n: nat, lim: Limits, actions: seq<Action>, k: nat)
    requires lim.ram > 0.0 && k <= |actions|
    requires forall a :: a in actions && a.Ask? ==> |a.chat.name| < FIELD_SMALL
    ensures Sound(Run(Start(n), lim, actions, k))
    ensures (forall j :: 0 <= j <= k ==> RefsExact(Run(Start(n), lim, actions, j))) <==>
            (forall j :: 0 <= j < k ==> !LosesCount(Run(Start(n), lim, actions, j), actions[j]))
  {
    hide Step, RefsExact, LosesCount, Sound, Run, Start;
    RunStep(n, lim, actions, k);
    if k == 0 {
      StartCounts(n);
    } else {
      RunKeepsCountIff(n, lim, actions, k - 1);
      var s := Run(Start(n), lim, actions, k - 1);
      assert actions[k - 1] in actions;
      StepSound(s, lim, actions[k - 1]);
      if RefsExact(s) { StepKeepsCountIff(s, lim, actions[k - 1]); }
    }
  }

  lemma RunStep(n: nat, lim: Limits, actions: seq<Action>, k: nat)
    requires lim.ram > 0.0 && k <= |actions|
    ensures Run(Start(n), lim, actions, k) ==
      if k == 0 then Start(n) else Step(Run(Start(n), lim, actions, k - 1), lim, actions[k - 1])
  {
    hide Step;
  }

  lemma {:induction false} StartCounts(n: nat)
    ensures Sound(Start(n)) && RefsExact(Start(n))
  {
    StartIsEmpty(n);
    assert AsMap(Start(n).models).Keys <= Outstanding(Start(n));
    forall name ensures Refs(Start(n), name) == Users(Start(n), name) { NobodyServing(Start(n).procs, name, n); }
  }

  lemma {:induction false} NobodyServing(procs: seq<Proc>, name: string, n: nat)
    requires n <= |procs| && forall q :: 0 <= q < n ==> !procs[q].Serving?
    ensures CountServing(procs, name, n) == 0
  {
    if n > 0 { NobodyServing(procs, name, n - 1); }
  }

  /** While counts are exact, making room for anybody leaves every model in use where it is. */
  lemma AdmissionSparesModelsInUse(s: System, lim: Limits, a: Action, p: nat)
    requires lim.ram > 0.0 && Sound(s) && RefsExact(s) && a.Ask?
    requires p < |s.procs| && s.procs[p].Serving?
    ensures var name := s.procs[p].chat.name;
      name in AsMap(s.models) && name in AsMap(Step(s, lim, a).models)
  {
    var name := s.procs[p].chat.name;
    CountAtLeast(s.procs, p, name, |s.procs|);
    assert Refs(s, name) == Users(s, name) > 0;
    if Enabled(s, a) { RefsAfterStep(s, lim, a, name); }
  }

  // ---------- each chat that loads also unloads, once ----------

  function CountDone(s: System, lim: Limits, actions: seq<Action>, k: nat, p: nat, marks: bool): nat
    requires lim.ram > 0.0 && k <= |actions|
  {
    if k == 0 then 0
    else
      var a := actions[k - 1];
      CountDone(s, lim, actions, k - 1, p, marks) +
      if Enabled(Run(s, lim, actions, k - 1), a) && (if marks then a.Mark? else a.Finish?) && a.p == p then 1 else 0
  }

  /** In every run, a process has marked models loaded as often as unloaded, plus one while it is serving. */
  lemma {:induction false} LoadsMatchUnloads(n: nat, lim: Limits, actions: seq<Action>, k: nat, p: nat)
    requires lim.ram > 0.0 && k <= |actions| && p < n
    ensures |Run(Start(n), lim, actions, k).procs| == n
    ensures CountDone(Start(n), lim, actions, k, p, true) ==
            CountDone(Start(n), lim, actions, k, p, false)
            + if Run(Start(n), lim, actions, k).procs[p].Serving? then 1 else 0
  {
    if k > 0 {
      hide StepModels, Find, ModelsAfter;
      LoadsMatchUnloads(n, lim, actions, k - 1, p);
    }
  }

  // ---------- the loss is real ----------

  /** An admitted process that finds its model not loaded and has its backend started marks the model and serves. */
  lemma LoadsItsModel(s: System, lim: Limits, p: nat)
    requires lim.ram > 0.0 && p < |s.procs| && s.procs[p].Admitted? && Find(s.models, s.procs[p].chat.name) == -1
    ensures var chat := s.procs[p].chat;
      Step(Step(Step(s, lim, LookUp(p)), lim, Spawn(p, true, 1, 1)), lim, Mark(p, 0)) ==
      System(StepModels(s.models, Load(chat.name, FirstRecord(chat))).0, s.procs[p := Serving(chat)])
  {
    hide StepModels, Find;
    var chat := s.procs[p].chat;
    var looked := Step(s, lim, LookUp(p));
    assert looked == System(s.models, s.procs[p := Starting(chat)]);
    var spawned := Step(looked, lim, Spawn(p, true, 1, 1));
    assert spawned == System(s.models, s.procs[p := Started(chat, 1, 1)]);
    assert Step(spawned, lim, Mark(p, 0)).procs == s.procs[p := Serving(chat)];
  }

  lemma ChatServes(m: Models, lim: Limits, chat: Chat)
    requires lim.ram > 0.0 && Find(m, chat.name) == -1
    requires StepModels(m, Request(chat.name, lim, chat.niceness, chat.ram, chat.vram, 0)) == (m, true)
    ensures var actions := [Ask(0, chat, 0), LookUp(0), Spawn(0, true, 1, 1), Mark(0, 0)];
      Run(System(m, [Resting, Resting]), lim, actions, 4) ==
      System(StepModels(m, Load(chat.name, FirstRecord(chat))).0, [Serving(chat), Resting])
  {
    RunOfFour(System(m, [Resting, Resting]), lim, Ask(0, chat, 0), LookUp(0), Spawn(0, true, 1, 1), Mark(0, 0));
    LoadsItsModel(System(m, [Admitted(chat), Resting]), lim, 0);
    hide StepModels, Find, Run;
    assert Step(System(m, [Resting, Resting]), lim, Ask(0, chat, 0)) == System(m, [Admitted(chat), Resting]);
    assert [Admitted(chat), Resting][0 := Serving(chat)] == [Serving(chat), Resting];
  }

  function FirstRecord(chat: Chat): Model {
    Model(Field(chat.specialty), Field(chat.backend), chat.ram, chat.vram, 1, 1, 1, 0, 0)
  }

  lemma FirstChatServes(lim: Limits, chat: Chat)
    requires lim.ram > 0.0 && 0 < |chat.name| < FIELD_SMALL && chat.ram <= lim.ram && chat.vram == 0.0
      && chat.niceness <= 0
    ensures var s := Run(Start(2), lim, [Ask(0, chat, 0), LookUp(0), Spawn(0, true, 1, 1), Mark(0, 0)], 4);
      && s.procs == [Serving(chat), Resting] && KeysUnique(s.models)
      && Find(s.models, chat.name) == 0 && s.models[0].val.lastUsed == 0
  {
    AdmittedWhenEmpty(lim, chat);
    MarkedWhenEmpty(chat);
    StartOfTwo();
    hide Run, StepModels, Find, KeysUnique;
    ChatServes(Start(2).models, lim, chat);
  }

  lemma RunOfFour(s: System, lim: Limits, a: Action, b: Action, c: Action, d: Action)
    requires lim.ram > 0.0
    ensures Run(s, lim, [a, b, c, d], 4) == Step(Step(Step(Step(s, lim, a), lim, b), lim, c), lim, d)
  {
    hide Step;
    var actions := [a, b, c, d];
    assert Run(s, lim, actions, 1) == Step(s, lim, a);
    assert Run(s, lim, actions, 3) == Step(Run(s, lim, actions, 2), lim, c);
  }

  lemma StartOfTwo()
    ensures Start(2).procs == [Resting, Resting]
  {
  }

  lemma MarkedWhenEmpty(chat: Chat)
    requires 0 < |chat.name| < FIELD_SMALL
    ensures var u := StepModels(Start(2).models, Load(chat.name, FirstRecord(chat))).0;
      |u| > 0 && KeysUnique(u) && Find(u, chat.name) == 0 && u[0] == Used(chat.name, FirstRecord(chat))
  {
    var free := Start(2).models;
    StartIsEmpty(2);
    assert forall i :: !Holds(free, i, chat.name);
    assert FindFree(free) == 0;
    WriteRefines(free, 0, chat.name, FirstRecord(chat));
    FindAfterWrite(free, 0, chat.name, FirstRecord(chat), chat.name);
  }

  /** A second chat with the same model that finds the backend unhealthy evicts it, whoever is using it. */
  lemma SecondChatEvicts(s: System, lim: Limits, chat: Chat)
    requires lim.ram > 0.0 && s.procs == [Serving(chat), Resting] && KeysUnique(s.models)
    requires Find(s.models, chat.name) == 0 && s.models[0].val.lastUsed == 0
    ensures var t := Run(s, lim, [Ask(1, chat, 0), LookUp(1), Probe(1, false), Replace(1)], 4);
      t.procs == [Serving(chat), Starting(chat)] && chat.name !in AsMap(t.models)
  {
    LoadedIsAdmitted(s.models, lim, chat);
    DeleteRefines(s.models, chat.name);
    RunOfFour(s, lim, Ask(1, chat, 0), LookUp(1), Probe(1, false), Replace(1));
    hide StepModels, AsMap, KeysUnique, Delete, Find, Run;
    var m, pid, port := s.models, s.models[0].val.pid, s.models[0].val.port;
    assert Step(s, lim, Ask(1, chat, 0)) == System(m, [Serving(chat), Admitted(chat)]);
    assert Step(System(m, [Serving(chat), Admitted(chat)]), lim, LookUp(1))
      == System(m, [Serving(chat), Found(chat, pid, port)]);
    assert Step(System(m, [Serving(chat), Found(chat, pid, port)]), lim, Probe(1, false))
      == System(m, [Serving(chat), Replacing(chat)]);
    assert Step(System(m, [Serving(chat), Replacing(chat)]), lim, Replace(1))
      == System(Delete(m, chat.name), [Serving(chat), Starting(chat)]);
  }

  /** So there is a run in which a model disappears while a chat is being served by it. */
  lemma EvictionUnderUse(lim: Limits, chat: Chat)
    requires lim.ram > 0.0 && 0 < |chat.name| < FIELD_SMALL && chat.ram <= lim.ram && chat.vram == 0.0
      && chat.niceness <= 0
    ensures exists actions: seq<Action> ::
      var s := Run(Start(2), lim, actions, |actions|);
      |s.procs| == 2 && s.procs[0] == Serving(chat) && chat.name !in AsMap(s.models)
  {
    var first := [Ask(0, chat, 0), LookUp(0), Spawn(0, true, 1, 1), Mark(0, 0)];
    var second := [Ask(1, chat, 0), LookUp(1), Probe(1, false), Replace(1)];
    hide Step, Find, AsMap;
    FirstChatServes(lim, chat);
    SecondChatEvicts(Run(Start(2), lim, first, 4), lim, chat);
    RunConcat(Start(2), lim, first, second, 4);
    var actions := first + second;
    assert |actions| == 8;
    var s := Run(Start(2), lim, actions, |actions|);
    assert s.procs[0] == Serving(chat) && chat.name !in AsMap(s.models);
  }

  lemma AdmittedWhenEmpty(lim: Limits, chat: Chat)
    requires lim.ram > 0.0 && chat.ram <= lim.ram && chat.vram == 0.0 && chat.niceness <= 0
    ensures Find(Start(2).models, chat.name) == -1
    ensures StepModels(Start(2).models, Request(chat.name, lim, chat.niceness, chat.ram, chat.vram, 0))
      == (Start(2).models, true)
  {
    hide Admit, HasCapacity;
    var free := Start(2).models;
    assert Find(free, chat.name) == -1;
    RoomWhenEmpty(lim, chat);
    hide Start, Find;
    AdmitsAsIs(free, lim, chat);
  }

  lemma RoomWhenEmpty(lim: Limits, chat: Chat)
    requires chat.ram <= lim.ram && chat.vram == 0.0
    ensures HasCapacity(Start(2).models, lim, chat.ram, chat.vram)
  {
    CommittedNone(Start(2).models, Ram, |Start(2).models|);
  }

  /** Where a request fits as it is nothing is evicted and it is admitted. */
  lemma AdmitsAsIs(m: Models, lim: Limits, chat: Chat)
    requires lim.ram > 0.0 && Find(m, chat.name) == -1 && HasCapacity(m, lim, chat.ram, chat.vram) && chat.niceness <= 0
    ensures StepModels(m, Request(chat.name, lim, chat.niceness, chat.ram, chat.vram, 0)) == (m, true)
  {
    var order := IdleByAge(m, chat.name, |m|);
    assert order[..0] == [] && Cleared(m, []) == m;
    assert Evicted(m, chat.name, lim, chat.ram, chat.vram) == [];
  }

  lemma LoadedIsAdmitted(m: Models, lim: Limits, chat: Chat)
    requires lim.ram > 0.0 && Find(m, chat.name) >= 0 && m[Find(m, chat.name)].val.lastUsed == 0
    ensures StepModels(m, Request(chat.name, lim, chat.niceness, chat.ram, chat.vram, 0)) == (m, true)
    ensures StepModels(m, Evict(chat.name)).0 == Delete(m, chat.name)
  {
    var i := Find(m, chat.name);
    assert m[i := Used(m[i].key, m[i].val.(lastUsed := 0))] == m;
  }
}
