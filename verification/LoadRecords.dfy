/** Which process and port a loaded model is recorded with: what a process takes over from a record it reuses, what it
    writes when it marks its model loaded, and where the values of every record come from. */
module LoadRecords {
  import opened Wrappers
  import opened SlotTable
  import opened Scheduler
  import opened LoadProtocol
  import opened ModelUsers

  // ---------- one step ----------

  /** Looking a model up takes process and port from its record, if it has one, and changes nothing else. */
  lemma LookUpReads(s: System, lim: Limits, p: nat)
    requires lim.ram > 0.0 && p < |s.procs| && s.procs[p].Admitted?
    ensures var t, chat, m := Step(s, lim, LookUp(p)), s.procs[p].chat, AsMap(s.models);
      && t.models == s.models && (forall q :: 0 <= q < |s.procs| && q != p ==> t.procs[q] == s.procs[q])
      && (chat.name !in m ==> t.procs[p] == Starting(chat))
      && (chat.name in m ==>
            && t.procs[p].Found? && t.procs[p].chat == chat
            && t.procs[p].pid == m[chat.name].pid && t.procs[p].port == m[chat.name].port)
  {
  }

  /** A healthy backend is used with the process and port that were read. */
  lemma ProbeKeeps(s: System, lim: Limits, p: nat)
    requires lim.ram > 0.0 && p < |s.procs| && s.procs[p].Found? && s.procs[p].pid > 0 && s.procs[p].port > 0
    ensures var t, q := Step(s, lim, Probe(p, true)), s.procs[p];
      && t.models == s.models && t.procs[p].Started? && t.procs[p].chat == q.chat
      && t.procs[p].pid == q.pid && t.procs[p].port == q.port
  {
  }

  /** A backend without a process or a port is never taken for healthy. */
  lemma NotHealthy(s: System, lim: Limits, p: nat)
    requires lim.ram > 0.0 && p < |s.procs| && s.procs[p].Found? && (s.procs[p].pid <= 0 || s.procs[p].port <= 0)
    ensures Step(s, lim, Probe(p, true)) == s
  {
  }

  /** A process whose model's backend is not healthy evicts the record before it starts another backend. */
  lemma UnhealthyIsReplaced(s: System, lim: Limits, p: nat)
    requires lim.ram > 0.0 && Sound(s) && p < |s.procs| && s.procs[p].Found?
    ensures var probed := Step(s, lim, Probe(p, false));
      var t := Step(probed, lim, Replace(p));
      && probed.models == s.models && AsMap(t.models) == AsMap(s.models) - {s.procs[p].chat.name}
      && t.procs[p] == Starting(s.procs[p].chat)
  {
    DeleteRefines(s.models, s.procs[p].chat.name);
    hide AsMap, Delete;
  }

  /** A process that is refused, or whose backend does not start, gives up and has marked nothing. */
  lemma GivesUp(s: System, lim: Limits, p: nat, chat: Chat, now: int, pid: int, port: int)
    requires lim.ram > 0.0 && p < |s.procs|
    ensures var asked := Request(chat.name, lim, chat.niceness, chat.ram, chat.vram, now);
      s.procs[p].Resting? && !StepModels(s.models, asked).1 ==> Step(s, lim, Ask(p, chat, now)).procs == s.procs
    ensures s.procs[p].Starting? ==> Step(s, lim, Spawn(p, false, pid, port)) == System(s.models, s.procs[p := Resting])
  {
    hide StepModels, Find;
  }

  /** What marking a model loaded writes: one user more and its process and port, and for a new record all that the chat
      asked for. */
  lemma MarkRecords(s: System, lim: Limits, p: nat, now: int)
    requires lim.ram > 0.0 && Sound(s) && p < |s.procs| && s.procs[p].Started?
    requires var name, m := s.procs[p].chat.name, AsMap(s.models); name != "" && (name in m || |m| < MAX_MODELS)
    ensures var t, q := Step(s, lim, Mark(p, now)), s.procs[p];
      var m, u, name := AsMap(s.models), AsMap(t.models), q.chat.name;
      && t.procs[p] == Serving(q.chat) && name in u && u.Keys == m.Keys + {name}
      && (forall other :: other in m && other != name ==> u[other] == m[other])
      && u[name].pid == q.pid && u[name].port == q.port && u[name].lastUsed == now
      && u[name].refcount == Refs(s, name) + 1
      && (name in m ==>
            && u[name].specialty == m[name].specialty && u[name].backend == m[name].backend
            && u[name].ram == m[name].ram && u[name].vram == m[name].vram && u[name].loadedAt == m[name].loadedAt)
      && (name !in m ==>
            && u[name].specialty == Field(q.chat.specialty) && u[name].backend == Field(q.chat.backend)
            && u[name].ram == q.chat.ram && u[name].vram == q.chat.vram && u[name].loadedAt == now)
  {
    hide StepModels, AsMap;
    var q := s.procs[p];
    var op := Call(s, lim, Mark(p, now)).value;
    ModelStepRefines(s.models, op);
  }

  // ---------- from reading to marking ----------

  /** None of the actions is one of process `p`. */
  ghost predicate NotBy(actions: seq<Action>, p: nat) {
    forall i :: 0 <= i < |actions| ==> actions[i].EvictFromOutside? || actions[i].p != p
  }

  ghost predicate NamesFit(actions: seq<Action>) {
    forall a :: a in actions && a.Ask? ==> |a.chat.name| < FIELD_SMALL
  }

  lemma {:induction false} OthersLeaveAlone(s: System, lim: Limits, actions: seq<Action>, k: nat, p: nat)
    requires lim.ram > 0.0 && k <= |actions| && p < |s.procs| && Sound(s) && NotBy(actions, p) && NamesFit(actions)
    ensures var t := Run(s, lim, actions, k); |t.procs| == |s.procs| && t.procs[p] == s.procs[p] && Sound(t)
  {
    hide StepModels, Find, ModelsAfter, Sound, Next;
    if k > 0 {
      OthersLeaveAlone(s, lim, actions, k - 1, p);
      assert actions[k - 1] in actions;
      StepSound(Run(s, lim, actions, k - 1), lim, actions[k - 1]);
    }
  }

  /** A process that finds its model's backend healthy marks the model with the process and port that the record had
      when it looked, whatever others do in between, and as one user more than the record then has.  So if nobody else
      touched the record, it keeps both. */
  lemma ReusedRecord(s: System, lim: Limits, p: nat, before: seq<Action>, between: seq<Action>, now: int)
    requires lim.ram > 0.0 && Sound(s) && p < |s.procs| && s.procs[p].Admitted?
    requires NotBy(before, p) && NotBy(between, p) && NamesFit(before) && NamesFit(between)
    requires var name := s.procs[p].chat.name;
      name != "" && name in AsMap(s.models) && AsMap(s.models)[name].pid > 0 && AsMap(s.models)[name].port > 0
    ensures var name := s.procs[p].chat.name;
      var probed := Step(Run(Step(s, lim, LookUp(p)), lim, before, |before|), lim, Probe(p, true));
      var ready := Run(probed, lim, between, |between|);
      var t := Step(ready, lim, Mark(p, now));
      name in AsMap(ready.models) || |AsMap(ready.models)| < MAX_MODELS ==>
        && name in AsMap(t.models) && Refs(t, name) == Refs(ready, name) + 1
        && AsMap(t.models)[name].pid == AsMap(s.models)[name].pid
        && AsMap(t.models)[name].port == AsMap(s.models)[name].port
  {
    hide Step, Run, AsMap, Sound, NotBy, NamesFit;
    var name := s.procs[p].chat.name;
    var looked := Step(s, lim, LookUp(p));
    LookUpReads(s, lim, p);
    StepSound(s, lim, LookUp(p));
    OthersLeaveAlone(looked, lim, before, |before|, p);
    var found := Run(looked, lim, before, |before|);
    ProbeKeeps(found, lim, p);
    var probed := Step(found, lim, Probe(p, true));
    StepSound(found, lim, Probe(p, true));
    OthersLeaveAlone(probed, lim, between, |between|, p);
    var ready := Run(probed, lim, between, |between|);
    if name in AsMap(ready.models) || |AsMap(ready.models)| < MAX_MODELS { MarkRecords(ready, lim, p, now); }
  }

  /** A process that starts a backend marks the model with the process and port of that backend. */
  lemma SpawnedRecord(s: System, lim: Limits, p: nat, pid: int, port: int, between: seq<Action>, now: int)
    requires lim.ram > 0.0 && Sound(s) && p < |s.procs| && s.procs[p].Starting? && s.procs[p].chat.name != ""
    requires NotBy(between, p) && NamesFit(between)
    ensures var name := s.procs[p].chat.name;
      var ready := Run(Step(s, lim, Spawn(p, true, pid, port)), lim, between, |between|);
      var t := Step(ready, lim, Mark(p, now));
      name in AsMap(ready.models) || |AsMap(ready.models)| < MAX_MODELS ==>
        && name in AsMap(t.models) && Refs(t, name) == Refs(ready, name) + 1
        && AsMap(t.models)[name].pid == pid && AsMap(t.models)[name].port == port
  {
    hide Run, AsMap, Sound, NotBy, NamesFit, StepModels, Find;
    var name := s.procs[p].chat.name;
    var spawned := Step(s, lim, Spawn(p, true, pid, port));
    assert spawned.procs[p] == Started(s.procs[p].chat, pid, port);
    StepSound(s, lim, Spawn(p, true, pid, port));
    hide Step;
    OthersLeaveAlone(spawned, lim, between, |between|, p);
    var ready := Run(spawned, lim, between, |between|);
    if name in AsMap(ready.models) || |AsMap(ready.models)| < MAX_MODELS { MarkRecords(ready, lim, p, now); }
  }

  // ---------- where the values come from ----------

  /** Among the first `k` actions some process started a backend for this name, with this process and port. */
  ghost predicate WasSpawned(n: nat, lim: Limits, actions: seq<Action>, k: nat, name: string, pid: int, port: int)
    requires lim.ram > 0.0 && k <= |actions|
  {
    exists j :: 0 <= j < k && Spawns(Run(Start(n), lim, actions, j), actions[j], name, pid, port)
  }

  ghost predicate Spawns(s: System, a: Action, name: string, pid: int, port: int) {
    a.Spawn? && a.started && a.pid == pid && a.port == port && Enabled(s, a) && s.procs[a.p].chat.name == name
  }

  /** What process and port a process holds, if any. */
  ghost predicate Carries(q: Proc, name: string, pid: int, port: int) {
    (q.Found? || q.Started?) && q.chat.name == name && q.pid == pid && q.port == port
  }

  ghost predicate HasRecord(s: System, name: string, pid: int, port: int) {
    name in AsMap(s.models) && AsMap(s.models)[name].pid == pid && AsMap(s.models)[name].port == port
  }

  /** What a process holds after a step it held before, or read from the record, or has just started. */
  lemma CarriedAfter(s: System, lim: Limits, a: Action, q: nat, name: string, pid: int, port: int)
    requires lim.ram > 0.0 && q < |s.procs| && Carries(Step(s, lim, a).procs[q], name, pid, port)
    ensures Carries(s.procs[q], name, pid, port) || HasRecord(s, name, pid, port) || Spawns(s, a, name, pid, port)
  {
    hide StepModels, ModelsAfter, Find;
    if Enabled(s, a) && a.LookUp? && a.p == q { LookUpReads(s, lim, q); }
  }

  /** What a record holds after a step it held before, or a process held that marked it. */
  lemma RecordedAfterStep(s: System, lim: Limits, a: Action, name: string, pid: int, port: int)
    requires lim.ram > 0.0 && Sound(s) && HasRecord(Step(s, lim, a), name, pid, port)
    ensures HasRecord(s, name, pid, port) || exists q :: 0 <= q < |s.procs| && Carries(s.procs[q], name, pid, port)
  {
    hide StepModels, AsMap, Next;
    if Enabled(s, a) && Call(s, lim, a).Some? {
      var op := Call(s, lim, a).value;
      ModelStepRefines(s.models, op);
      PidAfterCall(AsMap(s.models), op, AsMap(Step(s, lim, a).models), StepModels(s.models, op).1, name);
      if op.Load? && op.name == name { assert Carries(s.procs[a.p], name, pid, port) || HasRecord(s, name, pid, port); }
    }
  }

  lemma PidAfterCall(m: map<string, Model>, op: ModelOp, u: map<string, Model>, ok: bool, name: string)
    requires ModelMapStep(m, op, u, ok) && name in u
    ensures (name in m && u[name].pid == m[name].pid && u[name].port == m[name].port)
      || (op.Load? && op.name == name && u[name].pid == op.rec.pid && u[name].port == op.rec.port)
  {
    hide Needed, MapHasCapacity, OnlyIdleDropped, OldestDropped, MapAdmits;
  }

  /** In every interleaving, process and port of every record, and those that a process is about to use, are those of a
      backend that some process started for that name: never one of another model, and never mixed up. */
  lemma {:induction false} RecordsWereSpawned(n: nat, lim: Limits, actions: seq<Action>, k: nat)
    requires lim.ram > 0.0 && k <= |actions| && NamesFit(actions)
    ensures var s := Run(Start(n), lim, actions, k);
      && Sound(s)
      && (forall name, pid, port :: HasRecord(s, name, pid, port) ==> WasSpawned(n, lim, actions, k, name, pid, port))
      && (forall q, name, pid, port :: 0 <= q < |s.procs| && Carries(s.procs[q], name, pid, port) ==>
            WasSpawned(n, lim, actions, k, name, pid, port))
  {
    hide Run, Step, Sound, Start, HasRecord, Carries, Spawns;
    RunStep(n, lim, actions, k);
    if k == 0 {
      StartCounts(n);
      NothingAtStart(n);
    } else {
      RecordsWereSpawned(n, lim, actions, k - 1);
      var s, a := Run(Start(n), lim, actions, k - 1), actions[k - 1];
      var t := Step(s, lim, a);
      assert a in actions;
      StepSound(s, lim, a);
      forall name, pid, port | HasRecord(t, name, pid, port)
        ensures WasSpawned(n, lim, actions, k, name, pid, port)
      {
        RecordedAfterStep(s, lim, a, name, pid, port);
        assert WasSpawned(n, lim, actions, k - 1, name, pid, port);
      }
      forall q, name, pid, port | 0 <= q < |t.procs| && Carries(t.procs[q], name, pid, port)
        ensures WasSpawned(n, lim, actions, k, name, pid, port)
      {
        CarriedAfter(s, lim, a, q, name, pid, port);
        if !Spawns(s, a, name, pid, port) { assert WasSpawned(n, lim, actions, k - 1, name, pid, port); }
      }
    }
  }

  lemma NothingAtStart(n: nat)
    ensures var s := Start(n);
      && (forall name, pid, port :: !HasRecord(s, name, pid, port))
      && forall q, name, pid, port :: 0 <= q < |s.procs| ==> !Carries(s.procs[q], name, pid, port)
  {
    StartIsEmpty(n);
    assert AsMap(Start(n).models).Keys <= Outstanding(Start(n));
  }
}
