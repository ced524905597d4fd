/** The scheduler's shared state as libbubble keeps it: three slot arrays that every operation, run
    under the file lock, updates in place. */
module SchedulerState {
  import opened Wrappers
  import opened SlotTable
  import opened Scheduler

  method FindSlot<V>(t: array<Slot<V>>, key: string) returns (index: int)
    ensures index == Find(t[..], key)
  {
    index := 0;
    while index < t.Length
      invariant 0 <= index <= t.Length
      invariant Find(t[..], key, index) == Find(t[..], key)
    {
      if t[index].Used? && t[index].key == key { return; }
      index := index + 1;
    }
    index := -1;
  }

  method FindFreeSlot<V>(t: array<Slot<V>>) returns (index: int)
    ensures index == FindFree(t[..])
  {
    index := 0;
    while index < t.Length
      invariant 0 <= index <= t.Length
      invariant FindFree(t[..], index) == FindFree(t[..])
    {
      if t[index].Free? { return; }
      index := index + 1;
    }
    index := -1;
  }

  class State {
    const hwRam: real
    const hwVram: real
    var ramLimit: real
    var vramLimit: real
    const agents: array<Slot<Agent>>
    const models: array<Slot<Model>>
    const queue: array<Option<Job>>

    ghost predicate Valid()
      reads this, agents, models, queue
    {
      && agents.Length == MAX_AGENTS && models.Length == MAX_MODELS && queue.Length == MAX_QUEUE
      && hwVram >= 0.0 && ramLimit >= 0.0 && vramLimit >= 0.0
    }

    /** All slots zero, no configured limit. */
    constructor (hwRam: real, hwVram: real)
      requires hwVram >= 0.0
      ensures Valid() && fresh(agents) && fresh(models) && fresh(queue)
      ensures this.hwRam == hwRam && this.hwVram == hwVram && ramLimit == 0.0 == vramLimit
      ensures forall i :: 0 <= i < MAX_AGENTS ==> agents[i] == Free
      ensures forall i :: 0 <= i < MAX_MODELS ==> models[i] == Free
      ensures forall i :: 0 <= i < MAX_QUEUE ==> queue[i] == None
    {
      this.hwRam, this.hwVram := hwRam, hwVram;
      ramLimit, vramLimit := 0.0, 0.0;
      agents := new Slot<Agent>[MAX_AGENTS](_ => Free);
      models := new Slot<Model>[MAX_MODELS](_ => Free);
      queue := new Option<Job>[MAX_QUEUE](_ => None);
    }

    /** The configured limits, or what the hardware offers (at least 1 GB of RAM). */
    function Effective(): (lim: Limits)
      requires Valid()
      reads this, agents, models, queue
      ensures lim.Valid()
    {
      Limits(if ramLimit > 0.0 then ramLimit else if hwRam > 1.0 then hwRam else 1.0,
             if vramLimit > 0.0 then vramLimit else hwVram)
    }

    method ConfigureLimits(ram: real, vram: real)
      requires Valid()
      modifies this
      ensures Valid()
      ensures Effective().ram == if ram > 0.0 then ram else if hwRam > 1.0 then hwRam else 1.0
      ensures Effective().vram == if vram > 0.0 then vram else hwVram
    {
      ramLimit := if ram > 0.0 then ram else 0.0;
      vramLimit := if vram > 0.0 then vram else 0.0;
    }

    method CommittedGb(r: Resource) returns (total: real)
      ensures total == Committed(models[..], r)
    {
      total := 0.0;
      for i := 0 to models.Length
        invariant total == CommittedTo(models[..], r, i)
      {
        if models[i].Used? {
          total := total + if r.Ram? then models[i].val.ram else models[i].val.vram;
        }
      }
    }

    method HasCapacityFor(ram: real, vram: real) returns (fits: bool)
      requires Valid()
      ensures fits == HasCapacity(models[..], Effective(), ram, vram)
    {
      var usedRam := CommittedGb(Ram);
      if usedRam + ram > Effective().ram { return false; }
      var usedVram := CommittedGb(Vram);
      return !(vram > 0.0 && Effective().vram > 0.0 && usedVram + vram > Effective().vram);
    }

    method FindLruIdleModel(except: string) returns (index: int)
      ensures index == -1 ==> forall i :: !Idle(models[..], except, i)
      ensures index != -1 ==> Idle(models[..], except, index)
      ensures index != -1 ==> forall i :: Idle(models[..], except, i) && i != index ==> Before(models[..], index, i)
    {
      index := -1;
      var oldest := 0;
      for i := 0 to models.Length
        invariant index == -1 ==> forall j :: 0 <= j < i ==> !Idle(models[..], except, j)
        invariant index != -1 ==>
          && 0 <= index < i && Idle(models[..], except, index) && oldest == models[index].val.lastUsed
          && forall j :: 0 <= j < i && Idle(models[..], except, j) && j != index ==> Before(models[..], index, j)
      {
        if models[i].Used? && models[i].val.refcount == 0 && models[i].key != except {
          if index < 0 || models[i].val.lastUsed < oldest {
            index, oldest := i, models[i].val.lastUsed;
          }
        }
      }
    }

    /** Empties exactly the shortest run of idle models, oldest first, after which the request fits,
        and every idle model when even that is not enough. */
    method EvictIdleUntilFits(name: string, ram: real, vram: real) returns (fits: bool)
      requires Valid()
      modifies models
      ensures Valid() && Effective() == old(Effective())
      ensures models[..] == AfterEviction(old(models[..]), name, Effective(), ram, vram)
      ensures fits == HasCapacity(models[..], Effective(), ram, vram)
    {
      ghost var was := models[..];
      ghost var order := IdleByAge(was, name, |was|);
      ghost var k := 0;
      fits := HasCapacityFor(ram, vram);
      while !fits
        invariant Valid() && Effective() == old(Effective())
        invariant 0 <= k <= |order| && models[..] == Cleared(was, order[..k])
        invariant fits == HasCapacity(models[..], Effective(), ram, vram)
        invariant FewestEvictions(was, order, Effective(), ram, vram, 0)
          == FewestEvictions(was, order, Effective(), ram, vram, k)
        decreases |order| - k, !fits
      {
        var index := FindLruIdleModel(name);
        NextToEvict(was, name, order, k);
        if index < 0 {
          return;
        }
        assert index == order[k];
        models[index] := Free;
        assert order[..k + 1] == order[..k] + [order[k]];
        k := k + 1;
        fits := HasCapacityFor(ram, vram);
      }
    }

    method AddQueueItem(job: Job)
      requires Valid()
      modifies queue
      ensures queue[..] == Enqueue(old(queue[..]), job)
    {
      var index := 0;
      while index < queue.Length && queue[index].Some?
        invariant 0 <= index <= queue.Length
        invariant FindFreeJob(queue[..], index) == FindFreeJob(queue[..], 0)
      {
        index := index + 1;
      }
      queue[if index == queue.Length then 0 else index] := Some(job);
    }

    /** A request for a model: the verdict and the new models are those of `Admit`; a job is queued
        exactly when it is refused. */
    method AdmitModelJob(specialty: string, name: string, niceness: int, ram: real, vram: real, now: int, jobId: string)
      returns (allowed: bool, pressure: Pressure, reason: string)
      requires Valid()
      modifies models, queue
      ensures Valid() && Effective() == old(Effective())
      ensures var v := Admit(old(models[..]), Effective(), name, niceness, ram, vram, now);
        && models[..] == v.models && allowed == v.allowed && pressure == v.pressure && reason == v.reason.Text()
        && queue[..] == if v.allowed then old(queue[..]) else
             Enqueue(old(queue[..]),
               Job(Field(jobId), "model_load", Field(specialty), Field(name), niceness, now,
                 Field(reason, FIELD_MEDIUM)))
    {
      var index := FindSlot(models, name);
      if index >= 0 {
        models[index] := Used(models[index].key, models[index].val.(lastUsed := now));
        pressure := PressureFor(0.0);
        return true, pressure, "";
      }
      var fits := EvictIdleUntilFits(name, ram, vram);
      pressure := PressureFor(ram);
      var why := WhyRefused(fits, pressure, niceness, vram);
      allowed, reason := why == Granted, why.Text();
      if !allowed {
        AddQueueItem(Job(Field(jobId), "model_load", Field(specialty), Field(name), niceness, now,
          Field(reason, FIELD_MEDIUM)));
      }
    }

    method WhyRefused(fits: bool, pressure: Pressure, niceness: int, vram: real) returns (why: Reason)
      requires Valid()
      ensures why == Judge(models[..], Effective(), fits, pressure, niceness, vram)
    {
      if !fits { return DoesNotFit; }
      if pressure == NoRam && niceness > 0 { return NoRamForBackground; }
      if pressure == Low && niceness >= 10 { return LowRamForBackground; }
      var total := Effective().vram;
      var usedVram := CommittedGb(Vram);
      if vram > 0.0 && total > 0.0 && usedVram + vram + total * RESERVED_VRAM_PERCENT / 100.0 > total && niceness > 0 {
        return LowVramForBackground;
      }
      return Granted;
    }

    method PressureFor(requested: real) returns (p: Pressure)
      requires Valid()
      ensures p == RamState(models[..], Effective(), requested)
    {
      var total := Effective().ram;
      var used := CommittedGb(Ram);
      var percent := ((total - used - requested) / total) * 100.0;
      return if percent < NO_ADMIT_WATERMARK_PERCENT then NoRam
             else if percent < LOW_WATERMARK_PERCENT then Low else Available;
    }

    /** Insert-or-update of the agent's slot; refused for an empty id, or a new id when all slots are taken. */
    method RegisterAgent(id: string, pid: int, binary: string, niceness: int, specialty: string, now: int)
      returns (ok: bool)
      requires Valid()
      modifies agents
      ensures Valid()
      ensures var a := Agent(pid, Field(binary, FIELD_LARGE), niceness, "running", Field(specialty), now);
        (agents[..], ok) == StepAgents(old(agents[..]), Register(id, a))
    {
      if id == "" { return false; }
      var index := FindSlot(agents, id);
      if index < 0 {
        index := FindFreeSlot(agents);
      }
      if index < 0 { return false; }
      agents[index] := Used(Field(id),
        Agent(pid, Field(binary, FIELD_LARGE), niceness, "running", Field(specialty), now));
      return true;
    }

    method DeregisterAgent(id: string)
      requires Valid()
      modifies agents
      ensures Valid() && agents[..] == StepAgents(old(agents[..]), Deregister(id)).0
    {
      var index := FindSlot(agents, id);
      if index >= 0 { agents[index] := Free; }
    }

    /** One more user of a model: refused for an empty name, or a new name when all slots are taken.
        The memory a loaded model was recorded with is kept, and capacity is not checked again. */
    method MarkModelLoaded(name: string, specialty: string, backend: string, ram: real, vram: real, pid: int,
                           port: int, now: int)
      returns (ok: bool)
      requires Valid()
      modifies models
      ensures Valid()
      ensures (models[..], ok) == StepModels(old(models[..]),
        Load(name, Model(Field(specialty), Field(backend), ram, vram, pid, port, 1, now, now)))
    {
      if name == "" { return false; }
      var index := FindSlot(models, name);
      if index >= 0 {
        var m := models[index].val;
        models[index] := Used(models[index].key, m.(refcount := m.refcount
          + 1, pid := pid, port := port, lastUsed := now));
        return true;
      }
      index := FindFreeSlot(models);
      if index < 0 { return false; }
      models[index] := Used(Field(name), Model(Field(specialty), Field(backend), ram, vram, pid, port, 1, now, now));
      return true;
    }

    method MarkModelUnloaded(name: string, now: int)
      requires Valid()
      modifies models
      ensures Valid() && models[..] == MarkUnloaded(old(models[..]), name, now)
    {
      var index := FindSlot(models, name);
      if index >= 0 {
        var m := models[index].val;
        if m.refcount > 0 { m := m.(refcount := m.refcount - 1); }
        models[index] := Used(models[index].key, m.(lastUsed := now));
      }
    }

    /** Explicit eviction asks nobody: the reference count does not matter. */
    method EvictModel(name: string)
      requires Valid()
      modifies models
      ensures Valid() && models[..] == Delete(old(models[..]), name)
    {
      var index := FindSlot(models, name);
      if index >= 0 { models[index] := Free; }
    }
  }

  /** After `k` evictions the idle models left are the rest of the age order. */
  lemma NextToEvict(was: Models, name: string, order: seq<nat>, k: nat)
    requires order == IdleByAge(was, name, |was|) && k <= |order|
    ensures var now := Cleared(was, order[..k]);
      && (k == |order| <==> forall i :: !Idle(now, name, i))
      && (k < |order| ==> Idle(now, name, order[k]))
      && (k < |order| ==> forall i :: Idle(now, name, i) && i != order[k] ==> Before(now, order[k], i))
  {
    var now := Cleared(was, order[..k]);
    assert InAgeOrder(was, name, order, |was|);
    forall a | 0 <= a < k ensures order[a] in order[..k] { assert order[..k][a] == order[a]; }
    forall i | Idle(now, name, i) ensures k < |order| && (i == order[k] || Before(now, order[k], i)) {
      assert Idle(was, name, i) && i !in order[..k];
      var n: nat := i;
      assert n in order;
      var b :| 0 <= b < |order| && order[b] == i;
      assert b >= k;
      if b > k {
        assert Before(was, order[k], order[b]);
        NotYetCleared(order, was, k);
      }
    }
    if k < |order| {
      assert order[k] in order;
      NotYetCleared(order, was, k);
      assert Idle(now, name, order[k]);
    }
  }

  lemma NotYetCleared(order: seq<nat>, was: Models, k: nat)
    requires AgeSorted(was, order) && k < |order|
    ensures order[k] !in order[..k]
  {
    forall a | 0 <= a < k ensures order[..k][a] != order[k] { assert Before(was, order[a], order[k]); }
  }
}
