/** Admission, eviction and load bookkeeping of libbubble's model scheduler, as functions on the
    sequences its slot arrays hold.  Amounts of memory are reals (GB); the clock is whatever
    `time()` returned, with no assumption that it moves forward. */
module Scheduler {
  import opened Wrappers
  import opened SlotTable

  const MAX_AGENTS: nat := 64
  const MAX_MODELS: nat := 32
  const MAX_QUEUE: nat := 64
  const FIELD_MEDIUM: nat := 256
  const FIELD_LARGE: nat := 512
  const LOW_WATERMARK_PERCENT: real := 20.0
  const NO_ADMIT_WATERMARK_PERCENT: real := 8.0
  const RESERVED_VRAM_PERCENT: real := 10.0

  datatype Agent = Agent(pid: int, binary: string, niceness: int, status: string, specialty: string, registeredAt: int)

  datatype Model = Model(specialty: string, backend: string, ram: real, vram: real,
                         pid: int, port: int, refcount: nat, loadedAt: int, lastUsed: int)

  datatype Job = Job(jobId: string, kind: string, specialty: string, modelName: string,
                     niceness: int, createdAt: int, reason: string)

  type Agents = seq<Slot<Agent>>
  type Models = seq<Slot<Model>>
  type Queue = seq<Option<Job>>

  datatype Resource = Ram | Vram

  /** Effective limits: RAM is always positive, a VRAM limit of 0 means unlimited. */
  datatype Limits = Limits(ram: real, vram: real) {
    ghost predicate Valid() { ram > 0.0 && vram >= 0.0 }
  }

  datatype Pressure = Available | Low | NoRam

  datatype Reason = Granted | DoesNotFit | NoRamForBackground | LowRamForBackground | LowVramForBackground {
    function Text(): string {
      match this
      case Granted => ""
      case DoesNotFit => "not enough RAM/VRAM and no idle model can be evicted"
      case NoRamForBackground => "no RAM: background job queued until memory is freed"
      case LowRamForBackground => "RAM low: background job waiting behind higher-priority work"
      case LowVramForBackground => "VRAM low: background job queued"
    }
  }

  // ---------- memory in use ----------

  function Amount(s: Slot<Model>, r: Resource): real {
    if s.Free? then 0.0 else if r.Ram? then s.val.ram else s.val.vram
  }

  /** What the active models among the first `n` slots hold of a resource. */
  function CommittedTo(m: Models, r: Resource, n: nat): real
    requires n <= |m|
  {
    if n == 0 then 0.0 else CommittedTo(m, r, n - 1) + Amount(m[n - 1], r)
  }

  function Committed(m: Models, r: Resource): real {
    CommittedTo(m, r, |m|)
  }

  ghost predicate NonNegative(m: Models) {
    forall i :: 0 <= i < |m| && m[i].Used? ==> m[i].val.ram >= 0.0 && m[i].val.vram >= 0.0
  }

  function RamState(m: Models, lim: Limits, requested: real): Pressure
    requires lim.ram > 0.0
  {
    var remaining := lim.ram - Committed(m, Ram) - requested;
    var percent := (remaining / lim.ram) * 100.0;
    if percent < NO_ADMIT_WATERMARK_PERCENT then NoRam
    else if percent < LOW_WATERMARK_PERCENT then Low
    else Available
  }

  function HasCapacity(m: Models, lim: Limits, ram: real, vram: real): bool {
    if Committed(m, Ram) + ram > lim.ram then false
    else if vram > 0.0 && lim.vram > 0.0 && Committed(m, Vram) + vram > lim.vram then false
    else true
  }

  lemma {:induction false} CommittedWrite(m: Models, i: nat, s: Slot<Model>, r: Resource, n: nat)
    requires i < |m| && n <= |m|
    ensures CommittedTo(m[i := s], r, n) == CommittedTo(m, r, n) + if i < n then Amount(s, r) - Amount(m[i], r) else 0.0
  {
    if n > 0 { CommittedWrite(m, i, s, r, n - 1); }
  }

  lemma {:induction false} CommittedMonotone(m: Models, u: Models, r: Resource, n: nat)
    requires n <= |m| == |u|
    requires forall i :: 0 <= i < n ==> Amount(m[i], r) <= Amount(u[i], r)
    ensures CommittedTo(m, r, n) <= CommittedTo(u, r, n)
  {
    if n > 0 { CommittedMonotone(m, u, r, n - 1); }
  }

  lemma {:induction false} CommittedNone(m: Models, r: Resource, n: nat)
    requires n <= |m|
    requires forall i :: 0 <= i < n ==> m[i].Free?
    ensures CommittedTo(m, r, n) == 0.0
  {
    if n > 0 { CommittedNone(m, r, n - 1); }
  }

  /** Taking models away never takes capacity away, as long as no model holds a negative amount. */
  lemma ClearedKeepsCapacity(m: Models, few: seq<nat>, many: seq<nat>, lim: Limits, ram: real, vram: real)
    requires NonNegative(m) && forall i :: i in few ==> i in many
    requires HasCapacity(Cleared(m, few), lim, ram, vram)
    ensures HasCapacity(Cleared(m, many), lim, ram, vram)
  {
    CommittedMonotone(Cleared(m, many), Cleared(m, few), Ram, |m|);
    CommittedMonotone(Cleared(m, many), Cleared(m, few), Vram, |m|);
  }

  // ---------- eviction of idle models, oldest first ----------

  predicate Idle(m: Models, except: string, i: int) {
    0 <= i < |m| && m[i].Used? && m[i].val.refcount == 0 && m[i].key != except
  }

  /** Slot `i` goes before slot `j`: used longer ago, or equally long ago and in a lower slot. */
  predicate Before(m: Models, i: int, j: int) {
    && 0 <= i < |m| && 0 <= j < |m| && m[i].Used? && m[j].Used?
    && (m[i].val.lastUsed < m[j].val.lastUsed || (m[i].val.lastUsed == m[j].val.lastUsed && i < j))
  }

  ghost predicate AgeSorted(m: Models, order: seq<nat>) {
    forall a, b :: 0 <= a < b < |order| ==> Before(m, order[a], order[b])
  }

  /** `order` lists exactly the idle slots below `n`, oldest first. */
  ghost predicate InAgeOrder(m: Models, except: string, order: seq<nat>, n: nat) {
    && (forall i: nat :: i in order <==> i < n && Idle(m, except, i))
    && AgeSorted(m, order)
  }

  function InsertByAge(m: Models, order: seq<nat>, i: nat): (r: seq<nat>)
    requires i < |m| && m[i].Used?
    requires forall j :: j in order ==> j < i && m[j].Used?
    ensures forall j :: j in r <==> j in order || j == i
    ensures AgeSorted(m, order) ==> AgeSorted(m, r)
  {
    if order == [] then [i]
    else if Before(m, i, order[0]) then
      assert AgeSorted(m, order) ==> forall b :: 0 <= b < |order| ==> Before(m, i, order[b]);
      [i] + order
    else
      assert forall j :: j in order[1..] ==> j in order;
      var rest := InsertByAge(m, order[1..], i);
      assert forall j :: j in order <==> j == order[0] || j in order[1..];
      assert order[0] in order;
      assert AgeSorted(m, order) ==> AgeSorted(m, order[1..]) by {
        if AgeSorted(m, order) {
          forall a, b | 0 <= a < b < |order[1..]| ensures Before(m, order[1..][a], order[1..][b]) {
            assert Before(m, order[a + 1], order[b + 1]);
          }
        }
      }
      assert AgeSorted(m, order) ==> forall j :: j in rest ==> Before(m, order[0], j);
      [order[0]] + rest
  }

  /** The idle slots other than `except`, oldest first. */
  function IdleByAge(m: Models, except: string, n: nat): (order: seq<nat>)
    requires n <= |m|
    ensures InAgeOrder(m, except, order, n)
  {
    if n == 0 then []
    else if Idle(m, except, n - 1) then InsertByAge(m, IdleByAge(m, except, n - 1), n - 1)
    else IdleByAge(m, except, n - 1)
  }

  /** Least `k >= from` such that clearing the first `k` slots of `order` makes room, or all of them. */
  function FewestEvictions(m: Models, order: seq<nat>, lim: Limits, ram: real, vram: real, from: nat): (k: nat)
    requires from <= |order|
    ensures from <= k <= |order|
    ensures k == |order| || HasCapacity(Cleared(m, order[..k]), lim, ram, vram)
    ensures forall j :: from <= j < k ==> !HasCapacity(Cleared(m, order[..j]), lim, ram, vram)
    decreases |order| - from
  {
    if from == |order| || HasCapacity(Cleared(m, order[..from]), lim, ram, vram) then from
    else FewestEvictions(m, order, lim, ram, vram, from + 1)
  }

  /** The slots that making room for a request empties. */
  function Evicted(m: Models, except: string, lim: Limits, ram: real, vram: real): seq<nat> {
    var order := IdleByAge(m, except, |m|);
    order[..FewestEvictions(m, order, lim, ram, vram, 0)]
  }

  function AfterEviction(m: Models, except: string, lim: Limits, ram: real, vram: real): Models {
    Cleared(m, Evicted(m, except, lim, ram, vram))
  }

  /** Room is made if and only if evicting every idle model would make it. */
  lemma EvictionSucceedsIff(m: Models, except: string, lim: Limits, ram: real, vram: real)
    requires NonNegative(m)
    ensures HasCapacity(AfterEviction(m, except, lim, ram, vram), lim, ram, vram) <==>
            HasCapacity(Cleared(m, IdleByAge(m, except, |m|)), lim, ram, vram)
  {
    var order := IdleByAge(m, except, |m|);
    var k := FewestEvictions(m, order, lim, ram, vram, 0);
    assert order[..|order|] == order;
    if HasCapacity(Cleared(m, order[..k]), lim, ram, vram) {
      ClearedKeepsCapacity(m, order[..k], order, lim, ram, vram);
    }
  }

  /** Eviction only ever empties slots of idle models other than the requested one, each of them no
      younger than every idle model it leaves, and none of them could have been left out. */
  lemma EvictionIsMinimalAndOldestFirst(m: Models, except: string, lim: Limits, ram: real, vram: real)
    ensures var gone := Evicted(m, except, lim, ram, vram);
      && (forall i :: i in gone ==> Idle(m, except, i))
      && (forall i, j: nat :: i in gone && Idle(m, except, j) && j !in gone ==> Before(m, i, j))
      && (forall k :: 0 <= k < |gone| ==> !HasCapacity(Cleared(m, gone[..k]), lim, ram, vram))
      && (HasCapacity(Cleared(m, gone), lim, ram, vram) || forall i: nat :: Idle(m, except, i) ==> i in gone)
  {
    var order := IdleByAge(m, except, |m|);
    var k := FewestEvictions(m, order, lim, ram, vram, 0);
    var gone := order[..k];
    assert InAgeOrder(m, except, order, |m|);
    forall i | i in gone ensures Idle(m, except, i) {
      var a :| 0 <= a < k && gone[a] == i;
      assert order[a] in order;
    }
    forall i, j: nat | i in gone && Idle(m, except, j) && j !in gone ensures Before(m, i, j) {
      assert j in order;
      var a :| 0 <= a < k && gone[a] == i;
      var b :| 0 <= b < |order| && order[b] == j;
      forall c | 0 <= c < k ensures order[c] in gone { assert gone[c] == order[c]; }
      assert b >= k;
      assert order[a] == i;
    }
    forall n | 0 <= n < |gone| ensures !HasCapacity(Cleared(m, gone[..n]), lim, ram, vram) {
      assert gone[..n] == order[..n];
    }
    if k == |order| { assert gone == order; }
  }

  /** The model that is asked for is never evicted to make room for itself. */
  lemma RequestedIsSpared(m: Models, name: string, lim: Limits, ram: real, vram: real, i: nat)
    requires Holds(m, i, name)
    ensures AfterEviction(m, name, lim, ram, vram)[i] == m[i]
  {
    EvictionIsMinimalAndOldestFirst(m, name, lim, ram, vram);
    hide Evicted;
    assert !Idle(m, name, i);
  }

  // ---------- admission ----------

  datatype Verdict = Verdict(models: Models, allowed: bool, pressure: Pressure, reason: Reason)

  function Judge(left: Models, lim: Limits, fits: bool, pressure: Pressure, niceness: int, vram: real): Reason {
    if !fits then DoesNotFit
    else if pressure.NoRam? && niceness > 0 then NoRamForBackground
    else if pressure.Low? && niceness >= 10 then LowRamForBackground
    else if vram > 0.0 && lim.vram > 0.0
         && Committed(left, Vram) + vram + lim.vram * RESERVED_VRAM_PERCENT / 100.0 > lim.vram
         && niceness > 0 then LowVramForBackground
    else Granted
  }

  function Admit(m: Models, lim: Limits, name: string, niceness: int, ram: real, vram: real, now: int): Verdict
    requires lim.ram > 0.0
  {
    var i := Find(m, name);
    if i >= 0 then
      var touched := m[i := Used(m[i].key, m[i].val.(lastUsed := now))];
      Verdict(touched, true, RamState(touched, lim, 0.0), Granted)
    else
      var left := AfterEviction(m, name, lim, ram, vram);
      var pressure := RamState(left, lim, ram);
      var reason := Judge(left, lim, HasCapacity(left, lim, ram, vram), pressure, niceness, vram);
      Verdict(left, reason.Granted?, pressure, reason)
  }

  /** Exactly when a model that is not loaded is let in, in terms of what it would leave committed. */
  lemma AdmittedIff(m: Models, lim: Limits, name: string, niceness: int, ram: real, vram: real, now: int)
    requires lim.ram > 0.0 && Find(m, name) < 0
    ensures var v := Admit(m, lim, name, niceness, ram, vram, now);
      var ramAfter, vramAfter := Committed(v.models, Ram) + ram, Committed(v.models, Vram) + vram;
      v.allowed <==>
        && ramAfter <= lim.ram
        && (vram > 0.0 && lim.vram > 0.0 ==> vramAfter <= lim.vram)
        && (niceness > 0 ==> ramAfter <= 0.92 * lim.ram)
        && (niceness >= 10 ==> ramAfter <= 0.80 * lim.ram)
        && (niceness > 0 && vram > 0.0 && lim.vram > 0.0 ==> vramAfter <= 0.90 * lim.vram)
  {
    var v := Admit(m, lim, name, niceness, ram, vram, now);
    PercentBelow(lim.ram, Committed(v.models, Ram) + ram, NO_ADMIT_WATERMARK_PERCENT);
    PercentBelow(lim.ram, Committed(v.models, Ram) + ram, LOW_WATERMARK_PERCENT);
    var remaining := lim.ram - Committed(v.models, Ram) - ram;
    assert remaining == lim.ram - (Committed(v.models, Ram) + ram);
  }

  /** A model that is loaded is let in without asking for room again: its last use is noted, and the state reported is
      that of what is committed already. */
  lemma LoadedIsLetIn(m: Models, lim: Limits, name: string, niceness: int, ram: real, vram: real, now: int)
    requires lim.ram > 0.0 && Find(m, name) >= 0
    ensures var v, i := Admit(m, lim, name, niceness, ram, vram, now), Find(m, name);
      && v.allowed && v.reason.Text() == ""
      && |v.models| == |m| && (forall j :: 0 <= j < |m| && j != i ==> v.models[j] == m[j])
      && v.models[i].Used? && v.models[i].key == name && v.models[i].val == m[i].val.(lastUsed := now)
      && (v.pressure == NoRam <==> Committed(m, Ram) > 0.92 * lim.ram)
      && (v.pressure == Low <==> 0.80 * lim.ram < Committed(m, Ram) <= 0.92 * lim.ram)
  {
    var i := Find(m, name);
    CommittedWrite(m, i, Used(m[i].key, m[i].val.(lastUsed := now)), Ram, |m|);
    PercentBelow(lim.ram, Committed(m, Ram), NO_ADMIT_WATERMARK_PERCENT);
    PercentBelow(lim.ram, Committed(m, Ram), LOW_WATERMARK_PERCENT);
    assert lim.ram - Committed(m, Ram) - 0.0 == lim.ram - Committed(m, Ram);
  }

  /** What a refused request is told, and the state reported with it, in terms of what would be committed. */
  lemma RefusedBecause(m: Models, lim: Limits, name: string, niceness: int, ram: real, vram: real, now: int)
    requires lim.ram > 0.0 && Find(m, name) < 0
    ensures var v := Admit(m, lim, name, niceness, ram, vram, now);
      var ramAfter, vramAfter := Committed(v.models, Ram) + ram, Committed(v.models, Vram) + vram;
      var fits := ramAfter <= lim.ram && (vram > 0.0 && lim.vram > 0.0 ==> vramAfter <= lim.vram);
      var noRam := fits && niceness > 0 && ramAfter > 0.92 * lim.ram;
      var lowRam := fits && !noRam && niceness >= 10 && ramAfter > 0.80 * lim.ram;
      var text := v.reason.Text();
      && (text == "" <==> v.allowed)
      && (text == "not enough RAM/VRAM and no idle model can be evicted" <==> !fits)
      && (text == "no RAM: background job queued until memory is freed" <==> noRam)
      && (text == "RAM low: background job waiting behind higher-priority work" <==> lowRam)
      && (text == "VRAM low: background job queued" <==> !v.allowed && fits && !noRam && !lowRam)
      && (v.pressure == NoRam <==> ramAfter > 0.92 * lim.ram)
      && (v.pressure == Low <==> 0.80 * lim.ram < ramAfter <= 0.92 * lim.ram)
  {
    hide AfterEviction, Committed;
    ReasonTexts();
    var v := Admit(m, lim, name, niceness, ram, vram, now);
    PercentBelow(lim.ram, Committed(v.models, Ram) + ram, NO_ADMIT_WATERMARK_PERCENT);
    PercentBelow(lim.ram, Committed(v.models, Ram) + ram, LOW_WATERMARK_PERCENT);
    assert lim.ram - Committed(v.models, Ram) - ram == lim.ram - (Committed(v.models, Ram) + ram);
  }

  /** No two of the texts have the same length. */
  lemma ReasonTexts()
    ensures |"not enough RAM/VRAM and no idle model can be evicted"| == 52
    ensures |"no RAM: background job queued until memory is freed"| == 51
    ensures |"RAM low: background job waiting behind higher-priority work"| == 59
    ensures |"VRAM low: background job queued"| == 31
  {
  }

  lemma PercentBelow(total: real, used: real, percent: real)
    requires total > 0.0
    ensures ((total - used) / total) * 100.0 < percent <==> used > total - percent * total / 100.0
  {
    var q := (total - used) / total;
    assert q * total == total - used;
    if q * 100.0 < percent {
      assert q < percent / 100.0;
      assert q * total < (percent / 100.0) * total;
    } else {
      assert q >= percent / 100.0;
      assert q * total >= (percent / 100.0) * total;
    }
    assert (percent / 100.0) * total == percent * total / 100.0;
  }

  /** From the same state, whoever is refused is refused at every higher niceness as well. */
  lemma DenialIsMonotoneInNiceness(m: Models, lim: Limits, name: string, low: int, high: int, ram: real, vram: real,
                                   now: int)
    requires lim.ram > 0.0 && low <= high
    requires !Admit(m, lim, name, low, ram, vram, now).allowed
    ensures !Admit(m, lim, name, high, ram, vram, now).allowed
    ensures Admit(m, lim, name, high, ram, vram, now).models == Admit(m, lim, name, low, ram, vram, now).models
  {
    AdmittedIff(m, lim, name, low, ram, vram, now);
    AdmittedIff(m, lim, name, high, ram, vram, now);
  }

  /** A background job leaves the VRAM reserve free exactly when it asks for VRAM or nobody had dipped into
      the reserve before: a job that asks for none is not held to it. */
  lemma VramReserveIff(m: Models, lim: Limits, name: string, niceness: int, ram: real, vram: real, now: int)
    requires lim.Valid() && lim.vram > 0.0 && Find(m, name) < 0 && niceness > 0 && vram >= 0.0
    requires Admit(m, lim, name, niceness, ram, vram, now).allowed
    ensures var left := Admit(m, lim, name, niceness, ram, vram, now).models;
      (Committed(left, Vram) + vram <= 0.90 * lim.vram)
      <==> (vram > 0.0 || Committed(left, Vram) <= 0.90 * lim.vram)
  {
    AdmittedIff(m, lim, name, niceness, ram, vram, now);
  }

  /** ... and that exception is real. */
  lemma VramReserveCanBeMissed()
    ensures var lim := Limits(100.0, 10.0);
      var m := [Used("big", Model("s", "llama", 1.0, 10.0, 1, 1, 1, 0, 0))];
      var v := Admit(m, lim, "cpu", 5, 1.0, 0.0, 0);
      v.allowed && Committed(v.models, Vram) + 0.0 > 0.90 * lim.vram
  {
    var lim := Limits(100.0, 10.0);
    var m := [Used("big", Model("s", "llama", 1.0, 10.0, 1, 1, 1, 0, 0))];
    assert Find(m, "cpu") == -1;
    assert Evicted(m, "cpu", lim, 1.0, 0.0) == [];
    assert AfterEviction(m, "cpu", lim, 1.0, 0.0) == m;
    assert CommittedTo(m, Ram, 1) == 1.0 && CommittedTo(m, Vram, 1) == 10.0;
    AdmittedIff(m, lim, "cpu", 5, 1.0, 0.0, 0);
  }

  /** Asking for more can be granted where asking for less is refused: the larger request evicts. */
  lemma AdmissionIsNotMonotoneInRam()
    ensures var lim := Limits(100.0, 0.0);
      var m := [Used("idle", Model("s", "llama", 90.0, 0.0, 1, 1, 0, 0, 0))];
      !Admit(m, lim, "new", 5, 5.0, 0.0, 0).allowed && Admit(m, lim, "new", 5, 20.0, 0.0, 0).allowed
  {
    var lim := Limits(100.0, 0.0);
    var m := [Used("idle", Model("s", "llama", 90.0, 0.0, 1, 1, 0, 0, 0))];
    assert Find(m, "new") == -1;
    assert Cleared(m, []) == m && CommittedTo(m, Ram, 1) == 90.0;
    assert IdleByAge(m, "new", 1) == [0] by { assert IdleByAge(m, "new", 0) == []; }
    assert [0 as nat][..0] == [] && [0 as nat][..1] == [0];
    var small := Admit(m, lim, "new", 5, 5.0, 0.0, 0);
    var large := Admit(m, lim, "new", 5, 20.0, 0.0, 0);
    assert small.models == m;
    assert large.models == [Free];
    assert CommittedTo(large.models, Ram, 1) == 0.0;
    AdmittedIff(m, lim, "new", 5, 5.0, 0.0, 0);
    AdmittedIff(m, lim, "new", 5, 20.0, 0.0, 0);
  }

  // ---------- loading and unloading ----------

  /** Another user of a loaded model, or a first user that takes the first free slot. */
  function MarkLoaded(m: Models, name: string, rec: Model): Option<Models> {
    var i := Find(m, name);
    if i >= 0 then
      var was := m[i].val;
      Some(m[i := Used(m[i].key, was.(refcount := was.refcount
        + 1, pid := rec.pid, port := rec.port, lastUsed := rec.lastUsed))])
    else
      var f := FindFree(m);
      if f < 0 then None else Some(m[f := Used(Field(name), rec)])
  }

  function MarkUnloaded(m: Models, name: string, now: int): (r: Models)
    ensures |r| == |m|
  {
    var i := Find(m, name);
    if i < 0 then m
    else
      var was := m[i].val;
      m[i := Used(m[i].key, was.(refcount := if was.refcount > 0 then was.refcount - 1 else 0, lastUsed := now))]
  }

  // The same operations on the map that the slots stand for.

  ghost function MapMarkLoaded(m: map<string, Model>, slots: nat, name: string,
                               rec: Model): Option<map<string, Model>> {
    if name in m then
      Some(m[name := m[name].(refcount := m[name].refcount
        + 1, pid := rec.pid, port := rec.port, lastUsed := rec.lastUsed)])
    else if |m| < slots then Some(m[name := rec])
    else None
  }

  ghost function MapMarkUnloaded(m: map<string, Model>, name: string, now: int): map<string, Model> {
    if name in m then
      m[name := m[name].(refcount := if m[name].refcount > 0 then m[name].refcount - 1 else 0, lastUsed := now)]
    else m
  }

  lemma MarkLoadedRefines(m: Models, name: string, rec: Model)
    requires KeysUnique(m) && |name| < FIELD_SMALL
    ensures var r, abs := MarkLoaded(m, name, rec), MapMarkLoaded(AsMap(m), |m|, name, rec);
      && (r.Some? <==> abs.Some?)
      && (r.Some? ==> |r.value| == |m| && KeysUnique(r.value) && AsMap(r.value) == abs.value)
  {
    MapSize(m);
    var i := Find(m, name);
    if i >= 0 {
      WriteRefines(m, i, name, MarkLoaded(m, name, rec).value[i].val);
    } else if FindFree(m) >= 0 {
      WriteRefines(m, FindFree(m), name, rec);
    }
  }

  lemma MarkUnloadedRefines(m: Models, name: string, now: int)
    requires KeysUnique(m)
    ensures var r := MarkUnloaded(m, name, now);
      KeysUnique(r) && AsMap(r) == MapMarkUnloaded(AsMap(m), name, now)
  {
    var i := Find(m, name);
    if i >= 0 {
      WriteRefines(m, i, name, MarkUnloaded(m, name, now)[i].val);
    }
  }

  /** Admission touches a loaded model's time stamp; otherwise it is the removal of the evicted models. */
  lemma AdmitRefines(m: Models, lim: Limits, name: string, niceness: int, ram: real, vram: real, now: int)
    requires KeysUnique(m) && lim.ram > 0.0
    ensures var v := Admit(m, lim, name, niceness, ram, vram, now);
      && |v.models| == |m| && KeysUnique(v.models)
      && AsMap(v.models) ==
        if name in AsMap(m) then AsMap(m)[name := AsMap(m)[name].(lastUsed := now)]
        else map key | key in AsMap(m) && Find(m, key) !in Evicted(m, name, lim, ram, vram) :: AsMap(m)[key]
  {
    var i := Find(m, name);
    if i >= 0 {
      WriteRefines(m, i, name, m[i].val.(lastUsed := now));
    } else {
      ClearedRefines(m, Evicted(m, name, lim, ram, vram));
    }
  }

  // ---------- sums over sets of names ----------

  type Sizes = (string, Resource) -> real

  ghost function SetSum(names: set<string>, size: Sizes, r: Resource): real {
    if names == {} then 0.0
    else
      var x :| x in names;
      size(x, r) + SetSum(names - {x}, size, r)
  }

  lemma {:induction false} SetSumWithout(names: set<string>, x: string, size: Sizes, r: Resource)
    requires x in names
    ensures SetSum(names, size, r) == size(x, r) + SetSum(names - {x}, size, r)
    decreases names
  {
    var y :| y in names && SetSum(names, size, r) == size(y, r) + SetSum(names - {y}, size, r);
    if y != x {
      SetSumWithout(names - {y}, x, size, r);
      SetSumWithout(names - {x}, y, size, r);
      assert names - {y} - {x} == names - {x} - {y};
    }
  }

  lemma SetSumWith(names: set<string>, x: string, size: Sizes, r: Resource)
    ensures SetSum(names + {x}, size, r) == SetSum(names, size, r) + if x in names then 0.0 else size(x, r)
  {
    if x in names {
      assert names + {x} == names;
    } else {
      SetSumWithout(names + {x}, x, size, r);
      assert names + {x} - {x} == names;
    }
  }

  ghost predicate Recorded(m: map<string, Model>, size: Sizes) {
    forall key :: key in m ==> m[key].ram == size(key, Ram) && m[key].vram == size(key, Vram)
  }

  lemma {:induction false} CommittedIsSum(m: Models, size: Sizes, r: Resource, n: nat)
    requires KeysUnique(m) && n <= |m|
    requires Recorded(AsMap(m), size)
    ensures CommittedTo(m, r, n) == SetSum(KeySet(m, n), size, r)
  {
    if n > 0 {
      CommittedIsSum(m, size, r, n - 1);
      if m[n - 1].Used? {
        assert Holds(m, n - 1, m[n - 1].key);
        SetSumWith(KeySet(m, n - 1), m[n - 1].key, size, r);
      }
    }
  }

  /** What the models of a map hold. */
  ghost function MapCommitted(m: map<string, Model>, r: Resource): real { SetSum(m.Keys, Amounts(m), r) }

  ghost function Amounts(m: map<string, Model>): Sizes {
    (name: string, r: Resource) => if name !in m then 0.0 else if r.Ram? then m[name].ram else m[name].vram
  }

  lemma CommittedOnMap(m: Models, r: Resource)
    requires KeysUnique(m)
    ensures Committed(m, r) == MapCommitted(AsMap(m), r)
  {
    CommittedIsSum(m, Amounts(AsMap(m)), r, |m|);
    assert AsMap(m).Keys == KeySet(m, |m|);
  }

  ghost predicate MapHasCapacity(m: map<string, Model>, lim: Limits, ram: real, vram: real) {
    && MapCommitted(m, Ram) + ram <= lim.ram
    && (vram > 0.0 && lim.vram > 0.0 ==> MapCommitted(m, Vram) + vram <= lim.vram)
  }

  lemma CapacityOnMap(m: Models, lim: Limits, ram: real, vram: real)
    requires KeysUnique(m)
    ensures HasCapacity(m, lim, ram, vram) <==> MapHasCapacity(AsMap(m), lim, ram, vram)
  {
    CommittedOnMap(m, Ram);
    CommittedOnMap(m, Vram);
  }

  // ---------- runs of the tables ----------

  datatype AgentOp = Register(id: string, agent: Agent) | Deregister(id: string)

  function StepAgents(t: Agents, op: AgentOp): (Agents, bool) {
    match op
    case Register(id, agent) =>
      if id == "" then (t, false)
      else (match Put(t, id, agent) case Some(u) => (u, true) case None => (t, false))
    case Deregister(id) => (Delete(t, id), true)
  }

  ghost function StepAgentMap(m: map<string, Agent>, op: AgentOp): (map<string, Agent>, bool) {
    match op
    case Register(id, agent) =>
      if id != "" && (id in m || |m| < MAX_AGENTS) then (m[id := agent], true) else (m, false)
    case Deregister(id) => (m - {id}, true)
  }

  function RunAgents(t: Agents, ops: seq<AgentOp>): (Agents, seq<bool>)
    decreases |ops|
  {
    if ops == [] then (t, [])
    else
      var (u, ok) := StepAgents(t, ops[0]);
      var (w, oks) := RunAgents(u, ops[1..]);
      (w, [ok] + oks)
  }

  ghost function RunAgentMap(m: map<string, Agent>, ops: seq<AgentOp>): (map<string, Agent>, seq<bool>)
    decreases |ops|
  {
    if ops == [] then (m, [])
    else
      var (u, ok) := StepAgentMap(m, ops[0]);
      var (w, oks) := RunAgentMap(u, ops[1..]);
      (w, [ok] + oks)
  }

  /** Over every run of registrations and deregistrations the 64 slots behave as a map with at most
      64 keys: same contents, same successes and failures. */
  lemma {:induction false} AgentRunRefines(t: Agents, ops: seq<AgentOp>)
    requires |t| == MAX_AGENTS && KeysUnique(t)
    requires forall op :: op in ops && op.Register? ==> |op.id| < FIELD_SMALL
    ensures |RunAgents(t, ops).0| == MAX_AGENTS && KeysUnique(RunAgents(t, ops).0)
    ensures (AsMap(RunAgents(t, ops).0), RunAgents(t, ops).1) == RunAgentMap(AsMap(t), ops)
    decreases |ops|
  {
    if ops != [] {
      match ops[0] {
        case Register(id, agent) => PutRefines(t, id, agent);
        case Deregister(id) => DeleteRefines(t, id);
      }
      AgentRunRefines(StepAgents(t, ops[0]).0, ops[1..]);
    }
  }

  datatype ModelOp =
    | Load(name: string, rec: Model)
    | Unload(name: string, now: int)
    | Evict(name: string)
    | Request(name: string, lim: Limits, niceness: int, ram: real, vram: real, now: int)

  function StepModels(m: Models, op: ModelOp): (r: (Models, bool))
    requires op.Request? ==> op.lim.ram > 0.0
    ensures |r.0| == |m|
  {
    match op
    case Load(name, rec) =>
      if name == "" then (m, false)
      else (match MarkLoaded(m, name, rec) case Some(u) => (u, true) case None => (m, false))
    case Unload(name, now) => (MarkUnloaded(m, name, now), true)
    case Evict(name) => (Delete(m, name), true)
    case Request(name, lim, niceness, ram, vram, now) =>
      var v := Admit(m, lim, name, niceness, ram, vram, now);
      (v.models, v.allowed)
  }

  ghost predicate OnlyIdleDropped(m: map<string, Model>, u: map<string, Model>) {
    forall key :: key in m && key !in u ==> m[key].refcount == 0
  }

  ghost predicate OldestDropped(m: map<string, Model>, u: map<string, Model>) {
    forall key, kept :: key in m && key !in u && kept in m && kept in u && m[kept].refcount == 0 ==>
      m[key].lastUsed <= m[kept].lastUsed
  }

  /** The models left, and one of those dropped. */
  ghost function LeftAnd(m: map<string, Model>, u: map<string, Model>, last: string): map<string, Model> {
    map key | key in m && (key in u || key == last) :: m[key]
  }

  /** `last` is the one used last among those dropped, and without dropping it there would be no room. */
  ghost predicate Needed(m: map<string, Model>, u: map<string, Model>, last: string, lim: Limits, ram: real,
                         vram: real) {
    && last in m && last !in u
    && (forall key :: key in m && key !in u ==> m[key].lastUsed <= m[last].lastUsed)
    && !MapHasCapacity(LeftAnd(m, u, last), lim, ram, vram)
  }

  /** The verdict on a request that leaves the models `u`. */
  ghost predicate MapAdmits(u: map<string, Model>, lim: Limits, niceness: int, ram: real, vram: real) {
    var ramAfter, vramAfter := MapCommitted(u, Ram) + ram, MapCommitted(u, Vram) + vram;
    && MapHasCapacity(u, lim, ram, vram)
    && (niceness > 0 ==> ramAfter <= 0.92 * lim.ram)
    && (niceness >= 10 ==> ramAfter <= 0.80 * lim.ram)
    && (niceness > 0 && vram > 0.0 && lim.vram > 0.0 ==> vramAfter <= 0.90 * lim.vram)
  }

  /** What a request for a model that is not loaded does to the map: it drops idle models only, the oldest first, as few
      as it takes, or all of them if even that is not enough; and it is allowed iff what is left leaves room. */
  ghost predicate AdmissionStep(m: map<string, Model>, lim: Limits, niceness: int, ram: real, vram: real,
                                u: map<string, Model>, ok: bool)
  {
    && u.Keys <= m.Keys && (forall key :: key in u ==> u[key] == m[key])
    && OnlyIdleDropped(m, u) && OldestDropped(m, u)
    && (u == m || exists last :: Needed(m, u, last, lim, ram, vram))
    && (MapHasCapacity(u, lim, ram, vram) || forall key :: key in u ==> u[key].refcount != 0)
    && (ok <==> MapAdmits(u, lim, niceness, ram, vram))
  }

  /** The map step each slot step stands for. */
  ghost predicate ModelMapStep(m: map<string, Model>, op: ModelOp, u: map<string, Model>, ok: bool) {
    match op
    case Load(name, rec) =>
      var r := if name == "" then None else MapMarkLoaded(m, MAX_MODELS, name, rec);
      ok == r.Some? && u == if r.Some? then r.value else m
    case Unload(name, now) => ok && u == MapMarkUnloaded(m, name, now)
    case Evict(name) => ok && u == m - {name}
    case Request(name, lim, niceness, ram, vram, now) =>
      if name in m then ok && u == m[name := m[name].(lastUsed := now)]
      else AdmissionStep(m, lim, niceness, ram, vram, u, ok)
  }

  lemma ModelStepRefines(m: Models, op: ModelOp)
    requires WellFormed(m)
    requires op.Load? ==> |op.name| < FIELD_SMALL
    requires op.Request? ==> op.lim.ram > 0.0
    ensures var (u, ok) := StepModels(m, op);
      WellFormed(u) && ModelMapStep(AsMap(m), op, AsMap(u), ok)
  {
    match op {
      case Load(name, rec) => MarkLoadedRefines(m, name, rec);
      case Unload(name, now) => MarkUnloadedRefines(m, name, now);
      case Evict(name) => DeleteRefines(m, name);
      case Request(name, lim, niceness, ram, vram, now) =>
        AdmitRefines(m, lim, name, niceness, ram, vram, now);
        if name !in AsMap(m) { RequestRefines(m, lim, name, niceness, ram, vram, now); }
    }
  }

  /** A key is dropped exactly when its slot is emptied. */
  lemma DroppedKeys(m: Models, gone: seq<nat>, key: string)
    requires KeysUnique(m)
    ensures key in AsMap(Cleared(m, gone)) <==> key in AsMap(m) && Find(m, key) !in gone
    ensures key in AsMap(Cleared(m, gone)) ==> AsMap(Cleared(m, gone))[key] == AsMap(m)[key]
  {
    ClearedRefines(m, gone);
  }

  lemma RequestRefines(m: Models, lim: Limits, name: string, niceness: int, ram: real, vram: real, now: int)
    requires KeysUnique(m) && lim.ram > 0.0 && Find(m, name) < 0
    ensures var v := Admit(m, lim, name, niceness, ram, vram, now);
      AdmissionStep(AsMap(m), lim, niceness, ram, vram, AsMap(v.models), v.allowed)
  {
    hide Evicted, HasCapacity, MapHasCapacity, Judge, RamState, KeysUnique, MapCommitted, AsMap;
    hide OnlyIdleDropped, OldestDropped, Needed, MapAdmits;
    var v, gone := Admit(m, lim, name, niceness, ram, vram, now), Evicted(m, name, lim, ram, vram);
    var u := AsMap(v.models);
    ClearedRefines(m, gone);
    assert v.models == Cleared(m, gone);
    DropsOldestIdle(m, lim, name, ram, vram);
    if gone != [] { LastIsNeeded(m, lim, name, ram, vram); } else { assert Cleared(m, []) == m; }
    CapacityOnMap(v.models, lim, ram, vram);
    VerdictOnMap(m, lim, name, niceness, ram, vram, now);
    if !HasCapacity(v.models, lim, ram, vram) { AllIdleDropped(m, lim, name, ram, vram); }
  }

  lemma VerdictOnMap(m: Models, lim: Limits, name: string, niceness: int, ram: real, vram: real, now: int)
    requires KeysUnique(m) && lim.ram > 0.0 && Find(m, name) < 0
    ensures var v := Admit(m, lim, name, niceness, ram, vram, now);
      v.allowed <==> MapAdmits(AsMap(v.models), lim, niceness, ram, vram)
  {
    hide MapCommitted, Admit, AsMap, KeysUnique;
    AdmittedIff(m, lim, name, niceness, ram, vram, now);
    AdmitRefines(m, lim, name, niceness, ram, vram, now);
    var left := Admit(m, lim, name, niceness, ram, vram, now).models;
    CommittedOnMap(left, Ram);
    CommittedOnMap(left, Vram);
  }

  lemma DropsOldestIdle(m: Models, lim: Limits, name: string, ram: real, vram: real)
    requires KeysUnique(m) && Find(m, name) < 0
    ensures var u := AsMap(Cleared(m, Evicted(m, name, lim, ram, vram)));
      && u.Keys <= AsMap(m).Keys && (forall key :: key in u ==> u[key] == AsMap(m)[key])
      && OnlyIdleDropped(AsMap(m), u) && OldestDropped(AsMap(m), u)
  {
    hide Evicted;
    var gone := Evicted(m, name, lim, ram, vram);
    var u := AsMap(Cleared(m, gone));
    EvictionIsMinimalAndOldestFirst(m, name, lim, ram, vram);
    ClearedRefines(m, gone);
    forall key | key in AsMap(m) && key !in u ensures Find(m, key) in gone && AsMap(m)[key] == m[Find(m, key)].val { }
    forall key, kept | key in AsMap(m) && key !in u && kept in AsMap(m) && kept in u && AsMap(m)[kept].refcount == 0
      ensures AsMap(m)[key].lastUsed <= AsMap(m)[kept].lastUsed
    {
      var i, j := Find(m, key), Find(m, kept);
      assert i in gone && j !in gone && m[j].key == kept && Idle(m, name, j);
      assert Before(m, i, j);
    }
  }

  lemma AllIdleDropped(m: Models, lim: Limits, name: string, ram: real, vram: real)
    requires KeysUnique(m) && Find(m, name) < 0
      && !HasCapacity(Cleared(m, Evicted(m, name, lim, ram, vram)), lim, ram, vram)
    ensures var u := AsMap(Cleared(m, Evicted(m, name, lim, ram, vram)));
      forall key :: key in u ==> u[key].refcount != 0
  {
    hide Evicted, HasCapacity;
    var gone := Evicted(m, name, lim, ram, vram);
    var u := AsMap(Cleared(m, gone));
    EvictionIsMinimalAndOldestFirst(m, name, lim, ram, vram);
    ClearedRefines(m, gone);
    forall key | key in u ensures u[key].refcount != 0 {
      var i := Find(m, key);
      assert Holds(m, i, key) && !Holds(m, i, name);
      assert m[i].val.refcount == 0 ==> Idle(m, name, i);
    }
  }

  /** Of the models dropped the last is the one used last, and it had to go. */
  lemma LastIsNeeded(m: Models, lim: Limits, name: string, ram: real, vram: real)
    requires KeysUnique(m) && Evicted(m, name, lim, ram, vram) != []
    ensures var gone := Evicted(m, name, lim, ram, vram);
      exists last :: Needed(AsMap(m), AsMap(Cleared(m, gone)), last, lim, ram, vram)
  {
    hide Evicted, IdleByAge, FewestEvictions, HasCapacity, MapHasCapacity, AgeSorted, AsMap, KeysUnique, Cleared;
    hide LeftAnd, Before;
    var gone := Evicted(m, name, lim, ram, vram);
    var k := |gone| - 1;
    EvictedInOrder(m, name, lim, ram, vram);
    var last := m[gone[k]].key;
    EvictionIsMinimalAndOldestFirst(m, name, lim, ram, vram);
    LeftAndLast(m, gone);
    ClearedRefines(m, gone[..k]);
    CapacityOnMap(Cleared(m, gone[..k]), lim, ram, vram);
    assert Needed(AsMap(m), AsMap(Cleared(m, gone)), last, lim, ram, vram);
  }

  lemma EvictedInOrder(m: Models, name: string, lim: Limits, ram: real, vram: real)
    ensures var gone := Evicted(m, name, lim, ram, vram);
      AgeSorted(m, gone) && forall i :: 0 <= i < |gone| ==> gone[i] < |m| && m[gone[i]].Used?
  {
    hide FewestEvictions, Before;
    var order, gone := IdleByAge(m, name, |m|), Evicted(m, name, lim, ram, vram);
    forall i, j | 0 <= i < j < |gone| ensures Before(m, gone[i], gone[j]) {
      assert gone[i] == order[i] && gone[j] == order[j];
    }
    forall i | 0 <= i < |gone| ensures gone[i] < |m| && m[gone[i]].Used? {
      assert gone[i] == order[i] && order[i] in order;
    }
  }

  lemma LeftAndLast(m: Models, gone: seq<nat>)
    requires KeysUnique(m) && gone != [] && AgeSorted(m, gone)
    requires forall i :: 0 <= i < |gone| ==> gone[i] < |m| && m[gone[i]].Used?
    ensures var k := |gone| - 1; var last, u := m[gone[k]].key, AsMap(Cleared(m, gone));
      && last in AsMap(m) && last !in u
      && (forall key :: key in AsMap(m) && key !in u ==> AsMap(m)[key].lastUsed <= AsMap(m)[last].lastUsed)
      && AsMap(Cleared(m, gone[..k])) == LeftAnd(AsMap(m), u, last)
  {
    hide Cleared, AgeSorted, AsMap, Find, KeysUnique;
    var k := |gone| - 1;
    var last := m[gone[k]].key;
    LastIsLoaded(m, gone);
    forall key | key in AsMap(m)
      ensures key !in AsMap(Cleared(m, gone)) ==> AsMap(m)[key].lastUsed <= AsMap(m)[last].lastUsed
    {
      KeyDropped(m, gone, key);
    }
    SameMap(m, gone);
  }

  lemma LastIsLoaded(m: Models, gone: seq<nat>)
    requires KeysUnique(m) && gone != [] && gone[|gone| - 1] < |m| && m[gone[|gone| - 1]].Used?
    ensures var i := gone[|gone| - 1]; var last := m[i].key;
      Find(m, last) == i && last in AsMap(m) && AsMap(m)[last] == m[i].val && last !in AsMap(Cleared(m, gone))
  {
    var i := gone[|gone| - 1];
    assert Holds(m, i, m[i].key) && Find(m, m[i].key) == i;
    hide Cleared;
    DroppedKeys(m, gone, m[i].key);
  }

  lemma KeyDropped(m: Models, gone: seq<nat>, key: string)
    requires KeysUnique(m) && gone != [] && AgeSorted(m, gone) && key in AsMap(m)
    requires forall i :: 0 <= i < |gone| ==> gone[i] < |m| && m[gone[i]].Used?
    ensures var k := |gone| - 1;
      && (key !in AsMap(Cleared(m, gone)) ==> AsMap(m)[key].lastUsed <= m[gone[k]].val.lastUsed)
      && (key in AsMap(Cleared(m, gone[..k])) <==> key in AsMap(Cleared(m, gone)) || key == m[gone[k]].key)
  {
    hide Cleared, AgeSorted, AsMap, Find, KeysUnique;
    DroppedKeys(m, gone, key);
    DroppedKeys(m, gone[..|gone| - 1], key);
    SlotOfKey(m, gone, key);
  }

  lemma SameMap(m: Models, gone: seq<nat>)
    requires KeysUnique(m) && gone != [] && AgeSorted(m, gone)
    requires forall i :: 0 <= i < |gone| ==> gone[i] < |m| && m[gone[i]].Used?
    ensures var k := |gone| - 1;
      AsMap(Cleared(m, gone[..k])) == LeftAnd(AsMap(m), AsMap(Cleared(m, gone)), m[gone[k]].key)
  {
    hide Cleared, AgeSorted, AsMap, Find, KeysUnique;
    var k := |gone| - 1;
    var u, v := AsMap(Cleared(m, gone)), AsMap(Cleared(m, gone[..k]));
    forall key | key in v ensures key in AsMap(m) && v[key] == AsMap(m)[key] { DroppedKeys(m, gone[..k], key); }
    forall key | key in AsMap(m) ensures key in v <==> key in u || key == m[gone[k]].key { KeyDropped(m, gone, key); }
    var w := LeftAnd(AsMap(m), u, m[gone[k]].key);
    assert forall key :: key in v <==> key in w;
    assert v.Keys == w.Keys;
  }

  /** A key whose slot goes is the last one, or its slot goes before the last and was used no later. */
  lemma SlotOfKey(m: Models, gone: seq<nat>, key: string)
    requires KeysUnique(m) && gone != [] && AgeSorted(m, gone) && key in AsMap(m)
    requires forall i :: 0 <= i < |gone| ==> gone[i] < |m| && m[gone[i]].Used?
    ensures var k, i := |gone| - 1, Find(m, key);
      && AsMap(m)[key] == m[i].val
      && (i in gone <==> i in gone[..k] || key == m[gone[k]].key)
      && (i in gone[..k] ==> key != m[gone[k]].key)
      && (i in gone ==> m[i].val.lastUsed <= m[gone[k]].val.lastUsed)
  {
    var k, i := |gone| - 1, Find(m, key);
    assert Holds(m, i, key);
    assert Holds(m, gone[k], m[gone[k]].key);
    assert gone == gone[..k] + [gone[k]];
    if i in gone[..k] {
      var j :| 0 <= j < k && gone[..k][j] == i;
      assert Before(m, gone[j], gone[k]);
    }
  }

  ghost predicate WellFormed(m: Models) { |m| == MAX_MODELS && KeysUnique(m) }

  /** The slots after the first `k` operations. */
  function RunModels(m: Models, ops: seq<ModelOp>, k: nat): Models
    requires k <= |ops|
    requires forall op :: op in ops && op.Request? ==> op.lim.ram > 0.0
  {
    if k == 0 then m else StepModels(RunModels(m, ops, k - 1), ops[k - 1]).0
  }

  /** Over every run of requests, loads, unloads and evictions the 32 model slots keep their keys unique
      and each step is the corresponding step on the map of loaded models. */
  lemma {:induction false} ModelRunRefines(m: Models, ops: seq<ModelOp>, k: nat)
    requires WellFormed(m) && k <= |ops|
    requires forall op :: op in ops && op.Load? ==> |op.name| < FIELD_SMALL
    requires forall op :: op in ops && op.Request? ==> op.lim.ram > 0.0
    ensures WellFormed(RunModels(m, ops, k))
    ensures k < |ops| ==>
      var (next, ok) := StepModels(RunModels(m, ops, k), ops[k]);
      && next == RunModels(m, ops, k + 1)
      && ModelMapStep(AsMap(RunModels(m, ops, k)), ops[k], AsMap(next), ok)
  {
    if k > 0 { ModelRunRefines(m, ops, k - 1); ModelStepRefines(RunModels(m, ops, k - 1), ops[k - 1]); }
    if k < |ops| { ModelStepRefines(RunModels(m, ops, k), ops[k]); }
  }

  // ---------- the waiting queue ----------

  /** A denied job takes the first free place, or overwrites place 0 once all are taken. */
  function Enqueue(q: Queue, job: Job): (r: Queue)
    requires |q| > 0
    ensures |r| == |q|
  {
    var i := FindFreeJob(q, 0);
    q[(if i < 0 then 0 else i) := Some(job)]
  }

  function FindFreeJob(q: Queue, from: nat): (i: int)
    requires from <= |q|
    ensures i == -1 || (from <= i < |q| && q[i].None?)
    ensures i == -1 ==> forall j :: from <= j < |q| ==> q[j].Some?
    ensures i >= 0 ==> forall j :: from <= j < i ==> q[j].Some?
    decreases |q| - from
  {
    if from == |q| then -1 else if q[from].None? then from else FindFreeJob(q, from + 1)
  }

  function EnqueueAll(q: Queue, jobs: seq<Job>): (r: Queue)
    requires |q| > 0
    ensures |r| == |q|
  {
    if jobs == [] then q else Enqueue(EnqueueAll(q, jobs[..|jobs| - 1]), jobs[|jobs| - 1])
  }

  /** What the queue holds after any run of denials: the first 64 jobs, and from then on always
      jobs 2..64 with the latest job in place 0. */
  lemma {:induction false} QueueAfterDenials(jobs: seq<Job>)
    ensures var q := EnqueueAll(seq(MAX_QUEUE, _ => None), jobs);
      && |q| == MAX_QUEUE
      && forall i :: 0 <= i < MAX_QUEUE ==>
        q[i] == if i >= |jobs| then None
                else if i == 0 && |jobs| > MAX_QUEUE then Some(jobs[|jobs| - 1])
                else Some(jobs[i])
  {
    if jobs != [] {
      var n := |jobs| - 1;
      QueueAfterDenials(jobs[..n]);
      var p := EnqueueAll(seq(MAX_QUEUE, _ => None), jobs[..n]);
      if n < MAX_QUEUE { assert p[n].None?; }
    }
  }
}
