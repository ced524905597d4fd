/** The capacity bound of LoadProtocol is exact: admission reserves nothing, so N processes that are all
    admitted before any of them marks its model end up with N models where there was room for one. */
module LoadOvershoot {
  import opened Wrappers
  import opened SlotTable
  import opened Scheduler
  import opened LoadProtocol
  import opened ModelUsers

  /** Some idle models of one size, and then models of another size, of which just one more fits. */
  datatype Setup = Setup(lim: Limits, r: Resource, fillers: nat, filler: real, unit: real)

  function SizeIn(u: Setup): Sizes {
    (name: string, r: Resource) => if r != u.r then 0.0 else if |name| <= u.fillers then u.filler else u.unit
  }

  /** The `i`-th name; names differ in their lengths. */
  function Name(i: nat): string { seq(i + 1, _ => 'm') }

  function Size(u: Setup, i: nat, r: Resource): real { SizeIn(u)(Name(i), r) }

  function ChatOf(u: Setup, i: nat): Chat { Chat(Name(i), "", "", 0, Size(u, i, Ram), Size(u, i, Vram)) }

  /** What the first `n` models hold. */
  function Total(u: Setup, r: Resource, n: nat): real {
    if n == 0 then 0.0 else Total(u, r, n - 1) + Size(u, n - 1, r)
  }

  /** With the idle models there one more model fits, and no fewer of them fill up more. */
  ghost predicate OneFits(u: Setup) {
    && u.lim.ram > 0.0 && u.filler >= 0.0 && u.unit >= 0.0
    && Total(u, u.r, u.fillers + 1) <= LimitOf(u.lim, u.r)
  }

  /** `idle` models that nobody uses, and then models in use up to `used`. */
  function Table(u: Setup, idle: nat, used: nat): Models {
    seq(MAX_MODELS, i requires 0 <= i < MAX_MODELS =>
      if i < idle then Used(Name(i), FirstRecord(ChatOf(u, i)).(refcount := 0))
      else if i < used then Used(Name(i), FirstRecord(ChatOf(u, i)))
      else Free)
  }

  /** The idle models are there, the first `k` of `n` processes are admitted. */
  function Asked(u: Setup, n: nat, k: nat): System {
    System(Table(u, u.fillers, u.fillers),
           seq(n, i requires 0 <= i < n => if i < k then Admitted(ChatOf(u, u.fillers + i)) else Resting))
  }

  /** All are admitted and the first `k` have gone on to load their model. */
  function Loaded(u: Setup, n: nat, k: nat): System {
    System(Table(u, u.fillers, u.fillers + k),
           seq(n, i requires 0 <= i < n =>
             if i < k then Serving(ChatOf(u, u.fillers + i)) else Admitted(ChatOf(u, u.fillers + i))))
  }

  // ---------- the table ----------

  lemma TableFinds(u: Setup, idle: nat, used: nat, i: nat)
    requires idle <= used <= MAX_MODELS
    ensures Find(Table(u, idle, used), Name(i)) == if i < used then i else -1
    ensures used < MAX_MODELS ==> FindFree(Table(u, idle, used)) == used
  {
    var m := Table(u, idle, used);
    forall j | Holds(m, j, Name(i)) ensures j == i < used { assert |m[j].key| == j + 1 && |Name(i)| == i + 1; }
    if i < used { assert Holds(m, i, Name(i)); }
    if used < MAX_MODELS {
      assert m[used].Free? && forall j :: 0 <= j < used ==> m[j].Used?;
      FirstFree(m, used);
    }
  }

  lemma FirstFree(m: Models, k: nat)
    requires k < |m| && m[k].Free? && forall i :: 0 <= i < k ==> m[i].Used?
    ensures FindFree(m) == k
  {
    var i := FindFree(m);
    assert i != -1 && i <= k;
  }

  lemma {:induction false} TableHolds(u: Setup, idle: nat, used: nat, r: Resource, n: nat)
    requires idle <= used <= MAX_MODELS && n <= MAX_MODELS
    ensures CommittedTo(Table(u, idle, used), r, n) == Total(u, r, if n < used then n else used)
  {
    if n > 0 {
      TableHolds(u, idle, used, r, n - 1);
      hide SizeIn;
    }
  }

  lemma {:induction false} TotalOfOther(u: Setup, r: Resource, n: nat)
    requires r != u.r
    ensures Total(u, r, n) == 0.0
  {
    if n > 0 { TotalOfOther(u, r, n - 1); }
  }

  lemma OneMore(n: nat, x: real)
    requires n > 0
    ensures n as real * x == (n - 1) as real * x + x
  {
  }

  lemma {:induction false} TotalIdle(u: Setup, n: nat)
    requires n <= u.fillers
    ensures Total(u, u.r, n) == n as real * u.filler
  {
    if n > 0 {
      TotalIdle(u, n - 1);
      OneMore(n, u.filler);
      assert Size(u, n - 1, u.r) == u.filler;
    }
  }

  lemma {:induction false} TotalBehind(u: Setup, k: nat)
    ensures Total(u, u.r, u.fillers + k) == u.fillers as real * u.filler + k as real * u.unit
  {
    if k == 0 {
      TotalIdle(u, u.fillers);
    } else {
      TotalBehind(u, k - 1);
      OneMore(k, u.unit);
      assert Size(u, u.fillers + (k - 1), u.r) == u.unit;
      assert Total(u, u.r, u.fillers + k) == Total(u, u.r, u.fillers + (k - 1)) + u.unit;
    }
  }

  lemma {:induction false} TotalGrows(u: Setup, n: nat, k: nat)
    requires n <= k && u.filler >= 0.0 && u.unit >= 0.0
    ensures Total(u, u.r, n) <= Total(u, u.r, k)
  {
    if n < k { TotalGrows(u, n, k - 1); }
  }

  /** The next model is admitted while there are at most the idle ones. */
  lemma NextIsAdmitted(u: Setup, used: nat, i: nat)
    requires OneFits(u) && used <= u.fillers <= MAX_MODELS && used <= i && (i == used || used == u.fillers)
    ensures var chat := ChatOf(u, i);
      StepModels(Table(u, used, used), Request(chat.name, u.lim, 0, chat.ram, chat.vram, 0))
        == (Table(u, used, used), true)
  {
    hide SizeIn;
    TableFinds(u, used, used, i);
    TableHolds(u, used, used, Ram, MAX_MODELS);
    TableHolds(u, used, used, Vram, MAX_MODELS);
    NextFits(u, used, i);
    AdmitsAsIs(Table(u, used, used), u.lim, ChatOf(u, i));
  }

  lemma NextFits(u: Setup, used: nat, i: nat)
    requires OneFits(u) && used <= u.fillers && used <= i && (i == used || used == u.fillers)
    ensures Total(u, Ram, used) + Size(u, i, Ram) <= u.lim.ram
    ensures Size(u, i, Vram) > 0.0 ==> Total(u, Vram, used) + Size(u, i, Vram) <= u.lim.vram
  {
    TotalOfOther(u, if u.r.Ram? then Vram else Ram, used);
    TotalGrows(u, used + 1, u.fillers + 1);
    assert Size(u, i, u.r) == Size(u, used, u.r);
    assert Total(u, u.r, used + 1) == Total(u, u.r, used) + Size(u, used, u.r);
  }

  // ---------- reaching the states ----------

  ghost predicate AllFit(actions: seq<Action>, size: Sizes) {
    forall a :: a in actions && a.Ask? ==> FitsSizes(a.chat, size)
  }

  ghost predicate Reachable(u: Setup, n: nat, s: System)
    requires u.lim.ram > 0.0
  {
    exists actions: seq<Action> :: AllFit(actions, SizeIn(u)) && Run(Start(n), u.lim, actions, |actions|) == s
  }

  lemma ReachStep(u: Setup, n: nat, s: System, a: Action)
    requires u.lim.ram > 0.0 && Reachable(u, n, s) && (a.Ask? ==> FitsSizes(a.chat, SizeIn(u)))
    ensures Reachable(u, n, Step(s, u.lim, a))
  {
    hide Step, FitsSizes;
    var actions: seq<Action> :| AllFit(actions, SizeIn(u)) && Run(Start(n), u.lim, actions, |actions|) == s;
    RunPrefix(Start(n), u.lim, actions, [a], |actions|);
    var longer := actions + [a];
    assert AllFit(longer, SizeIn(u));
    assert Run(Start(n), u.lim, longer, |longer|) == Step(s, u.lim, a);
  }

  lemma ReachLoad(u: Setup, n: nat, s: System, p: nat)
    requires u.lim.ram > 0.0 && Reachable(u, n, s)
    requires p < |s.procs| && s.procs[p].Admitted? && Find(s.models, s.procs[p].chat.name) == -1
    ensures var chat := s.procs[p].chat;
      Reachable(u, n, System(StepModels(s.models, Load(chat.name, FirstRecord(chat))).0, s.procs[p := Serving(chat)]))
  {
    hide Step, Reachable, StepModels, Find;
    LoadsItsModel(s, u.lim, p);
    ReachStep(u, n, s, LookUp(p));
    ReachStep(u, n, Step(s, u.lim, LookUp(p)), Spawn(p, true, 1, 1));
    ReachStep(u, n, Step(Step(s, u.lim, LookUp(p)), u.lim, Spawn(p, true, 1, 1)), Mark(p, 0));
  }

  lemma TableGrows(u: Setup, idle: nat, used: nat)
    requires idle <= used < MAX_MODELS
    ensures Name(used) != ""
    ensures StepModels(Table(u, idle, used), Load(Name(used), FirstRecord(ChatOf(u, used)))).0
      == Table(u, idle, used + 1)
  {
    TableFinds(u, idle, used, used);
    assert Table(u, idle, used)[used := Used(Name(used), FirstRecord(ChatOf(u, used)))] == Table(u, idle, used + 1);
  }

  lemma LastFinishes(u: Setup, used: nat)
    requires used < MAX_MODELS
    ensures StepModels(Table(u, used, used + 1), Unload(Name(used), 0)).0 == Table(u, used + 1, used + 1)
  {
    TableFinds(u, used, used + 1, used);
    hide Name, SizeIn;
  }

  lemma ReachAsk(u: Setup, n: nat, s: System, p: nat, i: nat)
    requires u.lim.ram > 0.0 && Reachable(u, n, s) && p < |s.procs| && s.procs[p].Resting? && i <= MAX_MODELS
    requires var chat := ChatOf(u, i);
      StepModels(s.models, Request(chat.name, u.lim, 0, chat.ram, chat.vram, 0)) == (s.models, true)
    ensures Reachable(u, n, System(s.models, s.procs[p := Admitted(ChatOf(u, i))]))
  {
    ChatFits(u, i);
    hide Reachable, StepModels, FitsSizes, SizeIn, Name;
    ReachStep(u, n, s, Ask(p, ChatOf(u, i), 0));
  }

  lemma ChatFits(u: Setup, i: nat)
    requires i <= MAX_MODELS
    ensures FitsSizes(ChatOf(u, i), SizeIn(u))
  {
  }

  lemma ReachFinish(u: Setup, n: nat, s: System, p: nat)
    requires u.lim.ram > 0.0 && Reachable(u, n, s) && p < |s.procs| && s.procs[p].Serving?
    ensures Reachable(u, n, System(StepModels(s.models, Unload(s.procs[p].chat.name, 0)).0, s.procs[p := Resting]))
  {
    hide Reachable, StepModels, SizeIn, Name;
    ReachStep(u, n, s, Finish(p, 0));
  }

  /** Process 0 loads the idle models one after another. */
  lemma {:induction false} FilledIsReachable(u: Setup, n: nat, k: nat)
    requires OneFits(u) && n > 0 && k <= u.fillers <= MAX_MODELS
    ensures Reachable(u, n, System(Table(u, k, k), seq(n, _ => Resting)))
  {
    hide Reachable, StepModels, Find, Table, Name, SizeIn, Size, Total;
    if k == 0 {
      NothingDone(u, n);
    } else {
      var j, resting := k - 1, seq(n, _ => Resting);
      var chat := ChatOf(u, j);
      FilledIsReachable(u, n, j);
      NextIsAdmitted(u, j, j);
      ReachAsk(u, n, System(Table(u, j, j), resting), 0, j);
      TableFinds(u, j, j, j);
      TableGrows(u, j, j);
      ReachLoad(u, n, System(Table(u, j, j), resting[0 := Admitted(chat)]), 0);
      assert resting[0 := Admitted(chat)][0 := Serving(chat)] == resting[0 := Serving(chat)];
      LastFinishes(u, j);
      ReachFinish(u, n, System(Table(u, j, j + 1), resting[0 := Serving(chat)]), 0);
      assert resting[0 := Serving(chat)][0 := Resting] == resting;
    }
  }

  lemma NothingDone(u: Setup, n: nat)
    requires u.lim.ram > 0.0
    ensures Reachable(u, n, System(Table(u, 0, 0), seq(n, _ => Resting)))
  {
    assert Run(Start(n), u.lim, [], 0) == System(Table(u, 0, 0), seq(n, _ => Resting));
    assert AllFit([], SizeIn(u));
  }

  lemma {:induction false} AskedIsReachable(u: Setup, n: nat, k: nat)
    requires OneFits(u) && 0 < n && k <= n && u.fillers + n <= MAX_MODELS + 1 && u.fillers <= MAX_MODELS
    ensures Reachable(u, n, Asked(u, n, k))
  {
    hide Reachable, StepModels, SizeIn, Size, Name, Table, Total;
    if k == 0 {
      FilledIsReachable(u, n, u.fillers);
      assert Asked(u, n, 0).procs == seq(n, _ => Resting);
    } else {
      AskedIsReachable(u, n, k - 1);
      NextIsAdmitted(u, u.fillers, u.fillers + (k - 1));
      ReachAsk(u, n, Asked(u, n, k - 1), k - 1, u.fillers + (k - 1));
      assert Asked(u, n, k - 1).procs[k - 1 := Admitted(ChatOf(u, u.fillers + (k - 1)))] == Asked(u, n, k).procs;
    }
  }

  lemma {:induction false} LoadedIsReachable(u: Setup, n: nat, k: nat)
    requires OneFits(u) && 0 < n && k <= n && u.fillers + k <= MAX_MODELS && u.fillers + n <= MAX_MODELS + 1
    ensures Reachable(u, n, Loaded(u, n, k))
  {
    hide Reachable, StepModels, Find, Table, SizeIn, Size, Name, Total;
    if k == 0 {
      AskedIsReachable(u, n, n);
      assert Asked(u, n, n).procs == Loaded(u, n, 0).procs;
    } else {
      LoadedIsReachable(u, n, k - 1);
      var p, i := k - 1, u.fillers + (k - 1);
      TableFinds(u, u.fillers, i, i);
      TableGrows(u, u.fillers, i);
      ReachLoad(u, n, Loaded(u, n, p), p);
      assert Loaded(u, n, p).procs[p := Serving(ChatOf(u, i))] == Loaded(u, n, k).procs;
    }
  }

  // ---------- the bound ----------

  /** For every limit and largest request, and every number of processes that has a slot each besides the idle models it
      takes to fill up the rest, there is a run in which the scheduler's own count of a resource is
      limit + (N-1) * largest request, so no smaller bound holds. */
  lemma BoundIsReached(n: nat, lim: Limits, r: Resource, most: real, fillers: nat)
    requires 0 < n && fillers + n <= MAX_MODELS && lim.ram > 0.0
    requires 0.0 < most <= LimitOf(lim, r) <= most + fillers as real * most
    ensures exists actions: seq<Action>, size: Sizes :: AllFit(actions, size) && Reaches(n, lim, r, most, actions, size)
  {
    var u := SetupFor(lim, r, most, fillers);
    SetupReaches(lim, r, most, fillers, n);
    hide *;
    LoadedIsReachable(u, n, n);
    ReachedRun(u, n, Loaded(u, n, n), most);
  }

  /** As many idle models as it takes, of equal sizes, to leave room for one of the largest. */
  function SetupFor(lim: Limits, r: Resource, most: real, fillers: nat): Setup {
    var rest := (if r.Ram? then lim.ram else lim.vram) - most;
    Setup(lim, r, fillers, if fillers == 0 then 0.0 else rest / fillers as real, most)
  }

  lemma SetupReaches(lim: Limits, r: Resource, most: real, fillers: nat, n: nat)
    requires 0 < n && fillers + n <= MAX_MODELS && lim.ram > 0.0
    requires 0.0 < most <= LimitOf(lim, r) <= most + fillers as real * most
    ensures var u := SetupFor(lim, r, most, fillers);
      && u.lim == lim && u.r == r && u.fillers == fillers && OneFits(u)
      && (forall name :: 0.0 <= SizeIn(u)(name, r) <= most)
      && Committed(Loaded(u, n, n).models, r) == LimitOf(lim, r) + (n - 1) as real * most
  {
    var rest := LimitOf(lim, r) - most;
    var u := SetupFor(lim, r, most, fillers);
    FillerFits(rest, most, fillers);
    hide Loaded, OneFits, SizeIn;
    LoadedHolds(u, n, rest);
    SizesAre(u);
    Shares(most, n);
  }

  lemma ReachedRun(u: Setup, n: nat, s: System, most: real)
    requires n > 0 && u.lim.ram > 0.0 && Reachable(u, n, s) && (forall name :: 0.0 <= SizeIn(u)(name, u.r) <= most)
    requires Committed(s.models, u.r) == LimitOf(u.lim, u.r) + (n - 1) as real * most
    ensures exists actions: seq<Action>, size: Sizes ::
      AllFit(actions, size) && Reaches(n, u.lim, u.r, most, actions, size)
  {
    hide Run, Start, SizeIn, AllFit, LimitOf, Committed;
    var actions: seq<Action> :| AllFit(actions, SizeIn(u)) && Run(Start(n), u.lim, actions, |actions|) == s;
    assert Reaches(n, u.lim, u.r, most, actions, SizeIn(u));
  }

  /** At the end of a run, in which no name asks for more than `most`, the bound is reached. */
  ghost predicate Reaches(n: nat, lim: Limits, r: Resource, most: real, actions: seq<Action>, size: Sizes)
    requires n > 0 && lim.ram > 0.0
  {
    && (forall name :: 0.0 <= size(name, r) <= most)
    && Committed(Run(Start(n), lim, actions, |actions|).models, r) == LimitOf(lim, r) + (n - 1) as real * most
  }

  /** What is held in the end; before it there was room for just one model. */
  lemma LoadedHolds(u: Setup, n: nat, rest: real)
    requires u.fillers + n <= MAX_MODELS && u.lim.ram > 0.0 && u.filler >= 0.0 && u.unit >= 0.0
    requires u.fillers as real * u.filler == rest == LimitOf(u.lim, u.r) - u.unit
    ensures OneFits(u) && Committed(Loaded(u, n, n).models, u.r) == rest + n as real * u.unit
  {
    hide Total, Table;
    TotalBehind(u, 1);
    TotalBehind(u, n);
    TableHolds(u, u.fillers, u.fillers + n, u.r, MAX_MODELS);
    assert Loaded(u, n, n).models == Table(u, u.fillers, u.fillers + n);
    assert |Table(u, u.fillers, u.fillers + n)| == MAX_MODELS by { TableSize(u, n); }
  }

  lemma TableSize(u: Setup, n: nat)
    ensures |Table(u, u.fillers, u.fillers + n)| == MAX_MODELS
  {
  }

  lemma FillerFits(rest: real, most: real, fillers: nat)
    requires 0.0 <= rest <= fillers as real * most && most > 0.0
    ensures var filler := if fillers == 0 then 0.0 else rest / fillers as real;
      0.0 <= filler <= most && fillers as real * filler == rest
  {
    if fillers > 0 { Ratio(rest, fillers as real, most); }
  }

  lemma Ratio(rest: real, n: real, most: real)
    requires n > 0.0 && 0.0 <= rest <= n * most
    ensures 0.0 <= rest / n <= most && n * (rest / n) == rest
  {
  }

  lemma Shares(most: real, n: nat)
    requires n > 0
    ensures n as real * most == most + (n - 1) as real * most
  {
  }

  lemma SizesAre(u: Setup)
    requires 0.0 <= u.filler <= u.unit
    ensures forall name :: 0.0 <= SizeIn(u)(name, u.r) <= u.unit
  {
  }

  /** Process `p` serves a chat with a model that the scheduler has no record of. */
  ghost predicate ServesUnrecorded(s: System, p: nat) {
    p < |s.procs| && s.procs[p].Serving? && Find(s.models, s.procs[p].chat.name) == -1
  }

  /** A load that finds no slot: 33 processes are admitted with models that take no memory, and the last one serves a
      model without a record. */
  lemma LoadWithoutSlot(lim: Limits)
    requires lim.ram > 0.0
    ensures exists actions: seq<Action> ::
      ServesUnrecorded(Run(Start(MAX_MODELS + 1), lim, actions, |actions|), MAX_MODELS)
  {
    var n, p := MAX_MODELS + 1, MAX_MODELS;
    var u := Setup(lim, Ram, 0, 0.0, 0.0);
    TotalBehind(u, 1);
    LoadedIsReachable(u, n, p);
    TableFinds(u, 0, p, p);
    var s := Loaded(u, n, p);
    hide Find, Table, Name, SizeIn, Total;
    FullTableRefuses(u);
    ReachLoad(u, n, s, p);
    var t := System(s.models, s.procs[p := Serving(ChatOf(u, p))]);
    var actions: seq<Action> :| AllFit(actions, SizeIn(u)) && Run(Start(n), lim, actions, |actions|) == t;
    hide Run, Start;
    assert ServesUnrecorded(t, p);
  }

  lemma FullTableRefuses(u: Setup)
    ensures var chat := ChatOf(u, MAX_MODELS);
      StepModels(Table(u, 0, MAX_MODELS), Load(chat.name, FirstRecord(chat))).0 == Table(u, 0, MAX_MODELS)
  {
    TableFinds(u, 0, MAX_MODELS, MAX_MODELS);
    assert forall j :: 0 <= j < MAX_MODELS ==> Table(u, 0, MAX_MODELS)[j].Used?;
    hide Name, SizeIn;
  }
}
