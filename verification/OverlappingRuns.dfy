/** Operations on one agent's file that overlap.  There is no lock: an operation reads the whole file, works on what it
    read, and replaces the file in one step at the end, if it writes at all; between its two steps any other process
    can read or replace the file. */
module OverlappingRuns {
  import opened Wrappers
  import opened CText
  import opened AccessRules
  import opened ManifestText
  import opened AccessRuns
  import opened GrantRuns
  import opened ShieldedRuns
  import opened GrantConverse

  /** What a process holds: its operation, the file as it read it, and when it did. */
  datatype Proc = Idle | Busy(op: Op, file: string, since: nat)

  datatype System = System(file: string, procs: seq<Proc>)

  datatype Action = Begin(p: nat, op: Op) | Finish(p: nat)

  /** The file an operation writes when it has read `file`, if it writes one. */
  function Written(agentId: string, file: string, op: Op): Option<string> {
    match Load(agentId, file)
    case None => None
    case Some(m) =>
      match Perform(m, op).0
      case None => None
      case Some(u) => if |Print(u)| < JSON_CAPACITY then Some(Print(u)) else None
  }

  lemma WrittenIs(agentId: string, file: string, op: Op)
    ensures StepFile(agentId, file, op).0 == match Written(agentId, file, op) case None => file case Some(g) => g
  {
    hide Load, Perform, Print;
  }

  /** One action at time `at`; one that is not possible changes nothing. */
  function Move(agentId: string, s: System, a: Action, at: nat): (t: System)
    ensures |t.procs| == |s.procs|
  {
    if a.p >= |s.procs| || (a.Begin? <==> s.procs[a.p].Busy?) then s
    else match a
      case Begin(p, op) => s.(procs := s.procs[p := Busy(op, s.file, at)])
      case Finish(p) =>
        var after := Written(agentId, s.procs[p].file, s.procs[p].op);
        System(if after.Some? then after.value else s.file, s.procs[p := Idle])
  }

  /** The system of `n` processes after the first `k` actions, starting without a file. */
  function StateAt(agentId: string, n: nat, actions: seq<Action>, k: nat): (s: System)
    requires k <= |actions|
    ensures |s.procs| == n
  {
    if k == 0 then System("", seq(n, _ => Idle))
    else Move(agentId, StateAt(agentId, n, actions, k - 1), actions[k - 1], k - 1)
  }

  /** The process that finishes with action `k`, if one does. */
  function Finishing(agentId: string, n: nat, actions: seq<Action>, k: nat): Proc
    requires k < |actions|
  {
    var a, s := actions[k], StateAt(agentId, n, actions, k);
    if a.Finish? && a.p < n then s.procs[a.p] else Idle
  }

  /** Action `k` replaces the file. */
  predicate Saves(agentId: string, n: nat, actions: seq<Action>, k: nat)
    requires k < |actions|
  {
    var q := Finishing(agentId, n, actions, k);
    q.Busy? && Written(agentId, q.file, q.op).Some?
  }

  /** What a busy process holds is the file as it was when it read it. */
  lemma {:induction false} HeldSince(agentId: string, n: nat, actions: seq<Action>, k: nat, p: nat)
    requires k <= |actions| && p < n && StateAt(agentId, n, actions, k).procs[p].Busy?
    ensures var q := StateAt(agentId, n, actions, k).procs[p];
      q.since < k && q.file == StateAt(agentId, n, actions, q.since).file
  {
    hide Written;
    if StateAt(agentId, n, actions, k - 1).procs[p].Busy? { HeldSince(agentId, n, actions, k - 1, p); }
  }

  lemma FinishingSince(agentId: string, n: nat, actions: seq<Action>, k: nat)
    requires k < |actions| && Finishing(agentId, n, actions, k).Busy?
    ensures var q := Finishing(agentId, n, actions, k);
      q.since < k && q.file == StateAt(agentId, n, actions, q.since).file
  {
    HeldSince(agentId, n, actions, k, actions[k].p);
  }

  lemma BusyWhenSaving(agentId: string, n: nat, actions: seq<Action>, k: nat)
    requires k < |actions| && Saves(agentId, n, actions, k)
    ensures Finishing(agentId, n, actions, k).Busy?
  {
    hide Finishing, Written;
  }

  // ---------- what is left of the operations ----------

  /** The operation that writes with action `k`, and when it had read the file. */
  function Saved(agentId: string, n: nat, actions: seq<Action>, k: nat): (r: (Op, nat))
    requires k < |actions| && Saves(agentId, n, actions, k)
    ensures r.1 < k
  {
    BusyWhenSaving(agentId, n, actions, k);
    FinishingSince(agentId, n, actions, k);
    (Finishing(agentId, n, actions, k).op, Finishing(agentId, n, actions, k).since)
  }

  /** The operations that the file after `k` actions goes back to: the one that wrote it, behind those that the file it
      had read went back to. */
  function Line(agentId: string, n: nat, actions: seq<Action>, k: nat): seq<Op>
    requires k <= |actions|
  {
    hide Saves, Saved;
    if k == 0 then []
    else if !Saves(agentId, n, actions, k - 1) then Line(agentId, n, actions, k - 1)
    else
      var (op, since) := Saved(agentId, n, actions, k - 1);
      Line(agentId, n, actions, since) + [op]
  }

  /** All the operations that wrote the file, in the order in which they did. */
  function AllSaved(agentId: string, n: nat, actions: seq<Action>, k: nat): seq<Op>
    requires k <= |actions|
  {
    hide Saves, Saved;
    if k == 0 then []
    else if !Saves(agentId, n, actions, k - 1) then AllSaved(agentId, n, actions, k - 1)
    else AllSaved(agentId, n, actions, k - 1) + [Saved(agentId, n, actions, k - 1).0]
  }

  lemma FileAfter(agentId: string, n: nat, actions: seq<Action>, k: nat)
    requires k < |actions|
    ensures var (s, t) := (StateAt(agentId, n, actions, k), StateAt(agentId, n, actions, k + 1));
      var q := Finishing(agentId, n, actions, k);
      t.file == if Saves(agentId, n, actions, k) then Written(agentId, q.file, q.op).value else s.file
  {
    hide Written;
  }

  /** However the operations overlap, the file is the one that some of them leave, one after the other. */
  lemma {:induction false} OverlapIsLine(agentId: string, n: nat, actions: seq<Action>, k: nat)
    requires k <= |actions|
    ensures var ops := Line(agentId, n, actions, k);
      StateAt(agentId, n, actions, k).file == RunFile(agentId, "", ops, |ops|)
  {
    hide Written, StateAt, Finishing, StepFile;
    if k == 0 {
      StartsEmpty(agentId, n, actions);
    } else {
      FileAfter(agentId, n, actions, k - 1);
      if Saves(agentId, n, actions, k - 1) {
        var q := Finishing(agentId, n, actions, k - 1);
        BusyWhenSaving(agentId, n, actions, k - 1);
        FinishingSince(agentId, n, actions, k - 1);
        OverlapIsLine(agentId, n, actions, q.since);
        assert Line(agentId, n, actions, k) == Line(agentId, n, actions, q.since) + [q.op];
        OneMore(agentId, Line(agentId, n, actions, q.since), q.op);
        WrittenIs(agentId, q.file, q.op);
      } else {
        OverlapIsLine(agentId, n, actions, k - 1);
      }
    }
  }

  lemma StartsEmpty(agentId: string, n: nat, actions: seq<Action>)
    ensures StateAt(agentId, n, actions, 0).file == ""
  {
  }

  lemma OneMore(agentId: string, ops: seq<Op>, op: Op)
    ensures RunFile(agentId, "", ops + [op], |ops| + 1)
      == StepFile(agentId, RunFile(agentId, "", ops, |ops|), op).0
  {
    hide StepFile;
    PrefixRun(agentId, ops, op, |ops|, op.request);
    assert (ops + [op])[|ops|] == op;
  }

  // ---------- when nothing is lost ----------

  /** No other save stands between the reading and the writing of a save. */
  ghost predicate Undisturbed(agentId: string, n: nat, actions: seq<Action>, k: nat)
    requires k <= |actions|
  {
    forall j :: 0 <= j < k && Saves(agentId, n, actions, j) ==>
      NoSaves(agentId, n, actions, Saved(agentId, n, actions, j).1, j)
  }

  ghost predicate NoSaves(agentId: string, n: nat, actions: seq<Action>, from: nat, to: nat)
    requires to <= |actions|
  {
    forall i :: from <= i < to ==> !Saves(agentId, n, actions, i)
  }

  lemma {:induction false} SavedBetween(agentId: string, n: nat, actions: seq<Action>, from: nat, to: nat)
    requires from <= to <= |actions|
    ensures var (a, b) := (AllSaved(agentId, n, actions, from), AllSaved(agentId, n, actions, to));
      && |a| <= |b| && (|a| == |b| <==> NoSaves(agentId, n, actions, from, to))
      && (|a| == |b| ==> a == b)
  {
    hide Saves, Saved;
    if from < to { SavedBetween(agentId, n, actions, from, to - 1); }
  }

  lemma {:induction false} LineLength(agentId: string, n: nat, actions: seq<Action>, k: nat)
    requires k <= |actions|
    ensures var (line, all) := (Line(agentId, n, actions, k), AllSaved(agentId, n, actions, k));
      && |line| <= |all| && (|line| == |all| <==> Undisturbed(agentId, n, actions, k))
      && (|line| == |all| ==> line == all)
  {
    hide Saves, Saved, NoSaves;
    if k > 0 {
      if Saves(agentId, n, actions, k - 1) {
        var since := Saved(agentId, n, actions, k - 1).1;
        LineLength(agentId, n, actions, since);
        SavedBetween(agentId, n, actions, since, k - 1);
        UndisturbedSince(agentId, n, actions, since, k - 1);
      } else {
        LineLength(agentId, n, actions, k - 1);
      }
    }
  }

  lemma UndisturbedSince(agentId: string, n: nat, actions: seq<Action>, from: nat, k: nat)
    requires k < |actions| && Saves(agentId, n, actions, k) && Saved(agentId, n, actions, k).1 == from
    ensures Undisturbed(agentId, n, actions, k + 1)
      <==> Undisturbed(agentId, n, actions, from) && NoSaves(agentId, n, actions, from, k)
  {
    hide Saved, Saves;
  }

  /** No saved operation is lost exactly when no save stands between the reading and the writing of another. */
  lemma NothingLostIff(agentId: string, n: nat, actions: seq<Action>, k: nat)
    requires k <= |actions|
    ensures Line(agentId, n, actions, k) == AllSaved(agentId, n, actions, k)
      <==> Undisturbed(agentId, n, actions, k)
  {
    hide Undisturbed;
    LineLength(agentId, n, actions, k);
  }

  // ---------- what decides an evaluation ----------

  /** However operations overlap, an evaluation of a firm request is decided by the last grant for exactly it among
      those that the file it read goes back to. */
  lemma OverlappingGrantDecides(agentId: string, n: nat, actions: seq<Action>, k: nat)
    requires IsValidAgentId(agentId) && k < |actions|
    requires var q := Finishing(agentId, n, actions, k);
      q.Busy? && q.op.Evaluate? && Firm(NormalizeRequest(q.op.request))
    ensures var q := Finishing(agentId, n, actions, k);
      q.since < k && var ops := Line(agentId, n, actions, q.since);
      AsGranted(StepFile(agentId, q.file, q.op).1,
                LatestGrantOnFile(agentId, ops, |ops|, NormalizeRequest(q.op.request)))
  {
    hide Finishing, StateAt, StepFile, RunFile, LatestGrantOnFile, NormalizeRequest, IsValidAgentId, Firm, Line;
    var q := Finishing(agentId, n, actions, k);
    FinishingSince(agentId, n, actions, k);
    var ops := Line(agentId, n, actions, q.since);
    OverlapIsLine(agentId, n, actions, q.since);
    PrefixRun(agentId, ops, q.op, |ops|, NormalizeRequest(q.op.request));
    assert (ops + [q.op])[|ops|] == q.op;
    FirmFollowsGrant(agentId, ops + [q.op], |ops|);
  }

  // ---------- a grant that is lost ----------

  /** Two operations that both read before either writes. */
  function Crossing(a: Op, b: Op): seq<Action> { [Begin(0, a), Begin(1, b), Finish(0), Finish(1)] }

  lemma CrossingStates(agentId: string, a: Op, b: Op)
    ensures var acts := Crossing(a, b);
      && Finishing(agentId, 2, acts, 0) == Finishing(agentId, 2, acts, 1) == Idle
      && Finishing(agentId, 2, acts, 2) == Busy(a, "", 0) && Finishing(agentId, 2, acts, 3) == Busy(b, "", 1)
  {
    hide Written;
    var acts := Crossing(a, b);
    assert StateAt(agentId, 2, acts, 0) == System("", [Idle, Idle]);
    assert StateAt(agentId, 2, acts, 1) == System("", [Busy(a, "", 0), Idle]);
    assert StateAt(agentId, 2, acts, 2) == System("", [Busy(a, "", 0), Busy(b, "", 1)]);
    assert StateAt(agentId, 2, acts, 3).procs == [Idle, Busy(b, "", 1)];
  }

  /** Of two operations that cross, if both write, nothing is left of the first. */
  lemma SecondSaveWins(agentId: string, a: Op, b: Op)
    requires Written(agentId, "", a).Some? && Written(agentId, "", b).Some?
    ensures Line(agentId, 2, Crossing(a, b), 4) == [b] && AllSaved(agentId, 2, Crossing(a, b), 4) == [a, b]
  {
    CrossingStates(agentId, a, b);
    hide Finishing, Written, StateAt, Crossing;
    var acts := Crossing(a, b);
    assert |acts| == 4 by { CrossingLength(a, b); }
    assert !Saves(agentId, 2, acts, 0) && !Saves(agentId, 2, acts, 1);
    assert Saves(agentId, 2, acts, 2) && Saves(agentId, 2, acts, 3);
    hide Saves;
    assert Line(agentId, 2, acts, 0) == [] && Line(agentId, 2, acts, 1) == [];
    assert AllSaved(agentId, 2, acts, 0) == [] && AllSaved(agentId, 2, acts, 1) == [];
    assert AllSaved(agentId, 2, acts, 2) == [] && AllSaved(agentId, 2, acts, 3) == [a];
    assert [a] + [b] == [a, b];
  }

  lemma CrossingLength(a: Op, b: Op)
    ensures |Crossing(a, b)| == 4
  {
  }

  lemma FirstGrantIsWritten(agentId: string, x: Request, p: string)
    requires IsValidAgentId(agentId) && KeepsPolicy(PolicyEntry(NormalizeRequest(x), p))
    ensures Written(agentId, "", Apply(x, p)).Some? && StepFile(agentId, "", Apply(x, p)).1 == Granted
  {
    MissingFile(agentId);
    PolicyValueIsNormal(p);
    NormalizedIsShort(x);
    var r := NormalizeRequest(x);
    hide Load, NormalizeRequest, NormalizeToken, Print, IsValidAgentId, IsPolicyValue, ShortRequest, SetPolicy;
    PrintedLength(Manifest(agentId, [PolicyEntry(r, p)], []));
    SetSucceeds(r, p);
    assert RemovePending([], r) == [];
  }

  lemma SetSucceeds(r: Request, p: string)
    ensures SetPolicy([], r, p) == Some([PolicyEntry(r, p)])
  {
    assert FindExact([], r, 0) == -1;
    assert [] + [PolicyEntry(r, p)] == [PolicyEntry(r, p)];
  }

  /** Two grants that cross both succeed, and the first one's rule is not on file. */
  lemma GrantIsLost(agentId: string, x: Request, p: string, y: Request, w: string)
    requires IsValidAgentId(agentId) && NormalizeRequest(x) != NormalizeRequest(y)
    requires KeepsPolicy(PolicyEntry(NormalizeRequest(x), p)) && KeepsPolicy(PolicyEntry(NormalizeRequest(y), w))
    ensures var (a, b) := (Apply(x, p), Apply(y, w));
      var ops := Line(agentId, 2, Crossing(a, b), 4);
      && StepFile(agentId, "", a).1 == Granted && StepFile(agentId, "", b).1 == Granted
      && StateAt(agentId, 2, Crossing(a, b), 4).file == StepFile(agentId, "", b).0
      && LatestGrantOnFile(agentId, ops, |ops|, NormalizeRequest(x)) == None
  {
    var (a, b) := (Apply(x, p), Apply(y, w));
    FirstGrantIsWritten(agentId, x, p);
    FirstGrantIsWritten(agentId, y, w);
    SecondSaveWins(agentId, a, b);
    OverlapIsLine(agentId, 2, Crossing(a, b), 4);
    hide StepFile, Line, StateAt, Written, NormalizeRequest, NormalizeToken, Crossing, IsValidAgentId, KeepsPolicy;
    assert RunFile(agentId, "", [b], 0) == "";
    assert LatestGrantOnFile(agentId, [b], 0, NormalizeRequest(x)) == None;
  }
}
