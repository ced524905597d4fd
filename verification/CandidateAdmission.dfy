/** The limits the scheduler reports, the candidates a session filters by them, and admission back in the scheduler. */
module CandidateAdmission {
  import opened Wrappers
  import opened SlotTable
  import opened Scheduler
  import R = Registry

  const GIB: real := 1073741824.0

  /** Bytes the scheduler reports for a limit: whole bytes only. */
  function Reported(gb: real): int { (gb * GIB).Floor }

  /** Limit a session filters by: the reported one, or the hardware's if none is reported. */
  function LimitGb(reported: int, hardwareBytes: int): real {
    (if reported <= 0 then hardwareBytes else reported) as real / GIB
  }

  ghost predicate AllIdle(m: Models) { forall i :: 0 <= i < |m| && m[i].Used? ==> m[i].val.refcount == 0 }

  lemma ReportedIsBelow(gb: real, hardwareBytes: int)
    requires Reported(gb) > 0
    ensures LimitGb(Reported(gb), hardwareBytes) <= gb
  {
    var x := gb * GIB;
    assert x.Floor as real <= x;
    assert x / GIB == gb;
  }

  /** With every loaded model idle, a model that is not loaded is admitted in the foreground exactly when it fits the
      limits alone. */
  lemma AdmittedWhenIdleIff(m: Models, lim: Limits, name: string, niceness: int, ram: real, vram: real, now: int)
    requires NonNegative(m) && lim.Valid() && AllIdle(m) && niceness <= 0 && Find(m, name) < 0
    ensures Admit(m, lim, name, niceness, ram, vram, now).allowed
      <==> ram <= lim.ram && (vram > 0.0 && lim.vram > 0.0 ==> vram <= lim.vram)
  {
    var order := IdleByAge(m, name, |m|);
    var none := Cleared(m, order);
    forall i | 0 <= i < |m| ensures none[i].Free? {
      if m[i].Used? {
        assert !Holds(m, i, name);
        assert Idle(m, name, i);
        assert (i as nat) in order;
      }
    }
    CommittedNone(none, Ram, |m|);
    CommittedNone(none, Vram, |m|);
    EvictionSucceedsIff(m, name, lim, ram, vram);
    hide IdleByAge, FewestEvictions;
  }

  /** Every model within the limits a session filters by is admitted. */
  ghost predicate AllAdmitted(m: Models, lim: Limits, name: string, niceness: int, maxRam: real, maxVram: real,
                              now: int) {
    lim.ram > 0.0 && forall ram, vram ::
      ram <= maxRam && vram <= maxVram ==> Admit(m, lim, name, niceness, ram, vram, now).allowed
  }

  /** With every loaded model idle, all candidates that are not loaded are admitted in the foreground exactly when the
      limits a session filters by do not exceed the scheduler's. */
  lemma CandidatesAdmittedIff(m: Models, lim: Limits, name: string, niceness: int, ramBytes: int, vramBytes: int,
                              now: int)
    requires NonNegative(m) && lim.Valid() && AllIdle(m) && niceness <= 0 && Find(m, name) < 0
    ensures var maxRam, maxVram := LimitGb(Reported(lim.ram), ramBytes), LimitGb(Reported(lim.vram), vramBytes);
      AllAdmitted(m, lim, name, niceness, maxRam, maxVram, now)
      <==> maxRam <= lim.ram && (lim.vram > 0.0 ==> maxVram <= lim.vram)
  {
    hide Admit, Reported, LimitGb, NonNegative, AllIdle, Find;
    var maxRam, maxVram := LimitGb(Reported(lim.ram), ramBytes), LimitGb(Reported(lim.vram), vramBytes);
    forall ram, vram | ram <= maxRam && vram <= maxVram
      ensures Admit(m, lim, name, niceness, ram, vram, now).allowed
        <==> ram <= lim.ram && (vram > 0.0 && lim.vram > 0.0 ==> vram <= lim.vram)
    {
      AdmittedWhenIdleIff(m, lim, name, niceness, ram, vram, now);
    }
    var least := if maxRam <= lim.ram then maxRam else lim.ram;
    if AllAdmitted(m, lim, name, niceness, maxRam, maxVram, now) {
      assert Admit(m, lim, name, niceness, maxRam, if maxVram < 0.0 then maxVram else 0.0, now).allowed;
      assert Admit(m, lim, name, niceness, least, maxVram, now).allowed;
    }
  }

  /** When that is so: a reported limit of at least one byte is never above the scheduler's; without one the session
      takes what the hardware has. */
  lemma ReportedLimitIff(gb: real, hardwareBytes: int)
    ensures LimitGb(Reported(gb), hardwareBytes) <= gb <==> Reported(gb) > 0 || hardwareBytes as real / GIB <= gb
  {
    if Reported(gb) > 0 { ReportedIsBelow(gb, hardwareBytes); }
  }

  /** So a candidate within the limits a session filters by is admitted whenever every loaded model is idle, if each
      limit is reported in whole bytes or there is none. */
  lemma CandidateIsAdmitted(m: Models, lim: Limits, model: R.ModelSpec, q: R.Query, ramBytes: int, vramBytes: int,
                            niceness: int, now: int)
    requires NonNegative(m) && lim.Valid() && AllIdle(m) && niceness <= 0
    requires Reported(lim.ram) > 0 && (lim.vram == 0.0 || Reported(lim.vram) > 0)
    requires q.maxRamGb == Some(LimitGb(Reported(lim.ram), ramBytes))
      && q.maxVramGb == Some(LimitGb(Reported(lim.vram), vramBytes))
    requires R.WithinLimits(model, q)
    ensures Admit(m, lim, model.name, niceness, model.ramGb, model.vramGb, now).allowed
  {
    ReportedLimitIff(lim.ram, ramBytes);
    ReportedLimitIff(lim.vram, vramBytes);
    if Find(m, model.name) < 0 { CandidatesAdmittedIff(m, lim, model.name, niceness, ramBytes, vramBytes, now); }
    hide Reported, LimitGb, HasCapacity, AfterEviction;
  }

  /** Limits below one byte are reported as none, and with any hardware at all the session then offers what the
      scheduler never admits: for RAM, and in the same way for VRAM. */
  lemma TinyLimitsAreNotSeen(m: Models, lim: Limits, name: string, ramBytes: int, vramBytes: int, now: int)
    requires NonNegative(m) && lim.Valid() && AllIdle(m) && Find(m, name) < 0
    requires (Reported(lim.ram) == 0 && ramBytes >= 1) || (lim.vram > 0.0 && Reported(lim.vram) == 0 && vramBytes >= 1)
    ensures !AllAdmitted(m, lim, name, 0, LimitGb(Reported(lim.ram), ramBytes),
      LimitGb(Reported(lim.vram), vramBytes), now)
  {
    CandidatesAdmittedIff(m, lim, name, 0, ramBytes, vramBytes, now);
    if Reported(lim.ram) == 0 && ramBytes >= 1 { BelowOneByte(lim.ram, ramBytes); }
    if Reported(lim.vram) == 0 && vramBytes >= 1 { BelowOneByte(lim.vram, vramBytes); }
  }

  lemma BelowOneByte(gb: real, bytes: int)
    requires Reported(gb) == 0 && bytes >= 1
    ensures bytes as real / GIB > gb
  {
    assert gb * GIB < 1.0;
    assert gb < 1.0 / GIB;
    assert bytes as real / GIB >= 1.0 / GIB;
  }

  /** Half a byte of either, and hardware that has one byte. */
  lemma HalfAByte(m: Models, name: string, now: int)
    requires NonNegative(m) && AllIdle(m) && Find(m, name) < 0
    ensures var half := 0.5 / GIB;
      && !AllAdmitted(m, Limits(half, 0.0), name, 0, LimitGb(Reported(half), 1), LimitGb(Reported(0.0), 1), now)
      && !AllAdmitted(m, Limits(1.0, half), name, 0, LimitGb(Reported(1.0), 1), LimitGb(Reported(half), 1), now)
  {
    var half := 0.5 / GIB;
    assert half > 0.0 && half * GIB == 0.5;
    TinyLimitsAreNotSeen(m, Limits(half, 0.0), name, 1, 1, now);
    TinyLimitsAreNotSeen(m, Limits(1.0, half), name, 1, 1, now);
  }
}
