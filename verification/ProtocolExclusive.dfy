/** Without DELs the exclusive creation alone keeps addresses unique, even when
    flock fails and ADDs run side by side; with DELs it does not. */
module ProtocolExclusive {
  import opened Common
  import opened Addresses
  import opened Ranges
  import opened Subnets
  import opened Rings
  import opened Stores
  import opened Allocator
  import opened AllocationRuns
  import opened Protocol
  import opened ProtocolSafety

  predicate OnlyAdds(jobs: Jobs)
  {
    forall pid :: pid in jobs ==> jobs[pid].Ask?
  }

  // The name whose file a process has created and not yet answered for.
  function Owned(p: Pool, pc: Pc): (r: Option<string>)
  {
    match pc
    case Created(ip) => Some(p.text.show(ip))
    case Written(ip) => Some(p.text.show(ip))
    case CursorOpen(ip) => Some(p.text.show(ip))
    case _ => None
  }

  predicate AddOk(p: Pool, files: map<string, string>, pc: Pc)
  {
    match pc
    case Scanning(cur, stop) => p.Has(cur) && p.Has(stop)
    case Trying(ip) => IsAddress(ip)
    case Walking(_) => false
    case Matched(_, _) => false
    case _ => Owned(p, pc).Some? ==> Owned(p, pc).value in files && Owned(p, pc).value != LAST_IP_FILE
  }

  // A step takes away no file but the process's own, and creates only a file
  // that was not there.
  ghost predicate AddStep(p: Pool, files: map<string, string>, pc: Pc, l: Local)
  {
    && (forall n :: n in files && Owned(p, pc) != Some(n) ==> n in l.files)
    && AddOk(p, l.files, l.pc)
    && (Owned(p, l.pc).Some? ==> Owned(p, l.pc) == Owned(p, pc) || Owned(p, l.pc).value !in files)
    && (l.events == [] ||
        (|l.events| == 1 && l.events[0].Allocated? && Some(l.events[0].name) == Owned(p, pc)
         && Owned(p, l.pc).None? && l.events[0].name in l.files))
  }

  lemma AdvanceAdd(p: Pool, pid: Pid, job: Op, files: map<string, string>, pc: Pc, act: Action)
    requires p.Valid() && Inside(pc) && !pc.Unlocking? && job.Ask? && AddOk(p, files, pc)
    ensures AddStep(p, files, pc, Advance(p, pid, job, files, pc, act))
  {
    hide Sound, RangeError, Equal, Pool.IsGateway, Pool.Key, Pool.Has, Pool.Range, Enter, Create, AddStep, Canon;
    match pc {
      case Locked => EnterAdd(p, job, files, act);
      case Scanning(cur, stop) =>
        NextInRing(p, cur);
        KeyIsAddress(p, cur);
        CreateAdd(p, files, p.Key(cur), Scanning(p.Range().Next(cur), stop), pc);
        SilentAdd(p, files, pc, pc);
        SilentAdd(p, files, pc, Scanning(p.Range().Next(cur), stop));
        SilentAdd(p, files, pc, Unlocking(Refused(Exhausted)));
        SilentAdd(p, files, pc, Unlocking(Refused(StoreFailed)));
      case Trying(ip) =>
        CreateAdd(p, files, ip, Unlocking(Refused(NotAvailable)), pc);
        SilentAdd(p, files, pc, pc);
        SilentAdd(p, files, pc, Unlocking(Refused(StoreFailed)));
      case _ => WriteAdd(p, pid, job, files, pc, act);
    }
  }

  lemma SilentAdd(p: Pool, files: map<string, string>, pc: Pc, pc': Pc)
    requires AddOk(p, files, pc') && Owned(p, pc').None?
    ensures AddStep(p, files, pc, Moved(files, pc'))
  {
  }

  lemma EnterAdd(p: Pool, job: Op, files: map<string, string>, act: Action)
    requires p.Valid() && job.Ask?
    ensures AddStep(p, files, Locked, Enter(p, job, files, act))
    ensures AddStep(p, files, Locked, Moved(files, Locked))
  {
    hide Sound, Pool.Cursor, Equal, Contains, StartError, EndError, Pool.Has;
    EnterSafe(p, job, files, [], act);
  }

  lemma CreateAdd(p: Pool, files: map<string, string>, ip: IP, otherwise: Pc, pc: Pc)
    requires p.text.Faithful() && IsAddress(ip) && AddOk(p, files, otherwise)
    requires Owned(p, pc).None? && Owned(p, otherwise).None?
    ensures AddStep(p, files, pc, Create(p, files, ip, otherwise))
  {
    CanonIsCanonical(ip);
    NamesAreDistinct(p.text, ip, ip);
  }

  lemma WriteAdd(p: Pool, pid: Pid, job: Op, files: map<string, string>, pc: Pc, act: Action)
    requires p.Valid() && AddOk(p, files, pc) && Owned(p, pc).Some?
    ensures AddStep(p, files, pc, Advance(p, pid, job, files, pc, act))
  {
    hide Sound, Enter, Create;
  }

  // No name is reserved twice.
  ghost predicate ReservedOnce(log: seq<Event>)
  {
    forall i, j :: 0 <= i < j < |log| ==> log[i].name != log[j].name
  }

  ghost predicate Exclusive(p: Pool, jobs: Jobs, m: State)
  {
    && m.pcs.Keys == jobs.Keys
    && (forall pid :: pid in m.pcs ==> AddOk(p, m.files, m.pcs[pid]))
    && (forall a, b :: a in m.pcs && b in m.pcs && a != b && Owned(p, m.pcs[a]).Some? ==>
          Owned(p, m.pcs[a]) != Owned(p, m.pcs[b]))
    && (forall i :: 0 <= i < |m.log| ==> Settled(p, m.files, m.pcs, m.log[i]))
    && ReservedOnce(m.log)
  }

  // An allocated name keeps its file, and no process is still at work on it.
  ghost predicate Settled(p: Pool, files: map<string, string>, pcs: map<Pid, Pc>, e: Event)
  {
    && e.Allocated? && e.name in files
    && forall pid :: pid in pcs ==> Owned(p, pcs[pid]) != Some(e.name)
  }

  lemma DoKeepsExclusive(p: Pool, jobs: Jobs, m: State, pid: Pid, act: Action)
    requires p.Valid() && OnlyAdds(jobs) && Exclusive(p, jobs, m)
    ensures Exclusive(p, jobs, Do(p, jobs, m, pid, act))
  {
    hide Sound, Advance, AddStep, Settled;
    if pid in jobs {
      var pc, m' := m.pcs[pid], Do(p, jobs, m, pid, act);
      if act != Crash && Inside(pc) && !pc.Unlocking? {
        AdvanceAdd(p, pid, jobs[pid], m.files, pc, act);
        StepKeepsExclusive(p, jobs, m, pid, Advance(p, pid, jobs[pid], m.files, pc, act));
      } else if m' != m {
        QuietKeepsExclusive(p, jobs, m, m', pid);
      }
    }
  }

  lemma QuietKeepsExclusive(p: Pool, jobs: Jobs, m: State, m': State, pid: Pid)
    requires Exclusive(p, jobs, m) && pid in jobs && pid in m'.pcs
    requires m'.files == m.files && m'.log == m.log && m'.pcs == m.pcs[pid := m'.pcs[pid]]
    requires Owned(p, m'.pcs[pid]).None? && AddOk(p, m.files, m'.pcs[pid])
    ensures Exclusive(p, jobs, m')
  {
    hide AddOk, Owned;
    forall i | 0 <= i < |m.log| ensures Settled(p, m'.files, m'.pcs, m'.log[i]) {
      assert Settled(p, m.files, m.pcs, m.log[i]);
    }
  }

  lemma StepKeepsExclusive(p: Pool, jobs: Jobs, m: State, pid: Pid, l: Local)
    requires Exclusive(p, jobs, m) && pid in jobs && AddStep(p, m.files, m.pcs[pid], l)
    ensures Exclusive(p, jobs, m.(files := l.files, pcs := m.pcs[pid := l.pc], log := m.log + l.events))
  {
    hide AddOk, Owned, Settled, AddStep;
    StepKeepsOwners(p, jobs, m, pid, l);
    StepKeepsSettled(p, jobs, m, pid, l);
  }

  lemma StepKeepsOwners(p: Pool, jobs: Jobs, m: State, pid: Pid, l: Local)
    requires Exclusive(p, jobs, m) && pid in jobs && AddStep(p, m.files, m.pcs[pid], l)
    ensures var pcs := m.pcs[pid := l.pc];
            && (forall a :: a in pcs ==> AddOk(p, l.files, pcs[a]))
            && (forall a, b :: a in pcs && b in pcs && a != b && Owned(p, pcs[a]).Some? ==>
                  Owned(p, pcs[a]) != Owned(p, pcs[b]))
  {
    hide AddOk, Owned, Settled, ReservedOnce;
    var pcs := m.pcs[pid := l.pc];
    forall a | a in pcs ensures AddOk(p, l.files, pcs[a]) {
      if a != pid {
        StillOk(p, m.files, l.files, m.pcs[a]);
      }
    }
    forall a, b | a in pcs && b in pcs && a != b && Owned(p, pcs[a]).Some?
      ensures Owned(p, pcs[a]) != Owned(p, pcs[b])
    {
      StillOk(p, m.files, m.files, m.pcs[a]);
      StillOk(p, m.files, m.files, m.pcs[b]);
    }
  }

  lemma StepKeepsSettled(p: Pool, jobs: Jobs, m: State, pid: Pid, l: Local)
    requires Exclusive(p, jobs, m) && pid in jobs && AddStep(p, m.files, m.pcs[pid], l)
    ensures var pcs, log := m.pcs[pid := l.pc], m.log + l.events;
            && (forall i :: 0 <= i < |log| ==> Settled(p, l.files, pcs, log[i]))
            && ReservedOnce(log)
  {
    hide AddOk, Owned;
    var pcs, log := m.pcs[pid := l.pc], m.log + l.events;
    forall i | 0 <= i < |log| ensures Settled(p, l.files, pcs, log[i]) {
      if i < |m.log| {
        assert log[i] == m.log[i] && Settled(p, m.files, m.pcs, m.log[i]);
      } else {
        assert log[i] == l.events[0];
      }
    }
    forall i, j | 0 <= i < j < |log| ensures log[i].name != log[j].name {
      if i < |m.log| <= j {
        assert Settled(p, m.files, m.pcs, m.log[i]);
      }
    }
  }

  lemma StillOk(p: Pool, files: map<string, string>, files': map<string, string>, pc: Pc)
    requires AddOk(p, files, pc)
    requires Owned(p, pc).Some? && Owned(p, pc).value in files ==> Owned(p, pc).value in files'
    ensures AddOk(p, files', pc)
    ensures Owned(p, pc).Some? ==> Owned(p, pc).value in files
  {
  }

  lemma {:induction false} ExecKeepsExclusive(p: Pool, jobs: Jobs, files: map<string, string>, sched: Schedule)
    requires p.Valid() && OnlyAdds(jobs)
    ensures Exclusive(p, jobs, Exec(p, jobs, Init(jobs, files), sched))
    decreases |sched|
  {
    hide Sound, Do;
    if sched != [] {
      var before, last := sched[..|sched| - 1], sched[|sched| - 1];
      ExecKeepsExclusive(p, jobs, files, before);
      DoKeepsExclusive(p, jobs, Exec(p, jobs, Init(jobs, files), before), last.0, last.1);
    }
  }

  // No two processes have returned the same address.
  ghost predicate ReturnedOnce(pcs: map<Pid, Pc>)
  {
    forall a, b, ip :: a in pcs && b in pcs && pcs[a] == Done(Gave(ip)) && pcs[b] == Done(Gave(ip)) ==> a == b
  }

  // ADDs alone: whatever flock does, no address is ever reserved twice, and no
  // two of them return the same address.
  lemma AddsAreExclusive(p: Pool, jobs: Jobs, files: map<string, string>, sched: Schedule)
    requires p.Valid() && OnlyAdds(jobs)
    ensures var m := Exec(p, jobs, Init(jobs, files), sched);
            ReservedOnce(m.log) && ReturnedOnce(m.pcs)
  {
    hide Sound, Exec, AddOk, Owned, Settled, EventOk, HasAllocation;
    ExecKeepsExclusive(p, jobs, files, sched);
    ExecKeepsAccounts(p, jobs, files, sched);
    var m := Exec(p, jobs, Init(jobs, files), sched);
    forall a, b, ip | a in m.pcs && b in m.pcs && m.pcs[a] == Done(Gave(ip)) && m.pcs[b] == Done(Gave(ip))
      ensures a == b
    {
      assert Gives(m.pcs[a], ip) && Gives(m.pcs[b], ip);
      OneHolder(p, m.log, a, b, ip);
    }
  }

  lemma OneHolder(p: Pool, log: seq<Event>, a: Pid, b: Pid, ip: IP)
    requires ReservedOnce(log) && HasAllocation(p, log, a, ip) && HasAllocation(p, log, b, ip)
    ensures a == b
  {
  }
}
