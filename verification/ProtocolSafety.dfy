/** Uniqueness over every interleaving, with failures and crashes: an address is
    reserved twice only if a DEL for its first holder removed it in between. */
module ProtocolSafety {
  import opened Common
  import opened Addresses
  import opened Ranges
  import opened Subnets
  import opened Rings
  import opened Stores
  import opened Allocator
  import opened AllocationRuns
  import opened Protocol

  // ---------- the invariant of the process that holds the lock ----------

  // The file of a reservation under way: it exists, and nobody holds it yet.
  predicate UnderWay(p: Pool, files: map<string, string>, log: seq<Event>, ip: IP)
  {
    && IsAddress(ip) && Canon(ip) == ip
    && p.text.show(ip) in files && Holder(log, p.text.show(ip)) == None
  }

  predicate LocalOk(p: Pool, job: Op, files: map<string, string>, log: seq<Event>, pc: Pc)
  {
    match pc
    case Scanning(cur, stop) => job.Ask? && p.Has(cur) && p.Has(stop)
    case Trying(ip) => job.Ask? && IsAddress(ip)
    case Created(ip) => job.Ask? && UnderWay(p, files, log, ip)
    case Written(ip) => job.Ask? && UnderWay(p, files, log, ip) && files[p.text.show(ip)] == job.id
    case CursorOpen(ip) => job.Ask? && UnderWay(p, files, log, ip) && files[p.text.show(ip)] == job.id
    case Walking(_) => job.Drop?
    case Matched(name, _) => job.Drop? && name in files && files[name] == job.id
    case _ => true
  }

  // Every address held according to the log has its file, with the holder's id.
  ghost predicate FilesOk(files: map<string, string>, log: seq<Event>)
  {
    forall n :: Holder(log, n).Some? ==> n != LAST_IP_FILE && n in files && files[n] == Holder(log, n).value
  }

  lemma HolderAfter(log: seq<Event>, e: Event)
    ensures forall n :: Holder(log + [e], n)
                     == if n != e.name then Holder(log, n) else if e.Allocated? then Some(e.id) else None
    ensures Legal(log + [e]) <==>
            Legal(log) && (if e.Allocated? then Holder(log, e.name) == None
                           else Holder(log, e.name) in {None, Some(e.id)})
  {
    assert (log + [e])[..|log|] == log;
  }

  lemma CreateSafe(p: Pool, job: Op, files: map<string, string>, log: seq<Event>, ip: IP, otherwise: Pc)
    requires p.text.Faithful() && IsAddress(ip) && job.Ask?
    requires FilesOk(files, log) && LocalOk(p, job, files, log, otherwise) && !otherwise.Matched?
    ensures var l := Create(p, files, ip, otherwise);
            FilesOk(l.files, log) && LocalOk(p, job, l.files, log, l.pc) && l.events == []
  {
    CanonIsCanonical(ip);
    NamesAreDistinct(p.text, ip, ip);
  }

  lemma EnterSafe(p: Pool, job: Op, files: map<string, string>, log: seq<Event>, act: Action)
    requires p.Valid()
    ensures var l := Enter(p, job, files, act);
            l.files == files && l.events == [] && LocalOk(p, job, files, log, l.pc)
            && Inside(l.pc) && (l.pc.Unlocking? ==> l.pc.result.Refused?)
  {
    hide Sound, Pool.Cursor, Equal, Contains, StartError, EndError, Canon;
    p.CursorInRing(Disk(files), NO_FAULTS.(cursorUnreadable := act == CursorUnreadable));
    if job.Ask? && RangeError(job.ip, p.net, p.start, p.end).None? {
      ShortFormIsAddress(job.ip);
    }
  }

  lemma ShortFormIsAddress(ip: IP)
    requires IsAddress(Canon(ip))
    ensures IsAddress(ip)
  {
  }

  ghost predicate StepOk(p: Pool, job: Op, l: Local, log: seq<Event>)
  {
    && FilesOk(l.files, log + l.events) && Legal(log + l.events)
    && LocalOk(p, job, l.files, log + l.events, l.pc)
  }

  lemma SilentStepOk(p: Pool, job: Op, l: Local, log: seq<Event>)
    requires l.events == [] && FilesOk(l.files, log) && Legal(log) && LocalOk(p, job, l.files, log, l.pc)
    ensures StepOk(p, job, l, log)
  {
    assert log + [] == log;
  }

  lemma EnterStepOk(p: Pool, pid: Pid, job: Op, files: map<string, string>, log: seq<Event>, act: Action)
    requires p.Valid() && FilesOk(files, log) && Legal(log)
    ensures StepOk(p, job, Advance(p, pid, job, files, Locked, act), log)
  {
    hide Sound, Enter, StepOk, Legal, FilesOk;
    EnterSafe(p, job, files, log, act);
    SilentStepOk(p, job, Advance(p, pid, job, files, Locked, act), log);
  }

  lemma ScanStepOk(p: Pool, pid: Pid, job: Op, files: map<string, string>, log: seq<Event>,
                   cur: int, stop: int, act: Action)
    requires p.Valid() && FilesOk(files, log) && Legal(log)
    requires LocalOk(p, job, files, log, Scanning(cur, stop))
    ensures StepOk(p, job, Advance(p, pid, job, files, Scanning(cur, stop), act), log)
  {
    hide Sound, Pool.IsGateway, Pool.Key, Pool.Has, Pool.Range, Create, StepOk, Legal, FilesOk, UnderWay, Canon;
    NextInRing(p, cur);
    KeyIsAddress(p, cur);
    CreateSafe(p, job, files, log, p.Key(cur), Scanning(p.Range().Next(cur), stop));
    SilentStepOk(p, job, Advance(p, pid, job, files, Scanning(cur, stop), act), log);
  }

  lemma KeyIsAddress(p: Pool, x: int)
    requires p.Valid() && p.Has(x)
    ensures IsAddress(p.Key(x))
  {
    hide Sound, Pool.Key;
    p.KeyInRange(x);
  }

  lemma TryStepOk(p: Pool, pid: Pid, job: Op, files: map<string, string>, log: seq<Event>, ip: IP, act: Action)
    requires p.Valid() && FilesOk(files, log) && Legal(log) && LocalOk(p, job, files, log, Trying(ip))
    ensures StepOk(p, job, Advance(p, pid, job, files, Trying(ip), act), log)
  {
    hide Sound, Create, StepOk, Legal, FilesOk, UnderWay, Canon;
    CreateSafe(p, job, files, log, ip, Unlocking(Refused(NotAvailable)));
    SilentStepOk(p, job, Advance(p, pid, job, files, Trying(ip), act), log);
  }

  lemma WriteStepOk(p: Pool, pid: Pid, job: Op, files: map<string, string>, log: seq<Event>, pc: Pc, act: Action)
    requires p.Valid() && (pc.Created? || pc.Written? || (pc.CursorOpen? && act != Go))
    requires FilesOk(files, log) && LocalOk(p, job, files, log, pc) && Legal(log)
    ensures StepOk(p, job, Advance(p, pid, job, files, pc, act), log)
  {
    hide Sound, Legal, StepOk, Enter, Create, Holder;
    NamesAreDistinct(p.text, pc.ip, pc.ip);
    SilentStepOk(p, job, Advance(p, pid, job, files, pc, act), log);
  }

  lemma ReserveStepOk(p: Pool, pid: Pid, job: Op, files: map<string, string>, log: seq<Event>, ip: IP)
    requires p.Valid()
    requires FilesOk(files, log) && LocalOk(p, job, files, log, CursorOpen(ip)) && Legal(log)
    ensures StepOk(p, job, Advance(p, pid, job, files, CursorOpen(ip), Go), log)
  {
    hide Sound, Legal, Holder;
    NamesAreDistinct(p.text, ip, ip);
    HolderAfter(log, Allocated(pid, job.id, p.text.show(ip)));
  }

  lemma WalkStepOk(p: Pool, pid: Pid, job: Op, files: map<string, string>, log: seq<Event>, pc: Pc, act: Action)
    requires p.Valid() && (pc.Walking? || (pc.Matched? && act != Go))
    requires FilesOk(files, log) && LocalOk(p, job, files, log, pc) && Legal(log)
    ensures StepOk(p, job, Advance(p, pid, job, files, pc, act), log)
  {
    hide Sound, Legal, FilesOk, StepOk, Enter, Create;
    SilentStepOk(p, job, Advance(p, pid, job, files, pc, act), log);
  }

  // Removing a file by the id found in it removes no reservation of another id.
  lemma RemoveStepOk(p: Pool, pid: Pid, job: Op, files: map<string, string>, log: seq<Event>,
                     name: string, todo: set<string>)
    requires p.Valid()
    requires FilesOk(files, log) && LocalOk(p, job, files, log, Matched(name, todo)) && Legal(log)
    ensures StepOk(p, job, Advance(p, pid, job, files, Matched(name, todo), Go), log)
  {
    hide Sound, Legal, Holder, Enter, Create;
    var e := Removed(pid, job.id, name);
    HolderAfter(log, e);
    assert Holder(log, name) in {None, Some(job.id)};
    assert Legal(log + [e]);
    assert FilesOk(files - {name}, log + [e]) by {
      forall n | Holder(log + [e], n).Some?
        ensures n != LAST_IP_FILE && n in files - {name} && files[n] == Holder(log + [e], n).value
      {
        assert Holder(log, n).Some?;
      }
    }
  }

  // Each step under the lock keeps the files in line with the log, and the log
  // legal; a reservation is logged exactly when Reserve returns it.
  lemma AdvanceSafe(p: Pool, pid: Pid, job: Op, files: map<string, string>, log: seq<Event>, pc: Pc, act: Action)
    requires p.Valid() && Inside(pc) && !pc.Unlocking?
    requires FilesOk(files, log) && LocalOk(p, job, files, log, pc) && Legal(log)
    ensures StepOk(p, job, Advance(p, pid, job, files, pc, act), log)
  {
    hide Sound, FilesOk, Legal, LocalOk, Advance, StepOk;
    match pc {
      case Created(_) => WriteStepOk(p, pid, job, files, log, pc, act);
      case Written(_) => WriteStepOk(p, pid, job, files, log, pc, act);
      case CursorOpen(ip) =>
        if act == Go {
          ReserveStepOk(p, pid, job, files, log, ip);
        } else {
          WriteStepOk(p, pid, job, files, log, pc, act);
        }
      case Walking(_) => WalkStepOk(p, pid, job, files, log, pc, act);
      case Matched(name, todo) =>
        if act == Go {
          RemoveStepOk(p, pid, job, files, log, name, todo);
        } else {
          WalkStepOk(p, pid, job, files, log, pc, act);
        }
      case Locked => EnterStepOk(p, pid, job, files, log, act);
      case Scanning(cur, stop) => ScanStepOk(p, pid, job, files, log, cur, stop, act);
      case Trying(ip) => TryStepOk(p, pid, job, files, log, ip, act);
    }
  }

  lemma NextInRing(p: Pool, x: int)
    requires p.Has(x)
    ensures p.Has(p.Range().Next(x))
  {
  }

  // ---------- processes do their own jobs ----------

  // An ADD is never at a step of a release, nor a DEL at one of a reservation.
  predicate RightJob(job: Op, pc: Pc)
  {
    match pc
    case Scanning(_, _) => job.Ask?
    case Trying(_) => job.Ask?
    case Created(_) => job.Ask?
    case Written(_) => job.Ask?
    case CursorOpen(_) => job.Ask?
    case Walking(_) => job.Drop?
    case Matched(_, _) => job.Drop?
    case _ => true
  }

  ghost predicate JobsMatch(jobs: Jobs, m: State)
  {
    m.pcs.Keys == jobs.Keys && forall pid :: pid in m.pcs ==> RightJob(jobs[pid], m.pcs[pid])
  }

  lemma AdvanceKeepsJob(p: Pool, pid: Pid, job: Op, files: map<string, string>, pc: Pc, act: Action)
    requires p.Valid() && RightJob(job, pc)
    ensures RightJob(job, Advance(p, pid, job, files, pc, act).pc)
  {
    hide Sound, RangeError, Equal, Pool.IsGateway, Pool.Key, Pool.Has, Pool.Cursor;
  }

  // ---------- who appears in the log ----------

  // The result of Reserve, once it is known to have succeeded.
  predicate Gives(pc: Pc, ip: IP)
  {
    pc == Unlocking(Gave(ip)) || pc == Done(Gave(ip))
  }

  predicate EventOk(p: Pool, jobs: Jobs, pcs: map<Pid, Pc>, e: Event)
  {
    && e.pid in jobs && e.pid in pcs && e.id == jobs[e.pid].id
    && (e.Removed? ==> jobs[e.pid].Drop?)
    && (e.Allocated? ==> jobs[e.pid].Ask? && Returned(p, pcs[e.pid], e.name))
  }

  // Where a process can be once Reserve has returned true for name.
  predicate Returned(p: Pool, pc: Pc, name: string)
  {
    match pc
    case Unlocking(Gave(ip)) => name == p.text.show(ip)
    case Done(Gave(ip)) => name == p.text.show(ip)
    case Crashed => true
    case _ => false
  }

  ghost predicate Accounted(p: Pool, jobs: Jobs, m: State)
  {
    && (forall i :: 0 <= i < |m.log| ==> EventOk(p, jobs, m.pcs, m.log[i]))
    && (forall i, j :: 0 <= i < j < |m.log| && m.log[i].Allocated? && m.log[j].Allocated? ==>
          m.log[i].pid != m.log[j].pid)
    && (forall pid, ip :: pid in m.pcs && Gives(m.pcs[pid], ip) ==> HasAllocation(p, m.log, pid, ip))
  }

  ghost predicate HasAllocation(p: Pool, log: seq<Event>, pid: Pid, ip: IP)
  {
    exists i :: 0 <= i < |log| && log[i].Allocated? && log[i].pid == pid && log[i].name == p.text.show(ip)
  }

  ghost predicate LogsOne(p: Pool, pid: Pid, job: Op, l: Local)
  {
    && |l.events| == 1 && l.events[0].pid == pid && l.events[0].id == job.id
    && if job.Ask? then
         && l.events[0].Allocated?
         && exists ip :: l.pc == Unlocking(Gave(ip)) && l.events[0].name == p.text.show(ip)
       else l.events[0].Removed? && !l.pc.Unlocking?
  }

  // A step logs at most one event, and an allocation exactly when it ends in one.
  lemma AdvanceLogs(p: Pool, pid: Pid, job: Op, files: map<string, string>, pc: Pc, act: Action)
    requires p.Valid() && Inside(pc) && !pc.Unlocking? && RightJob(job, pc)
    ensures var l := Advance(p, pid, job, files, pc, act);
            && !l.pc.Idle? && !l.pc.Done? && !l.pc.Crashed?
            && (if l.events == [] then forall ip :: !Gives(l.pc, ip) else LogsOne(p, pid, job, l))
  {
    hide Sound, RangeError, Equal, Pool.IsGateway, Pool.Key, Pool.Has, Enter;
    if pc == Locked {
      EnterSafe(p, job, files, [], act);
    }
    if pc.CursorOpen? && act == Go {
      assert Advance(p, pid, job, files, pc, act).pc == Unlocking(Gave(pc.ip));
    }
  }

  lemma DoKeepsAccounts(p: Pool, jobs: Jobs, m: State, pid: Pid, act: Action)
    requires p.Valid() && JobsMatch(jobs, m) && Accounted(p, jobs, m)
    ensures JobsMatch(jobs, Do(p, jobs, m, pid, act)) && Accounted(p, jobs, Do(p, jobs, m, pid, act))
  {
    hide Sound, Advance;
    if pid in jobs {
      var pc, m' := m.pcs[pid], Do(p, jobs, m, pid, act);
      if act != Crash && Inside(pc) && !pc.Unlocking? {
        var l := Advance(p, pid, jobs[pid], m.files, pc, act);
        AdvanceKeepsJob(p, pid, jobs[pid], m.files, pc, act);
        AdvanceLogs(p, pid, jobs[pid], m.files, pc, act);
        LoggedKeepsAccounts(p, jobs, m, pid, l);
      } else {
        assert m'.log == m.log;
        forall q, ip | q in m'.pcs && Gives(m'.pcs[q], ip) ensures HasAllocation(p, m'.log, q, ip) {
          assert Gives(m.pcs[q], ip);
        }
      }
    }
  }

  lemma LoggedKeepsAccounts(p: Pool, jobs: Jobs, m: State, pid: Pid, l: Local)
    requires m.pcs.Keys == jobs.Keys && Accounted(p, jobs, m)
    requires pid in jobs && Inside(m.pcs[pid]) && !m.pcs[pid].Unlocking?
    requires !l.pc.Idle? && !l.pc.Done? && !l.pc.Crashed?
    requires if l.events == [] then forall ip :: !Gives(l.pc, ip) else LogsOne(p, pid, jobs[pid], l)
    ensures Accounted(p, jobs, m.(files := l.files, pcs := m.pcs[pid := l.pc], log := m.log + l.events))
  {
    var pcs, log := m.pcs[pid := l.pc], m.log + l.events;
    forall i | 0 <= i < |log| ensures EventOk(p, jobs, pcs, log[i]) {
      if i < |m.log| {
        assert EventOk(p, jobs, m.pcs, m.log[i]);
      }
    }
    forall i, j | 0 <= i < j < |log| && log[i].Allocated? && log[j].Allocated?
      ensures log[i].pid != log[j].pid
    {
      assert EventOk(p, jobs, m.pcs, m.log[i]);
    }
    forall q, ip | q in pcs && Gives(pcs[q], ip) ensures HasAllocation(p, log, q, ip) {
      if q == pid {
        assert log[|m.log|] == l.events[0];
      } else {
        assert Gives(m.pcs[q], ip) && HasAllocation(p, m.log, q, ip);
        var i :| 0 <= i < |m.log| && m.log[i].Allocated? && m.log[i].pid == q && m.log[i].name == p.text.show(ip);
        assert log[i] == m.log[i];
      }
    }
  }

  // Whatever flock does, every address that an ADD returns is logged as its
  // reservation, and each process logs at most one.
  lemma {:induction false} ExecKeepsAccounts(p: Pool, jobs: Jobs, files: map<string, string>, sched: Schedule)
    requires p.Valid()
    ensures var m := Exec(p, jobs, Init(jobs, files), sched);
            JobsMatch(jobs, m) && Accounted(p, jobs, m)
    decreases |sched|
  {
    hide Sound, JobsMatch, Accounted, Do;
    if sched == [] {
      InitAccounts(p, jobs, files);
    } else {
      var before, last := sched[..|sched| - 1], sched[|sched| - 1];
      ExecKeepsAccounts(p, jobs, files, before);
      DoKeepsAccounts(p, jobs, Exec(p, jobs, Init(jobs, files), before), last.0, last.1);
    }
  }

  lemma InitAccounts(p: Pool, jobs: Jobs, files: map<string, string>)
    ensures JobsMatch(jobs, Init(jobs, files)) && Accounted(p, jobs, Init(jobs, files))
  {
  }

  // ---------- the invariant of the system ----------

  ghost predicate Inv(p: Pool, jobs: Jobs, m: State)
  {
    && m.pcs.Keys == jobs.Keys
    && (forall pid :: pid in m.pcs && Inside(m.pcs[pid]) ==>
          m.lock == Some(pid) && LocalOk(p, jobs[pid], m.files, m.log, m.pcs[pid]))
    && FilesOk(m.files, m.log)
    && Legal(m.log)
  }

  lemma DoKeepsInv(p: Pool, jobs: Jobs, m: State, pid: Pid, act: Action)
    requires p.Valid() && Inv(p, jobs, m) && act != LockFails
    ensures Inv(p, jobs, Do(p, jobs, m, pid, act))
  {
    hide Sound, LocalOk, FilesOk, Legal, Advance;
    if pid in jobs {
      var pc := m.pcs[pid];
      if Inside(pc) && !pc.Unlocking? {
        AdvanceSafe(p, pid, jobs[pid], m.files, m.log, pc, act);
      } else {
        EdgeStates(p, jobs[pid], m.files, m.log);
      }
    }
  }

  lemma EdgeStates(p: Pool, job: Op, files: map<string, string>, log: seq<Event>)
    ensures LocalOk(p, job, files, log, Locked)
  {
  }

  lemma {:induction false} ExecKeepsInv(p: Pool, jobs: Jobs, files: map<string, string>, sched: Schedule)
    requires p.Valid() && FlockWorks(sched)
    ensures Inv(p, jobs, Exec(p, jobs, Init(jobs, files), sched))
    decreases |sched|
  {
    hide Sound, Inv, Do;
    if sched == [] {
      InitOk(p, jobs, files);
    } else {
      var before, last := sched[..|sched| - 1], sched[|sched| - 1];
      ExecKeepsInv(p, jobs, files, before);
      DoKeepsInv(p, jobs, Exec(p, jobs, Init(jobs, files), before), last.0, last.1);
    }
  }

  lemma InitOk(p: Pool, jobs: Jobs, files: map<string, string>)
    ensures Inv(p, jobs, Init(jobs, files))
  {
  }

  // ---------- the theorem ----------

  // If flock succeeds, then whatever else fails, crashes or interleaves: every ADD
  // that returns an address has logged its reservation, once; every removal was
  // made by a DEL for the logged id; and between two reservations of one name the
  // name was removed by a DEL for the first holder's id.
  lemma AddressesAreUnique(p: Pool, jobs: Jobs, files: map<string, string>, sched: Schedule)
    requires p.Valid() && FlockWorks(sched)
    ensures var m := Exec(p, jobs, Init(jobs, files), sched);
            && NoDoubleAllocation(m.log)
            && (forall pid, ip :: pid in m.pcs && m.pcs[pid] == Done(Gave(ip)) ==> HasAllocation(p, m.log, pid, ip))
            && (forall i, j :: 0 <= i < j < |m.log| && m.log[i].Allocated? && m.log[j].Allocated? ==>
                  m.log[i].pid != m.log[j].pid)
            && FromJobs(jobs, m.log)
  {
    hide Sound, Exec, Legal, NoDoubleAllocation, FilesOk, HasAllocation;
    var m := Exec(p, jobs, Init(jobs, files), sched);
    ExecKeepsInv(p, jobs, files, sched);
    ExecKeepsAccounts(p, jobs, files, sched);
    LegalMeansNoDouble(m.log);
    forall pid, ip | pid in m.pcs && m.pcs[pid] == Done(Gave(ip)) ensures HasAllocation(p, m.log, pid, ip) {
      assert Gives(m.pcs[pid], ip);
    }
    forall i | 0 <= i < |m.log|
      ensures && m.log[i].pid in jobs && m.log[i].id == jobs[m.log[i].pid].id
              && (if m.log[i].Removed? then jobs[m.log[i].pid].Drop? else jobs[m.log[i].pid].Ask?)
    {
      assert EventOk(p, jobs, m.pcs, m.log[i]);
    }
  }

  // log[k] removes name between its allocations log[i] and log[j], which belong to
  // a and b, and is the work of a DEL for the id of the earlier one.
  ghost predicate RemovedBetween(jobs: Jobs, log: seq<Event>, i: int, k: int, j: int, a: Pid, b: Pid, name: string)
  {
    && 0 <= i < k < j < |log|
    && log[i].Allocated? && log[j].Allocated? && {log[i].pid, log[j].pid} == {a, b}
    && log[k].Removed? && log[i].name == log[k].name == log[j].name == name
    && log[i].pid in jobs && log[k].pid in jobs && jobs[log[k].pid] == Drop(jobs[log[i].pid].id)
  }

  lemma RemovalBetween(log: seq<Event>, i: nat, j: nat) returns (k: nat)
    requires NoDoubleAllocation(log) && i < j < |log|
    requires log[i].Allocated? && log[j].Allocated? && log[i].name == log[j].name
    ensures i < k < j && log[k].Removed? && log[k].name == log[i].name && log[k].id == log[i].id
  {
    k :| i < k < j && log[k].Removed? && log[k].name == log[i].name && log[k].id == log[i].id;
  }

  ghost predicate FromJobs(jobs: Jobs, log: seq<Event>)
  {
    forall i :: 0 <= i < |log| ==>
      && log[i].pid in jobs && log[i].id == jobs[log[i].pid].id
      && (if log[i].Removed? then jobs[log[i].pid].Drop? else jobs[log[i].pid].Ask?)
  }

  lemma TwoAllocations(p: Pool, jobs: Jobs, log: seq<Event>, a: Pid, b: Pid, ip: IP)
    requires NoDoubleAllocation(log) && a != b && HasAllocation(p, log, a, ip) && HasAllocation(p, log, b, ip)
    requires FromJobs(jobs, log)
    ensures exists i, k, j :: RemovedBetween(jobs, log, i, k, j, a, b, p.text.show(ip))
  {
    hide NoDoubleAllocation;
    var i :| 0 <= i < |log| && log[i].Allocated? && log[i].pid == a && log[i].name == p.text.show(ip);
    var j :| 0 <= j < |log| && log[j].Allocated? && log[j].pid == b && log[j].name == p.text.show(ip);
    var first, second := if i < j then i else j, if i < j then j else i;
    var k := RemovalBetween(log, first, second);
    assert RemovedBetween(jobs, log, first, k, second, a, b, p.text.show(ip));
  }

  // What that means for two callers: if two ADDs return the same address, a DEL
  // for the id of the one that reserved it first removed it before the other did.
  lemma TwoReturnsMeanRemoval(p: Pool, jobs: Jobs, files: map<string, string>, sched: Schedule,
                              a: Pid, b: Pid, ip: IP)
    requires p.Valid() && FlockWorks(sched) && a != b
    requires var m := Exec(p, jobs, Init(jobs, files), sched);
             a in m.pcs && b in m.pcs && m.pcs[a] == m.pcs[b] == Done(Gave(ip))
    ensures exists i, k, j ::
              RemovedBetween(jobs, Exec(p, jobs, Init(jobs, files), sched).log, i, k, j, a, b, p.text.show(ip))
  {
    hide Sound, Exec, NoDoubleAllocation, HasAllocation, RemovedBetween;
    AddressesAreUnique(p, jobs, files, sched);
    TwoAllocations(p, jobs, Exec(p, jobs, Init(jobs, files), sched).log, a, b, ip);
  }
}
