/** What can happen: every serial run with every combination of failures is a run
    of the processes, and no process that is alive is ever shut out. */
module ProtocolProgress {
  import opened Common
  import opened Addresses
  import opened Ranges
  import opened Subnets
  import opened Rings
  import opened Stores
  import opened Allocator
  import opened AllocationLaws
  import opened AllocationRuns
  import opened Protocol
  import opened ProtocolSafety
  import opened ProtocolSerial

  // ---------- reachability ----------

  ghost predicate Leads(p: Pool, jobs: Jobs, weather: Weather, m: State, n: State)
    requires Sound(p.net, p.start, p.end)
  {
    exists sched :: Endures(p, jobs, weather, m, sched) && Exec(p, jobs, m, sched) == n
  }

  lemma LeadsNowhere(p: Pool, jobs: Jobs, weather: Weather, m: State)
    requires p.Valid()
    ensures Leads(p, jobs, weather, m, m)
  {
    hide Sound, StepEndures;
    assert Exec(p, jobs, m, []) == m;
    assert Endures(p, jobs, weather, m, []);
  }

  lemma LeadsOn(p: Pool, jobs: Jobs, weather: Weather, m: State, n: State, pid: Pid, act: Action)
    requires p.Valid() && Leads(p, jobs, weather, m, n) && StepEndures(p, weather, n, (pid, act))
    ensures Leads(p, jobs, weather, m, Do(p, jobs, n, pid, act))
  {
    hide Sound, Do, StepEndures;
    var sched :| Endures(p, jobs, weather, m, sched) && Exec(p, jobs, m, sched) == n;
    var longer := sched + [(pid, act)];
    assert longer[..|sched|] == sched;
    assert Exec(p, jobs, m, longer) == Do(p, jobs, n, pid, act);
    forall k | 0 <= k < |longer| ensures StepEndures(p, weather, Exec(p, jobs, m, longer[..k]), longer[k]) {
      if k < |sched| {
        assert longer[..k] == sched[..k] && longer[k] == sched[k];
      }
    }
  }

  // ---------- one process runs to its end ----------

  // The failures met so far are not over: what still lies ahead of the process is
  // what its failures have left for it.
  predicate OnTrack(p: Pool, pc: Pc, faults: Faults)
  {
    match pc
    case Created(ip) => faults.At(p.text.show(ip)) != Some(OpenFails)
    case Written(ip) => PastWrite(faults.At(p.text.show(ip)))
    case CursorOpen(ip) => PastClose(faults.At(p.text.show(ip)))
    case _ => true
  }

  // A bound on the steps that are left.
  function Left(p: Pool, files: map<string, string>, pc: Pc): (r: int)
  {
    match pc
    case Locked => 10 + p.Range().Size() + 2 * |files|
    case Scanning(cur, stop) => 5 + p.Range().Dist(cur, stop)
    case Trying(_) => 4
    case Created(_) => 3
    case Written(_) => 2
    case CursorOpen(_) => 1
    case Walking(todo) => 1 + 2 * |todo|
    case Matched(_, todo) => 2 + 2 * |todo|
    case _ => 0
  }

  // What the process does next if it meets its failures.
  ghost function Next(p: Pool, pc: Pc, faults: Faults): (act: Action)
    requires OnTrack(p, pc, faults)
  {
    match pc
    case Locked => if faults.cursorUnreadable then CursorUnreadable else Go
    case Scanning(cur, stop) =>
      if cur != stop && !p.IsGateway(cur) && faults.At(p.Name(cur)) == Some(OpenFails) then Fails(OpenFails) else Go
    case Trying(ip) => if faults.At(p.text.Of(ip)) == Some(OpenFails) then Fails(OpenFails) else Go
    case Created(ip) =>
      if PastWrite(faults.At(p.text.show(ip))) then Go else Fails(faults.At(p.text.show(ip)).value)
    case Written(ip) =>
      if PastClose(faults.At(p.text.show(ip))) then Go else Fails(faults.At(p.text.show(ip)).value)
    case CursorOpen(ip) =>
      if faults.At(p.text.show(ip)) == None then Go else Fails(faults.At(p.text.show(ip)).value)
    case Walking(todo) =>
      if todo == {} then Go
      else
        var name :| name in todo;
        Look(name)
    case Matched(name, _) => if name in faults.stuck then Skip(name) else Go
    case _ => Go
  }

  lemma NextMeets(p: Pool, pc: Pc, faults: Faults)
    requires OnTrack(p, pc, faults)
    ensures Meets(p, pc, Next(p, pc, faults), faults)
  {
    hide Pool.IsGateway, Pool.Name;
  }

  ghost predicate Closer(p: Pool, files: map<string, string>, pc: Pc, l: Local, faults: Faults)
  {
    OnTrack(p, l.pc, faults) && 0 <= Left(p, l.files, l.pc) < Left(p, files, pc)
  }

  lemma NextIsCloser(p: Pool, pid: Pid, job: Op, files: map<string, string>, log: seq<Event>, pc: Pc, faults: Faults)
    requires p.Valid() && Inside(pc) && !pc.Unlocking? && LocalOk(p, job, files, log, pc) && OnTrack(p, pc, faults)
    ensures Closer(p, files, pc, Advance(p, pid, job, files, pc, Next(p, pc, faults)), faults)
  {
    hide Sound, Advance, Next, OnTrack, Closer, UnderWay, Left, Pool.Has;
    match pc {
      case Locked => LockedIsCloser(p, pid, job, files, faults);
      case Scanning(cur, stop) => ScanIsCloser(p, pid, job, files, cur, stop, faults);
      case Trying(ip) => TryIsCloser(p, pid, job, files, ip, faults);
      case Walking(todo) => WalkingIsCloser(p, pid, job, files, todo, faults);
      case Matched(name, todo) => MatchedIsCloser(p, pid, job, files, name, todo, faults);
      case Created(ip) => CreatedIsCloser(p, pid, job, files, ip, faults);
      case Written(ip) => WrittenIsCloser(p, pid, job, files, ip, faults);
      case CursorOpen(ip) => CursorOpenIsCloser(p, pid, job, files, ip, faults);
    }
  }

  lemma LockedIsCloser(p: Pool, pid: Pid, job: Op, files: map<string, string>, faults: Faults)
    requires p.Valid()
    ensures Closer(p, files, Locked, Advance(p, pid, job, files, Locked, Next(p, Locked, faults)), faults)
  {
    hide Sound, Enter, Closer, Create;
    EnterIsCloser(p, job, files, Next(p, Locked, faults), faults);
  }

  lemma ScanIsCloser(p: Pool, pid: Pid, job: Op, files: map<string, string>, cur: int, stop: int, faults: Faults)
    requires p.Valid() && p.Has(cur) && p.Has(stop)
    ensures var pc := Scanning(cur, stop);
            Closer(p, files, pc, Advance(p, pid, job, files, pc, Next(p, pc, faults)), faults)
  {
    hide Sound, Enter, Create, Pool.Key, Pool.Name, Pool.IsGateway;
    if cur != stop {
      NextInRing(p, cur);
      p.KeysAreDistinct(cur, cur);
      CreateIsCloser(p, files, p.Key(cur), Scanning(p.Range().Next(cur), stop), faults);
    }
  }

  lemma TryIsCloser(p: Pool, pid: Pid, job: Op, files: map<string, string>, ip: IP, faults: Faults)
    requires p.Valid()
    ensures Closer(p, files, Trying(ip), Advance(p, pid, job, files, Trying(ip), Next(p, Trying(ip), faults)), faults)
  {
    hide Sound, Enter, Create;
    CreateIsCloser(p, files, ip, Unlocking(Refused(NotAvailable)), faults);
  }

  lemma CreatedIsCloser(p: Pool, pid: Pid, job: Op, files: map<string, string>, ip: IP, faults: Faults)
    requires p.Valid() && OnTrack(p, Created(ip), faults)
    ensures var pc := Created(ip);
            Closer(p, files, pc, Advance(p, pid, job, files, pc, Next(p, pc, faults)), faults)
  {
    hide Sound, Enter, Create;
  }

  lemma WrittenIsCloser(p: Pool, pid: Pid, job: Op, files: map<string, string>, ip: IP, faults: Faults)
    requires p.Valid() && OnTrack(p, Written(ip), faults)
    ensures var pc := Written(ip);
            Closer(p, files, pc, Advance(p, pid, job, files, pc, Next(p, pc, faults)), faults)
  {
    hide Sound, Enter, Create;
  }

  lemma CursorOpenIsCloser(p: Pool, pid: Pid, job: Op, files: map<string, string>, ip: IP, faults: Faults)
    requires p.Valid() && OnTrack(p, CursorOpen(ip), faults)
    ensures var pc := CursorOpen(ip);
            Closer(p, files, pc, Advance(p, pid, job, files, pc, Next(p, pc, faults)), faults)
  {
    hide Sound, Enter, Create;
  }

  lemma WalkingIsCloser(p: Pool, pid: Pid, job: Op, files: map<string, string>, todo: set<string>, faults: Faults)
    requires p.Valid()
    ensures var pc := Walking(todo);
            Closer(p, files, pc, Advance(p, pid, job, files, pc, Next(p, pc, faults)), faults)
  {
    hide Sound, Enter, Create;
    if todo != {} {
      var name := Next(p, Walking(todo), faults).name;
      assert name in todo && |todo - {name}| == |todo| - 1;
    }
  }

  lemma MatchedIsCloser(p: Pool, pid: Pid, job: Op, files: map<string, string>, name: string, todo: set<string>,
                        faults: Faults)
    requires p.Valid()
    ensures var pc := Matched(name, todo);
            Closer(p, files, pc, Advance(p, pid, job, files, pc, Next(p, pc, faults)), faults)
  {
    hide Sound, Enter, Create;
  }

  lemma EnterIsCloser(p: Pool, job: Op, files: map<string, string>, act: Action, faults: Faults)
    requires p.Valid()
    ensures Closer(p, files, Locked, Enter(p, job, files, act), faults)
  {
    hide Sound, Pool.Cursor, RangeError, Equal, Canon;
    p.CursorInRing(Disk(files), NO_FAULTS.(cursorUnreadable := act == CursorUnreadable));
    assert |files.Keys| == |files|;
  }

  lemma CreateIsCloser(p: Pool, files: map<string, string>, ip: IP, otherwise: Pc, faults: Faults)
    ensures var l := Create(p, files, ip, otherwise);
            || l.pc == otherwise
            || (l.pc.Created? && (faults.At(p.text.Of(ip)) != Some(OpenFails) ==> OnTrack(p, l.pc, faults)))
  {
  }

  // The holder of the lock can run on, meeting the failures that lie ahead of it,
  // until it has its result and has given the lock back.
  lemma {:induction false} HolderFinishes(p: Pool, jobs: Jobs, weather: Weather, m: State, n: State, pid: Pid)
    returns (n': State)
    requires p.Valid() && Leads(p, jobs, weather, m, n) && Inv(p, jobs, n)
    requires n.lock == Some(pid) && pid in n.pcs && Inside(n.pcs[pid]) && OnTrack(p, n.pcs[pid], weather(pid))
    ensures Leads(p, jobs, weather, m, n') && Inv(p, jobs, n') && n'.lock == None && n'.order == n.order
    ensures pid in n'.pcs && n'.pcs[pid].Done? && n'.pcs == n.pcs[pid := n'.pcs[pid]]
    ensures InRing(p, n.pcs[pid])
            && Finish(p, jobs[pid], n.files, n.pcs[pid], weather(pid)) == (Disk(n'.files), n'.pcs[pid].result)
    decreases Left(p, n.files, n.pcs[pid])
  {
    hide Sound, Advance, LocalOk, FilesOk, Legal, Leads, Next, OnTrack, Left, Finish, Meets, Over;
    var pc := n.pcs[pid];
    InRingOf(p, jobs[pid], n.files, n.log, pc);
    if pc.Unlocking? {
      UnlockingIsOver(p, jobs[pid], n.files, pc.result, weather(pid));
      UnlockEndures(p, weather, n, pid);
      LeadsOn(p, jobs, weather, m, n, pid, Go);
      DoKeepsInv(p, jobs, n, pid, Go);
      n' := Do(p, jobs, n, pid, Go);
    } else {
      var act := Next(p, pc, weather(pid));
      NextMeets(p, pc, weather(pid));
      NextIsCloser(p, pid, jobs[pid], n.files, n.log, pc, weather(pid));
      NeverStops(p, pc, act, weather(pid));
      AdvanceFinishes(p, pid, jobs[pid], n.files, n.log, pc, act, weather(pid));
      AdvanceInside(p, pid, jobs[pid], n.files, n.log, pc, act);
      LeadsOn(p, jobs, weather, m, n, pid, act);
      DoKeepsInv(p, jobs, n, pid, act);
      n' := HolderFinishes(p, jobs, weather, m, Do(p, jobs, n, pid, act), pid);
    }
  }

  lemma InRingOf(p: Pool, job: Op, files: map<string, string>, log: seq<Event>, pc: Pc)
    requires LocalOk(p, job, files, log, pc)
    ensures InRing(p, pc)
  {
  }

  lemma UnlockEndures(p: Pool, weather: Weather, n: State, pid: Pid)
    requires pid in n.pcs && n.pcs[pid].Unlocking?
    ensures StepEndures(p, weather, n, (pid, Go))
  {
  }

  lemma NeverStops(p: Pool, pc: Pc, act: Action, faults: Faults)
    requires Meets(p, pc, act, faults)
    ensures act != Crash && act != LockFails
  {
  }

  // A process that has not started can take the free lock and do its whole
  // operation, with the failures it is to meet.
  lemma IdleFinishes(p: Pool, jobs: Jobs, weather: Weather, m: State, n: State, pid: Pid) returns (n': State)
    requires p.Valid() && Leads(p, jobs, weather, m, n) && Inv(p, jobs, n)
    requires n.lock == None && pid in n.pcs && n.pcs[pid].Idle?
    ensures Leads(p, jobs, weather, m, n') && Inv(p, jobs, n') && n'.lock == None && n'.order == n.order + [pid]
    ensures pid in n'.pcs && n'.pcs[pid].Done? && n'.pcs == n.pcs[pid := n'.pcs[pid]]
    ensures StepUnder(p, Disk(n.files), jobs[pid], weather(pid)) == (Disk(n'.files), n'.pcs[pid].result)
  {
    hide Sound, Advance, LocalOk, FilesOk, Legal, Leads, Finish, StepUnder;
    LeadsOn(p, jobs, weather, m, n, pid, Go);
    DoKeepsInv(p, jobs, n, pid, Go);
    LockedIsStep(p, jobs[pid], n.files, weather(pid));
    n' := HolderFinishes(p, jobs, weather, m, Do(p, jobs, n, pid, Go), pid);
  }

  // ---------- the lock never outlives its holder ----------

  ghost predicate LockIsAlive(m: State)
  {
    m.lock.Some? ==> m.lock.value in m.pcs && Inside(m.pcs[m.lock.value])
  }

  lemma DoKeepsLockAlive(p: Pool, jobs: Jobs, m: State, pid: Pid, act: Action)
    requires p.Valid() && JobsMatch(jobs, m) && LockIsAlive(m)
    ensures LockIsAlive(Do(p, jobs, m, pid, act))
  {
    hide Sound, Advance, RightJob;
    if pid in jobs && Inside(m.pcs[pid]) && !m.pcs[pid].Unlocking? {
      AdvanceLogs(p, pid, jobs[pid], m.files, m.pcs[pid], act);
    }
  }

  // Whatever fails or crashes, the lock is held only by a process that is inside
  // its operation: whoever ends or dies gives it back.
  lemma {:induction false} LockStaysAlive(p: Pool, jobs: Jobs, files: map<string, string>, sched: Schedule)
    requires p.Valid()
    ensures LockIsAlive(Exec(p, jobs, Init(jobs, files), sched))
    decreases |sched|
  {
    hide Sound, Do, JobsMatch, Accounted, LockIsAlive;
    if sched == [] {
      assert LockIsAlive(Init(jobs, files)) by {
        NobodyHolds(jobs, files);
      }
    } else {
      var before, last := sched[..|sched| - 1], sched[|sched| - 1];
      LockStaysAlive(p, jobs, files, before);
      ExecKeepsAccounts(p, jobs, files, before);
      DoKeepsLockAlive(p, jobs, Exec(p, jobs, Init(jobs, files), before), last.0, last.1);
    }
  }

  lemma NobodyHolds(jobs: Jobs, files: map<string, string>)
    ensures LockIsAlive(Init(jobs, files))
  {
  }

  // ---------- the theorems ----------

  // The converse of serializability: for any processes in any order and any
  // failures for each of them, there is a run in which they pass flock in this
  // order, meet exactly these failures, and all finish.
  lemma SerialRunsHappen(p: Pool, jobs: Jobs, weather: Weather, files: map<string, string>, order: seq<Pid>)
    requires p.Valid() && Jobbed(jobs, order) && forall i, j :: 0 <= i < j < |order| ==> order[i] != order[j]
    ensures exists sched ::
              && Endures(p, jobs, weather, Init(jobs, files), sched)
              && AllDone(Exec(p, jobs, Init(jobs, files), sched), order)
  {
    hide Sound, Endures, Exec, Leads, AllDone;
    var n := RunInOrder(p, jobs, weather, files, order);
    LeadsBySchedule(p, jobs, weather, Init(jobs, files), n);
  }

  ghost predicate AllDone(m: State, order: seq<Pid>)
  {
    && m.order == order && m.lock == None
    && forall k :: 0 <= k < |order| ==> order[k] in m.pcs && m.pcs[order[k]].Done?
  }

  lemma LeadsBySchedule(p: Pool, jobs: Jobs, weather: Weather, m: State, n: State)
    requires p.Valid() && Leads(p, jobs, weather, m, n)
    ensures exists sched :: Endures(p, jobs, weather, m, sched) && Exec(p, jobs, m, sched) == n
  {
    hide Sound, Endures, Exec;
  }

  lemma {:induction false} RunInOrder(p: Pool, jobs: Jobs, weather: Weather, files: map<string, string>,
                                      order: seq<Pid>)
    returns (n: State)
    requires p.Valid() && Jobbed(jobs, order) && forall i, j :: 0 <= i < j < |order| ==> order[i] != order[j]
    ensures Leads(p, jobs, weather, Init(jobs, files), n) && Inv(p, jobs, n) && AllDone(n, order)
    ensures forall pid :: pid in jobs && pid !in order ==> n.pcs[pid].Idle?
    decreases |order|
  {
    hide Sound, Leads, StepUnder, FilesOk, Legal, LocalOk;
    if order == [] {
      n := Init(jobs, files);
      LeadsNowhere(p, jobs, weather, n);
      InitOk(p, jobs, files);
    } else {
      var before, last := order[..|order| - 1], order[|order| - 1];
      assert order == before + [last];
      var m := RunInOrder(p, jobs, weather, files, before);
      n := IdleFinishes(p, jobs, weather, Init(jobs, files), m, last);
    }
  }

  // No process is shut out: from every state that is reached without a failed
  // flock, whatever else failed or crashed, every process that has not crashed can
  // come to its result, without anything further failing.
  lemma AnyoneCanFinish(p: Pool, jobs: Jobs, files: map<string, string>, sched: Schedule, pid: Pid)
    requires p.Valid() && FlockWorks(sched)
    requires var m := Exec(p, jobs, Init(jobs, files), sched); pid in m.pcs && m.pcs[pid] != Crashed
    ensures var m := Exec(p, jobs, Init(jobs, files), sched);
            exists rest :: Endures(p, jobs, FAIR, m, rest) && HasResult(Exec(p, jobs, m, rest), pid)
  {
    hide Sound, Exec, Endures, Leads, FilesOk, Legal, LocalOk, Finish, StepUnder;
    var m := Exec(p, jobs, Init(jobs, files), sched);
    ExecKeepsInv(p, jobs, files, sched);
    LockStaysAlive(p, jobs, files, sched);
    LeadsNowhere(p, jobs, FAIR, m);
    var n := m;
    if m.lock.Some? {
      n := HolderFinishes(p, jobs, FAIR, m, n, m.lock.value);
    }
    if n.pcs[pid].Idle? {
      n := IdleFinishes(p, jobs, FAIR, m, n, pid);
    }
    assert HasResult(n, pid);
    LeadsBySchedule(p, jobs, FAIR, m, n);
  }

  predicate HasResult(m: State, pid: Pid)
  {
    pid in m.pcs && m.pcs[pid].Done?
  }

  // What others may read: a file that is being written can hold anything. Here an
  // ADD asks for a free address, and its file is seen with any content.
  lemma PartialContentHappens(p: Pool, jobs: Jobs, files: map<string, string>, pid: Pid, x: int, content: string)
    requires p.Valid() && Canon(p.gw) == p.gw && p.Has(x) && !p.IsGateway(x) && p.Name(x) !in files
    requires pid in jobs && jobs[pid].Ask? && jobs[pid].ip == p.Key(x)
    ensures exists sched ::
              && Endures(p, jobs, FAIR, Init(jobs, files), sched)
              && Exec(p, jobs, Init(jobs, files), sched).files == files[p.Name(x) := content]
  {
    hide Sound, Pool.Key, Leads, Exec, Endures, Pool.Name, Pool.IsGateway, Do, Canon;
    var m := Init(jobs, files);
    LeadsNowhere(p, jobs, FAIR, m);
    var n := ComesToTry(p, jobs, m, m, pid, x);
    n := ComesToCreate(p, jobs, m, n, pid, x);
    n := WritesPart(p, jobs, m, n, pid, x, content);
    assert n.files == files[p.Name(x) := content];
    LeadsBySchedule(p, jobs, FAIR, m, n);
  }

  lemma ComesToTry(p: Pool, jobs: Jobs, m: State, n: State, pid: Pid, x: int) returns (n': State)
    requires p.Valid() && Canon(p.gw) == p.gw && p.Has(x) && !p.IsGateway(x) && Leads(p, jobs, FAIR, m, n)
    requires pid in jobs && jobs[pid].Ask? && jobs[pid].ip == p.Key(x)
    requires n.lock == None && pid in n.pcs && n.pcs[pid].Idle?
    ensures Leads(p, jobs, FAIR, m, n') && pid in n'.pcs && n'.pcs[pid] == Trying(p.Key(x)) && n'.files == n.files
  {
    hide Sound, RangeError, Pool.Key, Equal, Canon, Leads, Create;
    var ip := p.Key(x);
    p.KeyInRange(x);
    p.KeyIsAccepted(x);
    EqualIsSameCanon(p.gw, ip);
    assert ip != NIL;
    LeadsOn(p, jobs, FAIR, m, n, pid, Go);
    var n1 := Do(p, jobs, n, pid, Go);
    LeadsOn(p, jobs, FAIR, m, n1, pid, Go);
    n' := Do(p, jobs, n1, pid, Go);
  }

  lemma ComesToCreate(p: Pool, jobs: Jobs, m: State, n: State, pid: Pid, x: int) returns (n': State)
    requires p.Valid() && p.Has(x) && p.Name(x) !in n.files && Leads(p, jobs, FAIR, m, n)
    requires pid in jobs && pid in n.pcs && n.pcs[pid] == Trying(p.Key(x))
    ensures Leads(p, jobs, FAIR, m, n') && pid in n'.pcs && n'.pcs[pid] == Created(p.Key(x))
    ensures n'.files == n.files[p.Name(x) := ""]
  {
    hide Sound, Pool.Key, Canon, Leads, Enter, IsAddress;
    p.KeyInRange(x);
    p.KeysAreDistinct(x, x);
    LeadsOn(p, jobs, FAIR, m, n, pid, Go);
    n' := Do(p, jobs, n, pid, Go);
  }

  lemma WritesPart(p: Pool, jobs: Jobs, m: State, n: State, pid: Pid, x: int, content: string) returns (n': State)
    requires p.Valid() && Leads(p, jobs, FAIR, m, n)
    requires pid in jobs && pid in n.pcs && n.pcs[pid] == Created(p.Key(x))
    ensures Leads(p, jobs, FAIR, m, n') && n'.files == n.files[p.Name(x) := content]
  {
    hide Sound, Pool.Key, Leads, Enter, Create;
    LeadsOn(p, jobs, FAIR, m, n, pid, PartialWrite(content));
    n' := Do(p, jobs, n, pid, PartialWrite(content));
  }
}
