/** host-local as it runs: any number of ADD and DEL processes on one directory,
    interleaved system call by system call, each of which may fail or be the last
    thing its process does. plugins/ipam/host-local/allocator.go (Get, Release),
    backend/disk/backend.go and backend/disk/lock.go. */
module Protocol {
  import opened Common
  import opened Addresses
  import opened Ranges
  import opened Rings
  import opened Stores
  import opened Allocator
  import opened AllocationRuns

  type Pid = nat

  // Where a process is. From Locked to Unlocking it is inside Get or Release;
  // the names tell which system call comes next.
  datatype Pc =
    | Idle                                        // flock
    | Locked                                      // read the cursor, check the request, or list the directory
    | Scanning(cur: int, stop: int)               // exclusive creation of cur's file
    | Trying(ip: IP)                              // exclusive creation of the requested file
    | Created(ip: IP)                             // write the id
    | Written(ip: IP)                             // close, then open and truncate the cursor file
    | CursorOpen(ip: IP)                          // write the cursor
    | Walking(todo: set<string>)                  // read the next file of the directory
    | Matched(name: string, todo: set<string>)    // remove it
    | Unlocking(result: Outcome)                  // release the lock
    | Done(result: Outcome)
    | Crashed

  // What can happen at a process's next step: it goes through (a release also
  // picks the file it reads), or fails in one of the ways of its system call.
  datatype Action =
    | Go
    | Look(name: string)
    | Skip(name: string)
    | CursorUnreadable
    | Fails(fault: Fault)
    | PartialWrite(content: string)
    | LockFails
    | Crash

  // Reservations made and files removed, in the order in which it happened.
  datatype Event =
    | Allocated(pid: Pid, id: string, name: string)
    | Removed(pid: Pid, id: string, name: string)

  // order lists the processes as they passed flock.
  datatype State = State(files: map<string, string>, lock: Option<Pid>, pcs: map<Pid, Pc>,
                         log: seq<Event>, order: seq<Pid>)

  type Jobs = map<Pid, Op>

  function Init(jobs: Jobs, files: map<string, string>): (r: State)
  {
    State(files, None, map pid | pid in jobs :: Idle, [], [])
  }

  // ---------- one process inside Get or Release ----------

  datatype Local = Local(files: map<string, string>, pc: Pc, events: seq<Event>)

  function Moved(files: map<string, string>, pc: Pc): (r: Local)
  {
    Local(files, pc, [])
  }

  function Failed(files: map<string, string>): (r: Local)
  {
    Moved(files, Unlocking(Refused(StoreFailed)))
  }

  // open(O_EXCL|O_CREATE): creates an empty file, or finds one.
  function Create(p: Pool, files: map<string, string>, ip: IP, otherwise: Pc): (r: Local)
  {
    var name := p.text.Of(ip);
    if name in files then Moved(files, otherwise) else Moved(files[name := ""], Created(Canon(ip)))
  }

  function Enter(p: Pool, job: Op, files: map<string, string>, act: Action): (r: Local)
    requires Sound(p.net, p.start, p.end)
  {
    match job
    case Drop(_) => Moved(files, Walking(files.Keys))
    case Ask(_, ip) =>
      if ip != NIL then
        if Equal(p.gw, ip) then Moved(files, Unlocking(Refused(GatewayRequested)))
        else if RangeError(ip, p.net, p.start, p.end).Some? then
          Moved(files, Unlocking(Refused(RangeError(ip, p.net, p.start, p.end).value)))
        else Moved(files, Trying(ip))
      else
        var c := p.Cursor(Disk(files), NO_FAULTS.(cursorUnreadable := act == CursorUnreadable));
        Moved(files, Scanning(p.Range().Next(c), c))
  }

  // The next step of a process that is past flock, for each way it can end; an
  // action that the step does not have leaves everything as it is.
  function Advance(p: Pool, pid: Pid, job: Op, files: map<string, string>, pc: Pc, act: Action): (r: Local)
    requires Sound(p.net, p.start, p.end)
  {
    match pc
    case Locked =>
      if act == Go || act == CursorUnreadable then Enter(p, job, files, act) else Moved(files, pc)
    case Scanning(cur, stop) =>
      if act == Go then
        if cur == stop then Moved(files, Unlocking(Refused(Exhausted)))
        else if p.IsGateway(cur) then Moved(files, Scanning(p.Range().Next(cur), stop))
        else Create(p, files, p.Key(cur), Scanning(p.Range().Next(cur), stop))
      else if act == Fails(OpenFails) && cur != stop && !p.IsGateway(cur) then Failed(files)
      else Moved(files, pc)
    case Trying(ip) =>
      if act == Go then Create(p, files, ip, Unlocking(Refused(NotAvailable)))
      else if act == Fails(OpenFails) then Failed(files)
      else Moved(files, pc)
    case Created(ip) =>
      var name := p.text.show(ip);
      if act == Go then Moved(files[name := job.id], Written(ip))
      else if act.PartialWrite? then Moved(files[name := act.content], pc)
      else if act.Fails? && act.fault.WriteFails? then
        match act.fault.partial
        case None => Failed(files - {name})
        case Some(content) => Failed(files[name := content])
      else Moved(files, pc)
    case Written(ip) =>
      if act == Go then Moved(files[LAST_IP_FILE := ""], CursorOpen(ip))
      else if act == Fails(CloseFails(true)) || act == Fails(CursorFails(None)) then Failed(files)
      else if act == Fails(CloseFails(false)) then Failed(files - {p.text.show(ip)})
      else Moved(files, pc)
    case CursorOpen(ip) =>
      var name := p.text.show(ip);
      if act == Go then Local(files[LAST_IP_FILE := name], Unlocking(Gave(ip)), [Allocated(pid, job.id, name)])
      else if act.Fails? && act.fault.CursorFails? && act.fault.cursor.Some? then
        Failed(files[LAST_IP_FILE := act.fault.cursor.value])
      else Moved(files, pc)
    case Walking(todo) =>
      if act == Go && todo == {} then Moved(files, Unlocking(Dropped))
      else if act.Look? && act.name in todo then
        if act.name in files && files[act.name] == job.id then Moved(files, Matched(act.name, todo - {act.name}))
        else Moved(files, Walking(todo - {act.name}))
      else if act.Skip? then Moved(files, Walking(todo - {act.name}))
      else Moved(files, pc)
    case Matched(name, todo) =>
      if act == Go then Local(files - {name}, Walking(todo), [Removed(pid, job.id, name)])
      else if act == Skip(name) then Moved(files, Walking(todo))
      else Moved(files, pc)
    case _ => Moved(files, pc)
  }

  // ---------- all processes ----------

  predicate Inside(pc: Pc)
  {
    !pc.Idle? && !pc.Done? && !pc.Crashed?
  }

  function Unlocked(m: State, pid: Pid): (r: Option<Pid>)
  {
    if m.lock == Some(pid) then None else m.lock
  }

  // One step of the system: process pid does act. The lock goes to one process at
  // a time and comes back when its holder unlocks it or dies; a failed flock is
  // ignored, as Get and Release ignore it.
  function Do(p: Pool, jobs: Jobs, m: State, pid: Pid, act: Action): (r: State)
    requires Sound(p.net, p.start, p.end)
  {
    if pid !in m.pcs || pid !in jobs then m
    else
      var pc := m.pcs[pid];
      if act == Crash then
        if pc.Done? then m else m.(pcs := m.pcs[pid := Crashed], lock := Unlocked(m, pid))
      else if pc.Idle? then
        if act == LockFails then m.(pcs := m.pcs[pid := Locked], order := m.order + [pid])
        else if act == Go && m.lock == None then
          m.(pcs := m.pcs[pid := Locked], lock := Some(pid), order := m.order + [pid])
        else m
      else if pc.Unlocking? then
        if act == Go then m.(pcs := m.pcs[pid := Done(pc.result)], lock := Unlocked(m, pid)) else m
      else if !Inside(pc) then m
      else
        var l := Advance(p, pid, jobs[pid], m.files, pc, act);
        m.(files := l.files, pcs := m.pcs[pid := l.pc], log := m.log + l.events)
  }

  type Schedule = seq<(Pid, Action)>

  function Exec(p: Pool, jobs: Jobs, m: State, sched: Schedule): (r: State)
    requires Sound(p.net, p.start, p.end)
    decreases |sched|
  {
    hide Sound;
    if sched == [] then m
    else
      var last := sched[|sched| - 1];
      Do(p, jobs, Exec(p, jobs, m, sched[..|sched| - 1]), last.0, last.1)
  }

  predicate FlockWorks(sched: Schedule)
  {
    forall k :: 0 <= k < |sched| ==> sched[k].1 != LockFails
  }

  // ---------- the log ----------

  // Who holds a name according to the log.
  function Holder(log: seq<Event>, name: string): (r: Option<string>)
  {
    if log == [] then None
    else
      var last := log[|log| - 1];
      if last.name != name then Holder(log[..|log| - 1], name)
      else if last.Allocated? then Some(last.id) else None
  }

  // No name is allocated while it has a holder, or removed for another id.
  predicate Legal(log: seq<Event>)
  {
    log == [] ||
    var init, last := log[..|log| - 1], log[|log| - 1];
    && Legal(init)
    && (last.Allocated? ==> Holder(init, last.name) == None)
    && (last.Removed? ==> Holder(init, last.name) in {None, Some(last.id)})
  }

  // Two allocations of one name have, between them, a removal for the first's id.
  ghost predicate NoDoubleAllocation(log: seq<Event>)
  {
    forall i, j :: 0 <= i < j < |log| && log[i].Allocated? && log[j].Allocated? && log[i].name == log[j].name ==>
      exists k :: i < k < j && log[k].Removed? && log[k].name == log[i].name && log[k].id == log[i].id
  }

  lemma {:induction false} RemovedSince(log: seq<Event>, i: nat)
    requires Legal(log) && i < |log| && log[i].Allocated?
    ensures Holder(log, log[i].name) == Some(log[i].id)
            || exists k :: i < k < |log| && log[k].Removed? && log[k].name == log[i].name && log[k].id == log[i].id
  {
    if i < |log| - 1 {
      var init := log[..|log| - 1];
      assert init[i] == log[i];
      RemovedSince(init, i);
      if k :| i < k < |init| && init[k].Removed? && init[k].name == log[i].name && init[k].id == log[i].id {
        assert log[k] == init[k];
      }
    }
  }

  lemma {:induction false} LegalPrefix(log: seq<Event>, j: nat)
    requires Legal(log) && j < |log|
    ensures Legal(log[..j + 1]) && log[..j + 1][..j] == log[..j]
  {
    if j == |log| - 1 {
      assert log[..j + 1] == log;
    } else {
      assert log[..|log| - 1][..j + 1] == log[..j + 1];
      LegalPrefix(log[..|log| - 1], j);
    }
  }

  lemma LegalMeansNoDouble(log: seq<Event>)
    requires Legal(log)
    ensures NoDoubleAllocation(log)
  {
    forall i, j | 0 <= i < j < |log| && log[i].Allocated? && log[j].Allocated? && log[i].name == log[j].name
      ensures exists k :: i < k < j && log[k].Removed? && log[k].name == log[i].name && log[k].id == log[i].id
    {
      LegalPrefix(log, j);
      var before := log[..j];
      assert before == log[..j + 1][..|log[..j + 1]| - 1];
      assert before[i] == log[i];
      RemovedSince(before, i);
      var k :| i < k < |before| && before[k].Removed? && before[k].name == log[i].name && before[k].id == log[i].id;
      assert log[k] == before[k];
    }
  }
}
