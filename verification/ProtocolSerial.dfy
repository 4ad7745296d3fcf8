/** Every interleaving without crashes, in which each process meets its own
    failures, gives the results and leaves the directory that the operations give
    when run one at a time with the same failures, in the order in which they
    passed flock. */
module ProtocolSerial {
  import opened Common
  import opened Addresses
  import opened Ranges
  import opened Subnets
  import opened Rings
  import opened Stores
  import opened Allocator
  import opened AllocationLaws
  import opened AllocationRuns
  import opened Protocol
  import opened ProtocolSafety

  // ---------- the serial run ----------

  // The failures of each process.
  type Weather = Pid -> Faults

  predicate Jobbed(jobs: Jobs, order: seq<Pid>)
  {
    forall k :: 0 <= k < |order| ==> order[k] in jobs
  }

  // The directory after the operations of the processes in order, one at a time.
  function Serial(p: Pool, jobs: Jobs, weather: Weather, files: map<string, string>, order: seq<Pid>): (r: Store)
    requires Sound(p.net, p.start, p.end) && Jobbed(jobs, order)
    decreases |order|
  {
    hide Sound;
    if order == [] then Disk(files)
    else
      var last := order[|order| - 1];
      StepUnder(p, Serial(p, jobs, weather, files, order[..|order| - 1]), jobs[last], weather(last)).0
  }

  // The result of the k-th of them.
  function ResultAt(p: Pool, jobs: Jobs, weather: Weather, files: map<string, string>, order: seq<Pid>, k: nat)
    : (r: Outcome)
    requires Sound(p.net, p.start, p.end) && Jobbed(jobs, order) && k < |order|
  {
    StepUnder(p, Serial(p, jobs, weather, files, order[..k]), jobs[order[k]], weather(order[k])).1
  }

  // ---------- a step that meets the failures of its process ----------

  predicate PastWrite(fault: Option<Fault>)
  {
    fault == None || fault.value.CloseFails? || fault.value.CursorFails?
  }

  predicate PastClose(fault: Option<Fault>)
  {
    fault == None || (fault.value.CursorFails? && fault.value.cursor.Some?)
  }

  // What can happen at a step of a process that meets exactly the given failures:
  // a system call that they name fails as they say, and any other goes through.
  predicate Meets(p: Pool, pc: Pc, act: Action, faults: Faults)
  {
    && act != Crash && act != LockFails
    && match pc
       case Locked => (act == Go ==> !faults.cursorUnreadable) && (act == CursorUnreadable ==> faults.cursorUnreadable)
       case Scanning(cur, stop) =>
         && (act == Go && cur != stop && !p.IsGateway(cur) ==> faults.At(p.Name(cur)) != Some(OpenFails))
         && (act.Fails? ==> faults.At(p.Name(cur)) == Some(act.fault))
       case Trying(ip) =>
         && (act == Go ==> faults.At(p.text.Of(ip)) != Some(OpenFails))
         && (act.Fails? ==> faults.At(p.text.Of(ip)) == Some(act.fault))
       case Created(ip) =>
         && (act == Go ==> PastWrite(faults.At(p.text.show(ip))))
         && (act.Fails? ==> faults.At(p.text.show(ip)) == Some(act.fault))
       case Written(ip) =>
         && (act == Go ==> PastClose(faults.At(p.text.show(ip))))
         && (act.Fails? ==> faults.At(p.text.show(ip)) == Some(act.fault))
       case CursorOpen(ip) =>
         && (act == Go ==> faults.At(p.text.show(ip)) == None)
         && (act.Fails? ==> faults.At(p.text.show(ip)) == Some(act.fault))
       case Walking(_) => act.Skip? ==> act.name in faults.stuck
       case Matched(name, _) => (act == Go ==> name !in faults.stuck) && (act.Skip? ==> act.name in faults.stuck)
       case _ => true
  }

  // ---------- what remains of an operation under way ----------

  function Reply(r: Result<bool, Error>, ip: IP): (result: Outcome)
  {
    match r
    case Ok(true) => Gave(Canon(ip))
    case Ok(false) => Refused(NotAvailable)
    case Err(e) => Refused(e)
  }

  // The end of a reservation whose file exists: what Reserve does without it.
  function AfterCreate(p: Pool, files: map<string, string>, id: string, ip: IP, fault: Option<Fault>)
    : (r: (Store, Outcome))
  {
    var (files', reserved) := ReserveFile(p.text, files - {p.text.show(ip)}, id, ip, fault);
    (Disk(files'), Reply(reserved, ip))
  }

  function Kept(files: map<string, string>, id: string, todo: set<string>, stuck: set<string>)
    : (r: map<string, string>)
  {
    map n | n in files && (files[n] != id || n !in todo || n in stuck) :: files[n]
  }

  function AfterWalk(files: map<string, string>, id: string, todo: set<string>, stuck: set<string>)
    : (r: (Store, Outcome))
  {
    (Disk(Kept(files, id, todo, stuck)), Dropped)
  }

  function AsOutcome(r: Result<IP, Error>): (result: Outcome)
  {
    match r case Ok(a) => Gave(a) case Err(e) => Refused(e)
  }

  predicate InRing(p: Pool, pc: Pc)
  {
    pc.Scanning? ==> p.Has(pc.cur) && p.Has(pc.stop)
  }

  // The directory and the result that the process would come to from here if it
  // ran on and met exactly these failures.
  function Finish(p: Pool, job: Op, files: map<string, string>, pc: Pc, faults: Faults): (r: (Store, Outcome))
    requires Sound(p.net, p.start, p.end) && InRing(p, pc)
  {
    match pc
    case Locked => StepUnder(p, Disk(files), job, faults)
    case Scanning(cur, stop) =>
      var (s, r) := p.Search(Disk(files), job.id, faults, cur, stop);
      (s, AsOutcome(p.Given(r)))
    case Trying(ip) =>
      var (s, r) := Reserve(p.text, Disk(files), job.id, ip, faults);
      (s, Reply(r, ip))
    case Created(ip) => AfterCreate(p, files, job.id, ip, faults.At(p.text.show(ip)))
    case Written(ip) => AfterCreate(p, files, job.id, ip, faults.At(p.text.show(ip)))
    case CursorOpen(ip) => AfterCreate(p, files, job.id, ip, faults.At(p.text.show(ip)))
    case Walking(todo) => AfterWalk(files, job.id, todo, faults.stuck)
    case Matched(name, todo) => AfterWalk(files, job.id, todo + {name}, faults.stuck)
    case Unlocking(result) => (Disk(files), result)
    case _ => (Disk(files), Dropped)
  }

  // The creation that goes through: Reserve from there on, or the next address.
  lemma CreateFinishes(p: Pool, job: Op, files: map<string, string>, ip: IP, otherwise: Pc, faults: Faults)
    requires p.Valid() && IsAddress(ip) && InRing(p, otherwise) && faults.At(p.text.Of(ip)) != Some(OpenFails)
    ensures var l := Create(p, files, ip, otherwise);
            var (s, r) := Reserve(p.text, Disk(files), job.id, ip, faults);
            && InRing(p, l.pc)
            && (r != Ok(false) ==> Finish(p, job, l.files, l.pc, faults) == (s, Reply(r, ip)))
            && (r == Ok(false) ==> s == Disk(files) && l.files == files && l.pc == otherwise)
  {
    hide Sound, Pool.Search;
    CanonIsCanonical(ip);
    NamesAreDistinct(p.text, ip, ip);
    assert p.text.Of(ip) !in files ==> files[p.text.Of(ip) := ""] - {p.text.Of(ip)} == files;
  }

  // A file that cannot be opened ends the reservation at once.
  lemma OpenFailure(p: Pool, files: map<string, string>, id: string, ip: IP, faults: Faults)
    requires faults.At(p.text.Of(ip)) == Some(OpenFails)
    ensures Reserve(p.text, Disk(files), id, ip, faults) == (Disk(files), Err(StoreFailed))
  {
  }

  // Only whether the cursor file can be read matters for the cursor.
  lemma CursorFaults(p: Pool, s: Store, faults: Faults)
    ensures p.Cursor(s, NO_FAULTS.(cursorUnreadable := faults.cursorUnreadable)) == p.Cursor(s, faults)
  {
    hide RangeError;
  }

  lemma EnterFinishes(p: Pool, job: Op, files: map<string, string>, act: Action, faults: Faults)
    requires p.Valid() && (act == Go || act == CursorUnreadable) && Meets(p, Locked, act, faults)
    ensures var l := Enter(p, job, files, act);
            InRing(p, l.pc) && Finish(p, job, l.files, l.pc, faults) == StepUnder(p, Disk(files), job, faults)
  {
    hide Sound, Pool.Cursor, Pool.Search, Pool.Has, Reserve, RangeError, Equal;
    match job {
      case Drop(id) =>
        assert Without(files, id, faults.stuck) == Kept(files, id, files.Keys, faults.stuck);
      case Ask(id, ip) =>
        CursorFaults(p, Disk(files), faults);
        p.CursorInRing(Disk(files), faults);
        p.SearchStarts(Disk(files), id, faults);
    }
  }

  predicate SameFinish(p: Pool, job: Op, files: map<string, string>, pc: Pc, l: Local, faults: Faults)
    requires Sound(p.net, p.start, p.end) && InRing(p, pc)
  {
    InRing(p, l.pc) && Finish(p, job, l.files, l.pc, faults) == Finish(p, job, files, pc, faults)
  }

  lemma ScanFinishes(p: Pool, pid: Pid, job: Op, files: map<string, string>, cur: int, stop: int, act: Action,
                     faults: Faults)
    requires p.Valid() && p.Has(cur) && p.Has(stop) && Meets(p, Scanning(cur, stop), act, faults)
    ensures SameFinish(p, job, files, Scanning(cur, stop),
                       Advance(p, pid, job, files, Scanning(cur, stop), act), faults)
  {
    hide Sound, Reserve, Create, Enter, Pool.Key, AfterCreate, StepUnder;
    if cur != stop {
      p.KeyInRange(cur);
      NextInRing(p, cur);
      if faults.At(p.Name(cur)) == Some(OpenFails) {
        OpenFailure(p, files, job.id, p.Key(cur), faults);
      } else {
        CreateFinishes(p, job, files, p.Key(cur), Scanning(p.Range().Next(cur), stop), faults);
      }
    }
  }

  lemma TryFinishes(p: Pool, pid: Pid, job: Op, files: map<string, string>, ip: IP, act: Action, faults: Faults)
    requires p.Valid() && IsAddress(ip) && Meets(p, Trying(ip), act, faults)
    ensures SameFinish(p, job, files, Trying(ip), Advance(p, pid, job, files, Trying(ip), act), faults)
  {
    hide Sound, Reserve, Create, Enter;
    if faults.At(p.text.Of(ip)) == Some(OpenFails) {
      OpenFailure(p, files, job.id, ip, faults);
    } else {
      CreateFinishes(p, job, files, ip, Unlocking(Refused(NotAvailable)), faults);
    }
  }

  lemma Rewritten(files: map<string, string>, name: string, content: string)
    ensures files[name := content] - {name} == files - {name}
    ensures (files - {name})[name := content] == files[name := content]
  {
  }

  lemma CreatedFinishes(p: Pool, pid: Pid, job: Op, files: map<string, string>, log: seq<Event>, ip: IP, act: Action,
                        faults: Faults)
    requires p.Valid() && LocalOk(p, job, files, log, Created(ip)) && Meets(p, Created(ip), act, faults)
    ensures SameFinish(p, job, files, Created(ip), Advance(p, pid, job, files, Created(ip), act), faults)
  {
    hide Sound, Create, Enter, Holder, Pool.Search, StepUnder;
    var name := p.text.show(ip);
    match act {
      case Go => Rewritten(files, name, job.id);
      case PartialWrite(content) => Rewritten(files, name, content);
      case Fails(WriteFails(Some(content))) => Rewritten(files, name, content);
      case _ =>
    }
  }

  lemma WrittenFinishes(p: Pool, pid: Pid, job: Op, files: map<string, string>, log: seq<Event>, ip: IP, act: Action,
                        faults: Faults)
    requires p.Valid() && LocalOk(p, job, files, log, Written(ip)) && Meets(p, Written(ip), act, faults)
    ensures SameFinish(p, job, files, Written(ip), Advance(p, pid, job, files, Written(ip), act), faults)
  {
    hide Sound, Create, Enter, Holder, Pool.Search, StepUnder;
    var name := p.text.show(ip);
    NamesAreDistinct(p.text, ip, ip);
    Rewritten(files, name, job.id);
    assert files[name := job.id] == files;
    assert files[LAST_IP_FILE := ""] - {name} == (files - {name})[LAST_IP_FILE := ""];
    Recursored(files - {name}, name, job.id);
  }

  // The truncated cursor file is written over.
  lemma Recursored(bare: map<string, string>, name: string, id: string)
    requires name != LAST_IP_FILE
    ensures forall cursor {:trigger bare[name := id][LAST_IP_FILE := cursor]} ::
              bare[LAST_IP_FILE := ""][name := id][LAST_IP_FILE := cursor] == bare[name := id][LAST_IP_FILE := cursor]
  {
  }

  lemma CursorFinishes(p: Pool, pid: Pid, job: Op, files: map<string, string>, log: seq<Event>, ip: IP, act: Action,
                       faults: Faults)
    requires p.Valid() && LocalOk(p, job, files, log, CursorOpen(ip)) && Meets(p, CursorOpen(ip), act, faults)
    ensures SameFinish(p, job, files, CursorOpen(ip), Advance(p, pid, job, files, CursorOpen(ip), act), faults)
  {
    hide Sound, Create, Enter, Holder, Pool.Search, StepUnder;
    var name := p.text.show(ip);
    NamesAreDistinct(p.text, ip, ip);
    Rewritten(files, name, job.id);
    assert files[name := job.id] == files;
  }

  lemma WalkFinishes(p: Pool, pid: Pid, job: Op, files: map<string, string>, log: seq<Event>, pc: Pc, act: Action,
                     faults: Faults)
    requires p.Valid() && (pc.Walking? || pc.Matched?)
    requires LocalOk(p, job, files, log, pc) && Meets(p, pc, act, faults)
    ensures SameFinish(p, job, files, pc, Advance(p, pid, job, files, pc, act), faults)
  {
    hide Sound, Reserve, Create, Enter;
    var stuck := faults.stuck;
    match pc {
      case Walking(todo) =>
        if act.Go? && todo == {} {
          assert Kept(files, job.id, {}, stuck) == files;
        } else if act.Look? && act.name in todo {
          assert todo - {act.name} + {act.name} == todo;
          if act.name !in files || files[act.name] != job.id {
            assert Kept(files, job.id, todo - {act.name}, stuck) == Kept(files, job.id, todo, stuck);
          }
        } else if act.Skip? {
          assert Kept(files, job.id, todo - {act.name}, stuck) == Kept(files, job.id, todo, stuck);
        }
      case Matched(name, todo) =>
        if act == Go {
          assert Kept(files - {name}, job.id, todo, stuck) == Kept(files, job.id, todo + {name}, stuck);
        } else if act == Skip(name) {
          assert Kept(files, job.id, todo, stuck) == Kept(files, job.id, todo + {name}, stuck);
        }
    }
  }

  // A step of the lock holder that meets its failures does not change what it
  // will come to.
  lemma AdvanceFinishes(p: Pool, pid: Pid, job: Op, files: map<string, string>, log: seq<Event>, pc: Pc, act: Action,
                        faults: Faults)
    requires p.Valid() && Inside(pc) && !pc.Unlocking?
    requires LocalOk(p, job, files, log, pc) && Meets(p, pc, act, faults)
    ensures SameFinish(p, job, files, pc, Advance(p, pid, job, files, pc, act), faults)
  {
    hide Sound, Finish, Reserve, Create, Enter, Pool.Key;
    match pc {
      case Locked =>
        if act == Go || act == CursorUnreadable {
          EnterFinishes(p, job, files, act, faults);
        }
        LockedIsStep(p, job, files, faults);
      case Scanning(cur, stop) => ScanFinishes(p, pid, job, files, cur, stop, act, faults);
      case Trying(ip) => TryFinishes(p, pid, job, files, ip, act, faults);
      case Created(ip) => CreatedFinishes(p, pid, job, files, log, ip, act, faults);
      case Written(ip) => WrittenFinishes(p, pid, job, files, log, ip, act, faults);
      case CursorOpen(ip) => CursorFinishes(p, pid, job, files, log, ip, act, faults);
      case Walking(todo) => WalkFinishes(p, pid, job, files, log, pc, act, faults);
      case Matched(name, todo) => WalkFinishes(p, pid, job, files, log, pc, act, faults);
    }
  }

  lemma LockedIsStep(p: Pool, job: Op, files: map<string, string>, faults: Faults)
    requires p.Valid()
    ensures Finish(p, job, files, Locked, faults) == StepUnder(p, Disk(files), job, faults)
  {
    hide Sound, StepUnder;
  }

  // ---------- the invariant ----------

  // order lists, once each, the processes that have started.
  ghost predicate Ordered(jobs: Jobs, m: State)
  {
    && m.pcs.Keys == jobs.Keys
    && Jobbed(jobs, m.order)
    && (forall i, j :: 0 <= i < j < |m.order| ==> m.order[i] != m.order[j])
    && (forall pid :: pid in jobs ==> (pid in m.order <==> !m.pcs[pid].Idle?))
  }

  // With the lock free, every started operation is over and the directory is the
  // serial one.
  ghost predicate FreeInv(p: Pool, jobs: Jobs, weather: Weather, files0: map<string, string>, m: State)
    requires Sound(p.net, p.start, p.end) && Ordered(jobs, m)
  {
    && Disk(m.files) == Serial(p, jobs, weather, files0, m.order)
    && Over(p, jobs, weather, files0, m.pcs, m.order)
  }

  // With the lock taken, its holder is the last that started; the others are
  // over; and the holder will come to its serial result.
  ghost predicate HeldInv(p: Pool, jobs: Jobs, weather: Weather, files0: map<string, string>, m: State, h: Pid)
    requires Sound(p.net, p.start, p.end) && Ordered(jobs, m)
  {
    && m.order != [] && h == m.order[|m.order| - 1] && Inside(m.pcs[h]) && InRing(p, m.pcs[h])
    && var before := m.order[..|m.order| - 1];
    && Over(p, jobs, weather, files0, m.pcs, before)
    && Finish(p, jobs[h], m.files, m.pcs[h], weather(h))
       == StepUnder(p, Serial(p, jobs, weather, files0, before), jobs[h], weather(h))
  }

  ghost predicate SerialInv(p: Pool, jobs: Jobs, weather: Weather, files0: map<string, string>, m: State)
    requires Sound(p.net, p.start, p.end)
  {
    && Ordered(jobs, m)
    && if m.lock == None then FreeInv(p, jobs, weather, files0, m)
       else HeldInv(p, jobs, weather, files0, m, m.lock.value)
  }

  // The processes of order are done, each with its serial result.
  ghost predicate Over(p: Pool, jobs: Jobs, weather: Weather, files0: map<string, string>, pcs: map<Pid, Pc>,
                       order: seq<Pid>)
    requires Sound(p.net, p.start, p.end) && Jobbed(jobs, order)
  {
    forall k :: 0 <= k < |order| ==>
      order[k] in pcs && pcs[order[k]] == Done(ResultAt(p, jobs, weather, files0, order, k))
  }

  lemma ResultOfPrefix(p: Pool, jobs: Jobs, weather: Weather, files0: map<string, string>, order: seq<Pid>)
    requires p.Valid() && order != [] && Jobbed(jobs, order)
    ensures var before := order[..|order| - 1];
            forall k :: 0 <= k < |before| ==>
              ResultAt(p, jobs, weather, files0, order, k) == ResultAt(p, jobs, weather, files0, before, k)
  {
    hide Sound, StepUnder, Serial;
    var before := order[..|order| - 1];
    forall k | 0 <= k < |before| ensures order[..k] == before[..k] {
    }
  }

  lemma OverSnoc(p: Pool, jobs: Jobs, weather: Weather, files0: map<string, string>, pcs: map<Pid, Pc>,
                 before: seq<Pid>, h: Pid)
    requires p.Valid() && h in jobs && Jobbed(jobs, before)
    requires Over(p, jobs, weather, files0, pcs, before) && h in pcs
    requires pcs[h] == Done(StepUnder(p, Serial(p, jobs, weather, files0, before), jobs[h], weather(h)).1)
    ensures Over(p, jobs, weather, files0, pcs, before + [h])
  {
    hide Sound, StepUnder, Serial;
    var order := before + [h];
    assert order[..|before|] == before;
    ResultOfPrefix(p, jobs, weather, files0, order);
  }

  lemma SerialSnoc(p: Pool, jobs: Jobs, weather: Weather, files0: map<string, string>, before: seq<Pid>, h: Pid)
    requires p.Valid() && h in jobs && Jobbed(jobs, before)
    ensures Serial(p, jobs, weather, files0, before + [h])
         == StepUnder(p, Serial(p, jobs, weather, files0, before), jobs[h], weather(h)).0
  {
    hide Sound, StepUnder;
    assert (before + [h])[..|before|] == before;
  }

  lemma OverElsewhere(p: Pool, jobs: Jobs, weather: Weather, files0: map<string, string>, pcs: map<Pid, Pc>,
                      order: seq<Pid>, pid: Pid, pc: Pc)
    requires p.Valid() && Jobbed(jobs, order)
    requires Over(p, jobs, weather, files0, pcs, order) && pid !in order
    ensures Over(p, jobs, weather, files0, pcs[pid := pc], order)
  {
    hide Sound, ResultAt;
  }

  lemma DoKeepsSerial(p: Pool, jobs: Jobs, weather: Weather, files0: map<string, string>, m: State, pid: Pid,
                      act: Action)
    requires p.Valid() && Inv(p, jobs, m) && SerialInv(p, jobs, weather, files0, m)
    requires pid in m.pcs ==> Meets(p, m.pcs[pid], act, weather(pid))
    ensures SerialInv(p, jobs, weather, files0, Do(p, jobs, m, pid, act))
  {
    hide Sound, Advance, FilesOk, Legal, LocalOk, FreeInv, HeldInv;
    if pid in jobs {
      var pc := m.pcs[pid];
      if pc.Idle? && act.Go? && m.lock == None {
        LockKeepsSerial(p, jobs, weather, files0, m, pid);
      } else if pc.Unlocking? && act.Go? {
        UnlockKeepsSerial(p, jobs, weather, files0, m, pid);
      } else if Inside(pc) && !pc.Unlocking? {
        AdvanceKeepsSerial(p, jobs, weather, files0, m, pid, act);
      }
    }
  }

  lemma LockKeepsSerial(p: Pool, jobs: Jobs, weather: Weather, files0: map<string, string>, m: State, pid: Pid)
    requires p.Valid() && pid in jobs && SerialInv(p, jobs, weather, files0, m)
    requires m.pcs[pid].Idle? && m.lock == None
    ensures SerialInv(p, jobs, weather, files0, Do(p, jobs, m, pid, Go))
  {
    hide Sound, Over, Finish, StepUnder, Serial, Advance;
    OverElsewhere(p, jobs, weather, files0, m.pcs, m.order, pid, Locked);
    LockedIsStep(p, jobs[pid], m.files, weather(pid));
    assert (m.order + [pid])[..|m.order|] == m.order;
  }

  lemma UnlockKeepsSerial(p: Pool, jobs: Jobs, weather: Weather, files0: map<string, string>, m: State, pid: Pid)
    requires p.Valid() && pid in jobs && SerialInv(p, jobs, weather, files0, m)
    requires m.pcs[pid].Unlocking? && m.lock == Some(pid)
    ensures SerialInv(p, jobs, weather, files0, Do(p, jobs, m, pid, Go))
  {
    hide Sound, Over, Finish, StepUnder, Serial, Advance;
    var before := m.order[..|m.order| - 1];
    var m' := Do(p, jobs, m, pid, Go);
    assert m.order == before + [pid];
    OverElsewhere(p, jobs, weather, files0, m.pcs, before, pid, m'.pcs[pid]);
    UnlockingIsOver(p, jobs[pid], m.files, m.pcs[pid].result, weather(pid));
    OverSnoc(p, jobs, weather, files0, m'.pcs, before, pid);
    SerialSnoc(p, jobs, weather, files0, before, pid);
  }

  lemma AdvanceKeepsSerial(p: Pool, jobs: Jobs, weather: Weather, files0: map<string, string>, m: State, pid: Pid,
                           act: Action)
    requires p.Valid() && pid in jobs && SerialInv(p, jobs, weather, files0, m)
    requires Inside(m.pcs[pid]) && !m.pcs[pid].Unlocking? && m.lock == Some(pid)
    requires LocalOk(p, jobs[pid], m.files, m.log, m.pcs[pid]) && Meets(p, m.pcs[pid], act, weather(pid))
    ensures SerialInv(p, jobs, weather, files0, Do(p, jobs, m, pid, act))
  {
    hide Sound, Over, Finish, StepUnder, Serial, Advance, SameFinish, LocalOk;
    var pc := m.pcs[pid];
    var l := Advance(p, pid, jobs[pid], m.files, pc, act);
    AdvanceInside(p, pid, jobs[pid], m.files, m.log, pc, act);
    AdvanceFinishes(p, pid, jobs[pid], m.files, m.log, pc, act, weather(pid));
    HolderMoves(p, jobs, weather, files0, m, pid, l);
  }

  lemma AdvanceInside(p: Pool, pid: Pid, job: Op, files: map<string, string>, log: seq<Event>, pc: Pc, act: Action)
    requires p.Valid() && Inside(pc) && !pc.Unlocking? && LocalOk(p, job, files, log, pc)
    ensures Inside(Advance(p, pid, job, files, pc, act).pc)
  {
    hide Sound, Advance, LogsOne, Gives;
    AdvanceLogs(p, pid, job, files, pc, act);
  }

  lemma HolderMoves(p: Pool, jobs: Jobs, weather: Weather, files0: map<string, string>, m: State, pid: Pid, l: Local)
    requires p.Valid() && pid in jobs && SerialInv(p, jobs, weather, files0, m) && m.lock == Some(pid)
    requires SameFinish(p, jobs[pid], m.files, m.pcs[pid], l, weather(pid)) && Inside(l.pc)
    ensures SerialInv(p, jobs, weather, files0,
                      m.(files := l.files, pcs := m.pcs[pid := l.pc], log := m.log + l.events))
  {
    hide Sound, Over, Finish, StepUnder, Serial;
    var before := m.order[..|m.order| - 1];
    assert m.order == before + [pid];
    OverElsewhere(p, jobs, weather, files0, m.pcs, before, pid, l.pc);
  }

  lemma UnlockingIsOver(p: Pool, job: Op, files: map<string, string>, result: Outcome, faults: Faults)
    requires p.Valid()
    ensures Finish(p, job, files, Unlocking(result), faults) == (Disk(files), result)
  {
    hide Sound;
  }

  // ---------- the theorem ----------

  // At every step of the run from m the process meets exactly its own failures;
  // none crashes, and flock does not fail.
  ghost predicate Endures(p: Pool, jobs: Jobs, weather: Weather, m: State, sched: Schedule)
    requires Sound(p.net, p.start, p.end)
  {
    forall k :: 0 <= k < |sched| ==> StepEndures(p, weather, Exec(p, jobs, m, sched[..k]), sched[k])
  }

  predicate StepEndures(p: Pool, weather: Weather, m: State, step: (Pid, Action))
  {
    && step.1 != Crash && step.1 != LockFails
    && (step.0 in m.pcs ==> Meets(p, m.pcs[step.0], step.1, weather(step.0)))
  }

  lemma EnduresPrefix(p: Pool, jobs: Jobs, weather: Weather, m: State, sched: Schedule)
    requires p.Valid() && Endures(p, jobs, weather, m, sched) && sched != []
    ensures var n := |sched| - 1;
            Endures(p, jobs, weather, m, sched[..n]) && StepEndures(p, weather, Exec(p, jobs, m, sched[..n]), sched[n])
  {
    hide Sound, Exec, StepEndures;
    var before := sched[..|sched| - 1];
    forall k | 0 <= k < |before| ensures before[..k] == sched[..k] && before[k] == sched[k] {
    }
  }

  lemma {:induction false} ExecKeepsSerial(p: Pool, jobs: Jobs, weather: Weather, files: map<string, string>,
                                           sched: Schedule)
    requires p.Valid() && Endures(p, jobs, weather, Init(jobs, files), sched)
    ensures FlockWorks(sched)
    ensures var m := Exec(p, jobs, Init(jobs, files), sched);
            Inv(p, jobs, m) && SerialInv(p, jobs, weather, files, m)
    decreases |sched|
  {
    hide Sound, Inv, SerialInv, Do, Endures, Meets;
    if sched == [] {
      ExecKeepsInv(p, jobs, files, sched);
      InitSerial(p, jobs, weather, files);
    } else {
      var before, last := sched[..|sched| - 1], sched[|sched| - 1];
      EnduresPrefix(p, jobs, weather, Init(jobs, files), sched);
      ExecKeepsSerial(p, jobs, weather, files, before);
      ExecKeepsInv(p, jobs, files, sched);
      DoKeepsSerial(p, jobs, weather, files, Exec(p, jobs, Init(jobs, files), before), last.0, last.1);
    }
  }

  lemma InitSerial(p: Pool, jobs: Jobs, weather: Weather, files: map<string, string>)
    requires p.Valid()
    ensures SerialInv(p, jobs, weather, files, Init(jobs, files))
  {
    hide Sound;
  }

  // Serializability: in every run without crashes, each finished process has the
  // result of its operation in the serial run in lock order with the same
  // failures, and whenever the lock is free the directory is the one that run
  // leaves.
  lemma RunsAreSerial(p: Pool, jobs: Jobs, weather: Weather, files: map<string, string>, sched: Schedule)
    requires p.Valid() && Endures(p, jobs, weather, Init(jobs, files), sched)
    ensures var m := Exec(p, jobs, Init(jobs, files), sched);
            && Jobbed(jobs, m.order)
            && (forall i, j :: 0 <= i < j < |m.order| ==> m.order[i] != m.order[j])
            && (forall pid :: pid in m.pcs && m.pcs[pid].Done? ==> pid in m.order)
            && (forall k :: 0 <= k < |m.order| && m.order[k] in m.pcs && m.pcs[m.order[k]].Done? ==>
                  m.pcs[m.order[k]].result == ResultAt(p, jobs, weather, files, m.order, k))
            && (m.lock == None ==> Disk(m.files) == Serial(p, jobs, weather, files, m.order))
  {
    hide Sound, Exec, Inv, Serial, Finish, StepUnder, ResultAt, Endures;
    var m := Exec(p, jobs, Init(jobs, files), sched);
    ExecKeepsSerial(p, jobs, weather, files, sched);
    if m.lock.Some? {
      ResultOfPrefix(p, jobs, weather, files, m.order);
    }
  }

  // ---------- without failures ----------

  // Every step goes through; a walk looks at the files in any order.
  predicate Clean(sched: Schedule)
  {
    forall k :: 0 <= k < |sched| ==> sched[k].1.Go? || sched[k].1.Look?
  }

  const FAIR: Weather := _ => NO_FAULTS

  lemma CleanEndures(p: Pool, jobs: Jobs, files: map<string, string>, sched: Schedule)
    requires p.Valid() && Clean(sched)
    ensures Endures(p, jobs, FAIR, Init(jobs, files), sched)
  {
    hide Sound, Exec, Pool.IsGateway, Pool.Name;
  }

  function OpsOf(jobs: Jobs, order: seq<Pid>): (ops: seq<Op>)
    requires Jobbed(jobs, order)
    ensures |ops| == |order|
    ensures forall k :: 0 <= k < |order| ==> ops[k] == jobs[order[k]]
  {
    seq(|order|, k requires 0 <= k < |order| => jobs[order[k]])
  }

  lemma {:induction false} StateAtNext(p: Pool, s: Store, ops: seq<Op>, k: nat)
    requires p.Valid() && k < |ops|
    ensures StateAt(p, s, ops, k + 1) == Step(p, StateAt(p, s, ops, k), ops[k]).0
    decreases k
  {
    hide Sound, Step;
    if k > 0 {
      StateAtNext(p, Step(p, s, ops[0]).0, ops[1..], k - 1);
    } else {
      assert StateAt(p, Step(p, s, ops[0]).0, ops[1..], 0) == Step(p, s, ops[0]).0;
    }
  }

  lemma {:induction false} SerialIsStateAt(p: Pool, jobs: Jobs, files: map<string, string>, order: seq<Pid>, k: nat)
    requires p.Valid() && Jobbed(jobs, order) && k <= |order|
    ensures Serial(p, jobs, FAIR, files, order[..k]) == StateAt(p, Disk(files), OpsOf(jobs, order), k)
    decreases k
  {
    hide Sound, StepUnder;
    if k > 0 {
      assert order[..k][..k - 1] == order[..k - 1];
      SerialIsStateAt(p, jobs, files, order, k - 1);
      StateAtNext(p, Disk(files), OpsOf(jobs, order), k - 1);
    }
  }

  // In every run without crashes and failures, results and directory are those of
  // the operations one at a time, in lock order, on a store that does not fail.
  lemma CleanRunsAreSerial(p: Pool, jobs: Jobs, files: map<string, string>, sched: Schedule)
    requires p.Valid() && Clean(sched)
    ensures var m := Exec(p, jobs, Init(jobs, files), sched);
            && (forall k :: 0 <= k < |m.order| ==> m.order[k] in jobs && m.order[k] in m.pcs)
            && (forall i, j :: 0 <= i < j < |m.order| ==> m.order[i] != m.order[j])
            && (forall pid :: pid in m.pcs && m.pcs[pid].Done? ==> pid in m.order)
            && (forall k :: 0 <= k < |m.order| && m.pcs[m.order[k]].Done? ==>
                  m.pcs[m.order[k]].result == OutcomeAt(p, Disk(files), OpsOf(jobs, m.order), k))
            && (m.lock == None ==> Disk(m.files) == StateAt(p, Disk(files), OpsOf(jobs, m.order), |m.order|))
  {
    hide Sound, Exec, Inv, Serial, Finish, StepUnder, StateAt, Endures;
    var m := Exec(p, jobs, Init(jobs, files), sched);
    CleanEndures(p, jobs, files, sched);
    ExecKeepsSerial(p, jobs, FAIR, files, sched);
    RunsAreSerial(p, jobs, FAIR, files, sched);
    forall k | 0 <= k < |m.order|
      ensures ResultAt(p, jobs, FAIR, files, m.order, k) == OutcomeAt(p, Disk(files), OpsOf(jobs, m.order), k)
    {
      SerialIsStateAt(p, jobs, files, m.order, k);
    }
    SerialIsStateAt(p, jobs, files, m.order, |m.order|);
    assert m.order[..|m.order|] == m.order;
  }
}
