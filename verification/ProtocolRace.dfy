/** What uniqueness needs: flock, or no DELs. Release ignores a failed lock, and a
    DEL that runs unlocked can remove a reservation that is not its own. */
module ProtocolRace {
  import opened Common
  import opened Addresses
  import opened Ranges
  import opened Subnets
  import opened Rings
  import opened Stores
  import opened Allocator
  import opened AllocationRuns
  import opened Protocol
  import opened ProtocolSafety
  import opened ProtocolExclusive

  // Nothing fails but the flock of process pid.
  ghost predicate FailsOnlyFlockOf(sched: Schedule, pid: Pid)
  {
    forall k :: 0 <= k < |sched| ==>
      sched[k].1 == Go || sched[k].1.Look? || sched[k] == (pid, LockFails)
  }

  // Reachable with no failure but of the first DEL's flock.
  ghost predicate Reaches(p: Pool, jobs: Jobs, m: State, m': State)
    requires Sound(p.net, p.start, p.end)
  {
    exists sched :: FailsOnlyFlockOf(sched, 1) && Exec(p, jobs, m, sched) == m'
  }

  lemma ReachesStart(p: Pool, jobs: Jobs, m: State)
    requires p.Valid()
    ensures Reaches(p, jobs, m, m)
  {
    hide Sound;
    assert Exec(p, jobs, m, []) == m;
  }

  lemma ReachesNext(p: Pool, jobs: Jobs, m: State, n: State, pid: Pid, act: Action)
    requires p.Valid() && Reaches(p, jobs, m, n)
    requires act == Go || act.Look? || (pid, act) == (1, LockFails)
    ensures Reaches(p, jobs, m, Do(p, jobs, n, pid, act))
  {
    hide Sound, Do;
    var sched :| FailsOnlyFlockOf(sched, 1) && Exec(p, jobs, m, sched) == n;
    var longer := sched + [(pid, act)];
    assert longer[..|longer| - 1] == sched;
    assert Exec(p, jobs, m, longer) == Do(p, jobs, n, pid, act);
  }

  // A request that meets no obstacle: up to the exclusive creation,
  lemma AddEnters(p: Pool, jobs: Jobs, m: State, n: State, pid: Pid, x: int) returns (n': State)
    requires p.Valid() && p.Has(x) && !p.IsGateway(x) && Canon(p.gw) == p.gw
    requires Reaches(p, jobs, m, n) && n.lock == None
    requires pid in jobs && pid in n.pcs && n.pcs[pid] == Idle && jobs[pid].Ask? && jobs[pid].ip == p.Key(x)
    ensures Reaches(p, jobs, m, n') && n'.lock == Some(pid) && n'.files == n.files
    ensures n'.pcs == n.pcs[pid := Trying(p.Key(x))]
  {
    hide Sound, RangeError, Pool.Key, Equal, Canon, Reaches;
    var ip := p.Key(x);
    p.KeyInRange(x);
    p.KeyIsAccepted(x);
    EqualIsSameCanon(p.gw, ip);
    assert ip != NIL;
    var n1 := Do(p, jobs, n, pid, Go);
    ReachesNext(p, jobs, m, n, pid, Go);
    n' := Do(p, jobs, n1, pid, Go);
    ReachesNext(p, jobs, m, n1, pid, Go);
  }

  // the creation and the write of the id,
  lemma AddCreates(p: Pool, jobs: Jobs, m: State, n: State, pid: Pid, x: int) returns (n': State)
    requires p.Valid() && p.Has(x) && Reaches(p, jobs, m, n) && p.Name(x) !in n.files
    requires pid in jobs && pid in n.pcs && n.pcs[pid] == Trying(p.Key(x)) && jobs[pid].Ask?
    ensures Reaches(p, jobs, m, n') && n'.lock == n.lock && n'.files == n.files[p.Name(x) := jobs[pid].id]
    ensures n'.pcs == n.pcs[pid := Written(p.Key(x))]
  {
    hide Sound, Pool.Key, Canon, Reaches, IsAddress, Enter;
    p.KeyInRange(x);
    p.KeysAreDistinct(x, x);
    var n1 := Do(p, jobs, n, pid, Go);
    ReachesNext(p, jobs, m, n, pid, Go);
    assert n1.pcs[pid] == Created(p.Key(x)) && n1.files == n.files[p.Name(x) := ""];
    n' := Do(p, jobs, n1, pid, Go);
    ReachesNext(p, jobs, m, n1, pid, Go);
  }

  // and the cursor.
  lemma AddFinishes(p: Pool, jobs: Jobs, m: State, n: State, pid: Pid, x: int) returns (n': State)
    requires p.Valid() && Reaches(p, jobs, m, n) && n.lock == Some(pid)
    requires pid in jobs && pid in n.pcs && n.pcs[pid] == Written(p.Key(x))
    ensures Reaches(p, jobs, m, n') && n'.lock == None && n'.files == n.files[LAST_IP_FILE := p.Name(x)]
    ensures n'.pcs == n.pcs[pid := Done(Gave(p.Key(x)))]
  {
    hide Sound, Pool.Key, Reaches, Enter, Create;
    var n1 := Do(p, jobs, n, pid, Go);
    ReachesNext(p, jobs, m, n, pid, Go);
    var n2 := Do(p, jobs, n1, pid, Go);
    ReachesNext(p, jobs, m, n1, pid, Go);
    n' := Do(p, jobs, n2, pid, Go);
    ReachesNext(p, jobs, m, n2, pid, Go);
  }

  lemma AddAlone(p: Pool, jobs: Jobs, m: State, n: State, pid: Pid, x: int) returns (n': State)
    requires p.Valid() && p.Has(x) && !p.IsGateway(x) && Canon(p.gw) == p.gw
    requires Reaches(p, jobs, m, n) && n.lock == None && p.Name(x) !in n.files
    requires pid in jobs && pid in n.pcs && n.pcs[pid] == Idle && jobs[pid].Ask? && jobs[pid].ip == p.Key(x)
    ensures Reaches(p, jobs, m, n') && n'.lock == None
    ensures n'.files == n.files[p.Name(x) := jobs[pid].id][LAST_IP_FILE := p.Name(x)]
    ensures n'.pcs == n.pcs[pid := Done(Gave(p.Key(x)))]
  {
    hide Sound, Pool.Key, Pool.Name, Pool.IsGateway, Pool.Has, Canon, Reaches;
    n' := AddEnters(p, jobs, m, n, pid, x);
    n' := AddCreates(p, jobs, m, n', pid, x);
    n' := AddFinishes(p, jobs, m, n', pid, x);
  }

  // The jobs of the race: an ADD for a, two DELs for a, and ADDs for b and c.
  function RaceJobs(p: Pool, x: int, a: string, b: string, c: string): (r: Jobs)
  {
    map[0 := Ask(a, p.Key(x)), 1 := Drop(a), 2 := Drop(a), 3 := Ask(b, p.Key(x)), 4 := Ask(c, p.Key(x))]
  }

  // The unlocked DEL has read a's file and is about to remove it by name.
  lemma UnlockedDel(p: Pool, jobs: Jobs, m: State, n: State, x: int) returns (n': State)
    requires p.Valid() && Reaches(p, jobs, m, n) && n.lock == None && 1 in jobs && jobs[1].Drop?
    requires 1 in n.pcs && n.pcs[1] == Idle
    requires p.Name(x) in n.files && n.files[p.Name(x)] == jobs[1].id
    ensures Reaches(p, jobs, m, n') && n'.lock == None && n'.files == n.files
    ensures n'.pcs == n.pcs[1 := Matched(p.Name(x), n.files.Keys - {p.Name(x)})]
  {
    hide Sound, Pool.Key, Pool.Name, Reaches;
    var n1 := Do(p, jobs, n, 1, LockFails);
    ReachesNext(p, jobs, m, n, 1, LockFails);
    var n2 := Do(p, jobs, n1, 1, Go);
    ReachesNext(p, jobs, m, n1, 1, Go);
    n' := Do(p, jobs, n2, 1, Look(p.Name(x)));
    ReachesNext(p, jobs, m, n2, 1, Look(p.Name(x)));
  }

  // The other DEL, under the lock, removes a's file
  lemma LockedDelRemoves(p: Pool, jobs: Jobs, m: State, n: State, name: string) returns (n': State)
    requires p.Valid() && Reaches(p, jobs, m, n) && n.lock == None && 2 in jobs && jobs[2].Drop?
    requires 2 in n.pcs && n.pcs[2] == Idle && name in n.files && n.files[name] == jobs[2].id
    ensures Reaches(p, jobs, m, n') && n'.lock == Some(2) && n'.files == n.files - {name}
    ensures n'.pcs == n.pcs[2 := Walking(n.files.Keys - {name})]
  {
    hide Sound, Reaches;
    var n1 := Do(p, jobs, n, 2, Go);
    ReachesNext(p, jobs, m, n, 2, Go);
    var n2 := Do(p, jobs, n1, 2, Go);
    ReachesNext(p, jobs, m, n1, 2, Go);
    var n3 := Do(p, jobs, n2, 2, Look(name));
    ReachesNext(p, jobs, m, n2, 2, Look(name));
    n' := Do(p, jobs, n3, 2, Go);
    ReachesNext(p, jobs, m, n3, 2, Go);
  }

  // and, passing over the cursor file, ends.
  lemma LockedDelEnds(p: Pool, jobs: Jobs, m: State, n: State, other: string) returns (n': State)
    requires p.Valid() && Reaches(p, jobs, m, n) && n.lock == Some(2) && 2 in jobs && jobs[2].Drop?
    requires 2 in n.pcs && n.pcs[2] == Walking({other}) && other in n.files && n.files[other] != jobs[2].id
    ensures Reaches(p, jobs, m, n') && n'.lock == None && n'.files == n.files
    ensures n'.pcs == n.pcs[2 := Done(Dropped)]
  {
    hide Sound, Reaches;
    var n1 := Do(p, jobs, n, 2, Look(other));
    ReachesNext(p, jobs, m, n, 2, Look(other));
    assert n1.pcs[2] == Walking({}) by {
      assert {other} - {other} == {};
    }
    var n2 := Do(p, jobs, n1, 2, Go);
    ReachesNext(p, jobs, m, n1, 2, Go);
    n' := Do(p, jobs, n2, 2, Go);
    ReachesNext(p, jobs, m, n2, 2, Go);
  }

  lemma LockedDel(p: Pool, jobs: Jobs, m: State, n: State, x: int) returns (n': State)
    requires p.Valid() && p.Has(x) && Reaches(p, jobs, m, n) && n.lock == None && 2 in jobs && jobs[2].Drop?
    requires 2 in n.pcs && n.pcs[2] == Idle && jobs[2].id != p.Name(x)
    requires n.files == map[p.Name(x) := jobs[2].id, LAST_IP_FILE := p.Name(x)]
    ensures Reaches(p, jobs, m, n') && n'.lock == None && n'.files == map[LAST_IP_FILE := p.Name(x)]
    ensures n'.pcs == n.pcs[2 := Done(Dropped)]
  {
    hide Sound, Pool.Key, Pool.Name, Pool.Has, Reaches;
    p.KeysAreDistinct(x, x);
    assert n.files.Keys - {p.Name(x)} == {LAST_IP_FILE};
    n' := LockedDelRemoves(p, jobs, m, n, p.Name(x));
    assert n'.files == map[LAST_IP_FILE := p.Name(x)];
    n' := LockedDelEnds(p, jobs, m, n', LAST_IP_FILE);
  }

  // Two ADDs return the same address although no DEL is for the id of either.
  ghost predicate Duplicate(p: Pool, jobs: Jobs, files: map<string, string>, sched: Schedule, a: Pid, b: Pid, ip: IP)
    requires Sound(p.net, p.start, p.end)
  {
    && a != b && a in jobs && b in jobs
    && (forall d :: d in jobs ==> jobs[d] != Drop(jobs[a].id) && jobs[d] != Drop(jobs[b].id))
    && var pcs := Exec(p, jobs, Init(jobs, files), sched).pcs;
       a in pcs && b in pcs && pcs[a] == pcs[b] == Done(Gave(ip))
  }

  // When nothing fails but one DEL's flock, two ADDs can be given the same address
  // although no DEL was for the id of either: here for any address of the range.
  lemma FailedFlockDuplicates(p: Pool, x: int, a: string, b: string, c: string)
    requires p.Valid() && p.Has(x) && !p.IsGateway(x) && Canon(p.gw) == p.gw
    requires a !in {p.Name(x), b, c}
    ensures exists sched ::
              FailsOnlyFlockOf(sched, 1) && Duplicate(p, RaceJobs(p, x, a, b, c), map[], sched, 3, 4, p.Key(x))
  {
    hide Sound, Pool.Key, Reaches, Pool.IsGateway, Pool.Has, Do, Exec, Canon, Duplicate, FailsOnlyFlockOf;
    var jobs := RaceJobs(p, x, a, b, c);
    var m0 := Init(jobs, map[]);
    ReachesStart(p, jobs, m0);
    p.KeysAreDistinct(x, x);
    var n := AddAlone(p, jobs, m0, m0, 0, x);
    n := UnlockedDel(p, jobs, m0, n, x);
    assert n.files == map[p.Name(x) := a, LAST_IP_FILE := p.Name(x)];
    n := LockedDel(p, jobs, m0, n, x);
    n := AddAlone(p, jobs, m0, n, 3, x);
    assert n.pcs[1].Matched? && n.pcs[1].name == p.Name(x);
    n := RemoveUnlocked(p, jobs, m0, n);
    n := AddAlone(p, jobs, m0, n, 4, x);
    assert n.pcs[3] == n.pcs[4] == Done(Gave(p.Key(x)));
    ReachedDuplicate(p, x, a, b, c, n);
  }

  lemma ReachedDuplicate(p: Pool, x: int, a: string, b: string, c: string, n: State)
    requires p.Valid() && a !in {b, c}
    requires Reaches(p, RaceJobs(p, x, a, b, c), Init(RaceJobs(p, x, a, b, c), map[]), n)
    requires 3 in n.pcs && 4 in n.pcs && n.pcs[3] == n.pcs[4] == Done(Gave(p.Key(x)))
    ensures exists sched ::
              FailsOnlyFlockOf(sched, 1) && Duplicate(p, RaceJobs(p, x, a, b, c), map[], sched, 3, 4, p.Key(x))
  {
    hide Sound, Exec, FailsOnlyFlockOf, Pool.Key;
    var jobs := RaceJobs(p, x, a, b, c);
    var sched :| FailsOnlyFlockOf(sched, 1) && Exec(p, jobs, Init(jobs, map[]), sched) == n;
    assert Duplicate(p, jobs, map[], sched, 3, 4, p.Key(x));
  }

  lemma RemoveUnlocked(p: Pool, jobs: Jobs, m: State, n: State) returns (n': State)
    requires p.Valid() && Reaches(p, jobs, m, n) && 1 in jobs && 1 in n.pcs && n.pcs[1].Matched?
    ensures Reaches(p, jobs, m, n') && n'.lock == n.lock && n'.files == n.files - {n.pcs[1].name}
    ensures n'.pcs == n.pcs[1 := Walking(n.pcs[1].todo)]
  {
    hide Sound, Reaches;
    n' := Do(p, jobs, n, 1, Go);
    ReachesNext(p, jobs, m, n, 1, Go);
  }

  // ---------- exactly what uniqueness needs ----------

  // The runs in which flock may or may not fail and DELs may or may not occur.
  ghost predicate Permitted(jobs: Jobs, sched: Schedule, flockMayFail: bool, delsMayRun: bool)
  {
    (flockMayFail || FlockWorks(sched)) && (delsMayRun || OnlyAdds(jobs))
  }

  lemma NoDuplicate(p: Pool, jobs: Jobs, files: map<string, string>, sched: Schedule, a: Pid, b: Pid, ip: IP)
    requires p.Valid() && (FlockWorks(sched) || OnlyAdds(jobs))
    ensures !Duplicate(p, jobs, files, sched, a, b, ip)
  {
    hide Sound, Exec, FlockWorks;
    if Duplicate(p, jobs, files, sched, a, b, ip) {
      if OnlyAdds(jobs) {
        AddsAreExclusive(p, jobs, files, sched);
      } else {
        TwoReturnsMeanRemoval(p, jobs, files, sched, a, b, ip);
      }
    }
  }

  // No address is returned twice without a DEL for either id, over all permitted
  // runs with whatever other failures and crashes, exactly if flock does not fail
  // or there are no DELs; for any pool that has an address to give.
  lemma UniqueExactly(p: Pool, flockMayFail: bool, delsMayRun: bool)
    requires p.Valid() && Canon(p.gw) == p.gw && exists x :: p.Has(x) && !p.IsGateway(x)
    ensures (forall jobs, files, sched, a, b, ip ::
               Permitted(jobs, sched, flockMayFail, delsMayRun) ==> !Duplicate(p, jobs, files, sched, a, b, ip))
            <==> !flockMayFail || !delsMayRun
  {
    hide Sound, Duplicate, FlockWorks, OnlyAdds, FailsOnlyFlockOf, Pool.IsGateway, Pool.Has, Pool.Name;
    if flockMayFail && delsMayRun {
      var x :| p.Has(x) && !p.IsGateway(x);
      var a, jobs := p.Name(x) + "a", RaceJobs(p, x, p.Name(x) + "a", "", "");
      assert |a| > |p.Name(x)|;
      FailedFlockDuplicates(p, x, a, "", "");
      var sched :| FailsOnlyFlockOf(sched, 1) && Duplicate(p, jobs, map[], sched, 3, 4, p.Key(x));
      assert Permitted(jobs, sched, flockMayFail, delsMayRun);
    } else {
      forall jobs, files, sched, a, b, ip | Permitted(jobs, sched, flockMayFail, delsMayRun)
        ensures !Duplicate(p, jobs, files, sched, a, b, ip)
      {
        NoDuplicate(p, jobs, files, sched, a, b, ip);
      }
    }
  }
}
