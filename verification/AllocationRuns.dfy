/** What holds over whole runs of allocations and releases: round robin, the
    capacity of a range, and the agreement of the two stores. */
module AllocationRuns {
  import opened Common
  import opened Addresses
  import opened Subnets
  import opened Ranges
  import opened Rings
  import opened Stores
  import opened Allocator
  import opened AllocationLaws

  // An ADD, for any address (NIL) or for a given one, or a DEL.
  datatype Op = Ask(id: string, ip: IP) | Drop(id: string)

  datatype Outcome = Gave(ip: IP) | Refused(error: Error) | Dropped

  // One operation that meets the given failures.
  function StepUnder(p: Pool, s: Store, op: Op, faults: Faults): (r: (Store, Outcome))
    requires Sound(p.net, p.start, p.end)
  {
    match op
    case Drop(id) => (ReleaseByID(s, id, faults), Dropped)
    case Ask(id, ip) =>
      var (s', r) := p.Get(s, id, ip, faults);
      (s', match r case Ok(a) => Gave(a) case Err(e) => Refused(e))
  }

  function Step(p: Pool, s: Store, op: Op): (r: (Store, Outcome))
    requires Sound(p.net, p.start, p.end)
  {
    StepUnder(p, s, op, NO_FAULTS)
  }

  // The store after the first k operations.
  function StateAt(p: Pool, s: Store, ops: seq<Op>, k: nat): (r: Store)
    requires Sound(p.net, p.start, p.end) && k <= |ops|
    decreases k
  {
    hide Sound;
    if k == 0 then s else StateAt(p, Step(p, s, ops[0]).0, ops[1..], k - 1)
  }

  function OutcomeAt(p: Pool, s: Store, ops: seq<Op>, k: nat): (r: Outcome)
    requires Sound(p.net, p.start, p.end) && k < |ops|
  {
    Step(p, StateAt(p, s, ops, k), ops[k]).1
  }

  // The one way a release goes wrong, on disk: the id is the cursor file's text,
  // and the cursor file goes with the reservations.
  predicate NamesCursor(s: Store, op: Op)
  {
    op.Drop? && s.Disk? && LAST_IP_FILE in s.files && s.files[LAST_IP_FILE] == op.id
  }

  ghost predicate CursorIsSafe(p: Pool, s: Store, ops: seq<Op>)
    requires Sound(p.net, p.start, p.end)
  {
    forall k :: 0 <= k < |ops| ==> !NamesCursor(StateAt(p, s, ops, k), ops[k])
  }

  // ---------- round robin ----------

  // The k-th operation is a search whose scan, from the cursor to the address it
  // gave, went over y; and y was then given out, or was busy.
  ghost predicate Passed(p: Pool, s: Store, ops: seq<Op>, k: nat, y: int)
    requires Sound(p.net, p.start, p.end) && k < |ops|
  {
    ScanPassed(p, StateAt(p, s, ops, k), ops[k], y)
  }

  ghost predicate ScanPassed(p: Pool, s: Store, op: Op, y: int)
    requires Sound(p.net, p.start, p.end)
  {
    && op.Ask? && op.ip == NIL
    && var (s', r) := p.GetAny(s, op.id, NO_FAULTS);
       var c := p.Cursor(s, NO_FAULTS);
       && r.Ok? && y != c && p.Range().Dist(c, y) <= p.Range().Dist(c, r.value)
       && (y == r.value || y in Busy(p, s))
  }

  predicate Searches(ops: seq<Op>)
  {
    forall k :: 0 <= k < |ops| && ops[k].Ask? ==> ops[k].ip == NIL
  }

  lemma DropKeepsCursor(p: Pool, s: Store, op: Op)
    requires op.Drop? && !NamesCursor(s, op)
    ensures p.Cursor(ReleaseByID(s, op.id, NO_FAULTS), NO_FAULTS) == p.Cursor(s, NO_FAULTS)
  {
    hide RangeError, Canon;
  }

  // A step of a search-only run moves the cursor forward, and either goes over y
  // or stays short of it.
  lemma CursorAdvances(p: Pool, s: Store, op: Op, x: int, y: int)
    requires p.Valid() && !NamesCursor(s, op) && (op.Ask? ==> op.ip == NIL)
    requires p.Has(x) && p.Has(y) && x != y
    requires p.Range().Dist(x, p.Cursor(s, NO_FAULTS)) < p.Range().Dist(x, y)
    ensures ScanPassed(p, s, op, y)
            || p.Range().Dist(x, p.Cursor(Step(p, s, op).0, NO_FAULTS)) < p.Range().Dist(x, y)
    ensures Step(p, s, op).1 == Gave(p.Key(x)) ==> ScanPassed(p, s, op, y)
  {
    hide Sound, Pool.GetAny, Contains, Store.Held, Pool.Key, Pool.Cursor, ReleaseByID, NamesCursor;
    if op.Ask? {
      SearchGivesNearestFree(p, s, op.id);
      var r := p.GetAny(s, op.id, NO_FAULTS).1;
      if r.Ok? {
        p.KeysAreDistinct(r.value, x);
      }
    } else {
      DropKeepsCursor(p, s, op);
    }
  }

  // As long as the cursor, counted from x, is short of y, a run that ends by
  // giving out x passes y.
  lemma {:induction false} RunPasses(p: Pool, s: Store, ops: seq<Op>, x: int, y: int)
    requires p.Valid() && CursorIsSafe(p, s, ops) && Searches(ops) && ops != []
    requires p.Has(x) && p.Has(y) && x != y
    requires p.Range().Dist(x, p.Cursor(s, NO_FAULTS)) < p.Range().Dist(x, y)
    requires OutcomeAt(p, s, ops, |ops| - 1) == Gave(p.Key(x))
    ensures exists k :: 0 <= k < |ops| && Passed(p, s, ops, k, y)
    decreases |ops|
  {
    hide Sound, Pool.Cursor, Pool.Key, ScanPassed, Step, NamesCursor;
    assert StateAt(p, s, ops, 0) == s;
    CursorAdvances(p, s, ops[0], x, y);
    if ScanPassed(p, s, ops[0], y) {
      assert Passed(p, s, ops, 0, y);
    } else {
      var s', rest := Step(p, s, ops[0]).0, ops[1..];
      forall k | 0 <= k < |rest|
        ensures rest[k] == ops[k + 1] && StateAt(p, s', rest, k) == StateAt(p, s, ops, k + 1)
      {
      }
      assert OutcomeAt(p, s', rest, |rest| - 1) == OutcomeAt(p, s, ops, |ops| - 1);
      RunPasses(p, s', rest, x, y);
      var k :| 0 <= k < |rest| && Passed(p, s', rest, k, y);
      assert Passed(p, s, ops, k + 1, y);
    }
  }

  // Round robin: between two allocations of the same address x, the cursor goes
  // over every other address y of the range, and whenever it goes over y, y is
  // the gateway, reserved, or the address given out by that very search.
  lemma RoundRobin(p: Pool, s: Store, first: Op, ops: seq<Op>, x: int, y: int)
    requires p.Valid() && Searches([first] + ops) && ops != []
    requires CursorIsSafe(p, Step(p, s, first).0, ops)
    requires p.Has(x) && p.Has(y) && x != y
    requires Step(p, s, first).1 == Gave(p.Key(x))
    requires OutcomeAt(p, Step(p, s, first).0, ops, |ops| - 1) == Gave(p.Key(x))
    ensures exists k :: 0 <= k < |ops| && Passed(p, Step(p, s, first).0, ops, k, y)
  {
    hide Sound, Pool.GetAny, Pool.Cursor, Contains, Store.Held, Pool.Key, Busy, Passed, OutcomeAt, CursorIsSafe;
    assert first == ([first] + ops)[0];
    assert forall k :: 0 <= k < |ops| ==> ops[k] == ([first] + ops)[k + 1];
    SearchGivesNearestFree(p, s, first.id);
    var r := p.GetAny(s, first.id, NO_FAULTS).1;
    p.KeysAreDistinct(r.value, x);
    RunPasses(p, Step(p, s, first).0, ops, x, y);
  }

  // ---------- capacity ----------

  // The addresses a search could still give, were the cursor elsewhere.
  ghost function Free(p: Pool, s: Store): (r: set<int>)
  {
    set x | p.Range().lo <= x <= p.Range().hi && x !in Busy(p, s)
  }

  // The results of consecutive searches, one for each id.
  function Gets(p: Pool, s: Store, ids: seq<string>): (rs: seq<Result<int, Error>>)
    requires Sound(p.net, p.start, p.end)
    ensures |rs| == |ids|
    decreases |ids|
  {
    hide Sound;
    if ids == [] then []
    else
      var (s', r) := p.GetAny(s, ids[0], NO_FAULTS);
      [r] + Gets(p, s', ids[1..])
  }

  // The first n results are distinct addresses of a set, and the others failures.
  ghost predicate FirstGive(rs: seq<Result<int, Error>>, n: int, from: set<int>)
  {
    && (forall k :: 0 <= k < |rs| ==> (rs[k].Ok? <==> k < n))
    && (forall k :: 0 <= k < |rs| && rs[k].Ok? ==> rs[k].value in from)
    && (forall j, k :: 0 <= j < k < |rs| && rs[j].Ok? && rs[k].Ok? ==> rs[j].value != rs[k].value)
  }

  lemma GetFillsFree(p: Pool, s: Store, id: string)
    requires p.Valid()
    ensures var (s', r) := p.GetAny(s, id, NO_FAULTS);
            && (r.Err? ==> s' == s)
            && (r.Ok? ==> r.value in Free(p, s) && Free(p, s') == Free(p, s) - {r.value}
                          && p.Cursor(s', NO_FAULTS) == r.value && r.value in Busy(p, s'))
            && (r.Err? <==> Free(p, s) <= {p.Cursor(s, NO_FAULTS)})
  {
    hide Sound, Pool.GetAny, Contains, Store.Held, Pool.Key, Pool.Name, Pool.Cursor;
    SearchGivesNearestFree(p, s, id);
    var (s', r) := p.GetAny(s, id, NO_FAULTS);
    if r.Ok? {
      forall x | p.Has(x)
        ensures p.Name(x) in s'.Held() <==> p.Name(x) in s.Held() || x == r.value
      {
        p.KeysAreDistinct(x, r.value);
      }
    }
  }

  // With the cursor on a busy address, as after any allocation, exactly as many
  // searches succeed as there are free addresses.
  lemma {:induction false} FillsExactly(p: Pool, s: Store, ids: seq<string>)
    requires p.Valid() && p.Cursor(s, NO_FAULTS) in Busy(p, s)
    ensures FirstGive(Gets(p, s, ids), |Free(p, s)|, Free(p, s))
    decreases |ids|, 1
  {
    hide Sound, Pool.GetAny, Pool.Cursor;
    if ids == [] {
    } else if Free(p, s) == {} {
      NothingToGive(p, s, ids);
    } else {
      FillsAfterFirst(p, s, ids);
    }
  }

  // A store that has never reserved anything.
  predicate Empty(s: Store)
  {
    s == Memory(map[], NIL) || s == Disk(map[])
  }

  // Capacity: from an empty store the searches give out the whole range except
  // the gateway, each address once, and then fail. The exception is a range whose
  // only addresses are its end and the gateway: there even the first one fails.
  lemma Capacity(p: Pool, s: Store, ids: seq<string>)
    requires p.Valid() && Empty(s)
    ensures var all := Free(p, s);
            var some := exists x :: p.Range().lo <= x < p.Range().hi && !p.IsGateway(x);
            && (forall x :: x in all <==> p.Has(x) && !p.IsGateway(x))
            && |all| == p.Range().Size() - (if exists x :: p.Has(x) && p.IsGateway(x) then 1 else 0)
            && FirstGive(Gets(p, s, ids), if some then |all| else 0, all)
  {
    hide Sound, Pool.GetAny, Pool.IsGateway, Pool.Cursor, Gets, FirstGive, Pool.Name;
    EmptyCursor(p, s);
    RangeWithoutGateway(p, Free(p, s));
    var all := Free(p, s);
    if exists x :: p.Range().lo <= x < p.Range().hi && !p.IsGateway(x) {
      var x :| p.Range().lo <= x < p.Range().hi && !p.IsGateway(x);
      assert x in Free(p, s);
      FillsAfterFirst(p, s, ids);
    } else {
      NothingToGive(p, s, ids);
    }
  }

  function Interval(lo: int, hi: int): (r: set<int>)
    requires lo <= hi + 1
    ensures (forall x :: x in r <==> lo <= x <= hi) && |r| == hi - lo + 1
    decreases hi - lo + 1
  {
    if lo > hi then {} else Interval(lo, hi - 1) + {hi}
  }

  lemma RangeWithoutGateway(p: Pool, all: set<int>)
    requires p.Valid() && forall x :: x in all <==> p.Has(x) && !p.IsGateway(x)
    ensures |all| == p.Range().Size() - (if exists x :: p.Has(x) && p.IsGateway(x) then 1 else 0)
  {
    hide Sound, Pool.Key;
    assert p.Range().lo <= p.Range().hi by {
      p.CursorInRing(Memory(map[], NIL), NO_FAULTS);
    }
    var range := Interval(p.Range().lo, p.Range().hi);
    if g :| p.Has(g) && p.IsGateway(g) {
      forall x | p.Has(x) && p.IsGateway(x) ensures x == g {
        p.KeysAreDistinct(x, g);
      }
      assert all == range - {g};
    } else {
      assert all == range;
    }
  }

  lemma EmptyCursor(p: Pool, s: Store)
    requires Empty(s)
    ensures s.Held() == map[]
    ensures p.Cursor(s, NO_FAULTS) == p.Range().hi
  {
    hide RangeError;
  }

  // Once one search succeeds, the cursor is on a busy address.
  lemma {:induction false} FillsAfterFirst(p: Pool, s: Store, ids: seq<string>)
    requires p.Valid() && !(Free(p, s) <= {p.Cursor(s, NO_FAULTS)})
    ensures FirstGive(Gets(p, s, ids), |Free(p, s)|, Free(p, s))
    decreases |ids|, 0
  {
    hide Sound, Pool.GetAny, Pool.Cursor, Busy, Free;
    if ids != [] {
      GetFillsFree(p, s, ids[0]);
      var (s', r) := p.GetAny(s, ids[0], NO_FAULTS);
      FillsExactly(p, s', ids[1..]);
      OneMore(Gets(p, s', ids[1..]), r.value, Free(p, s));
    }
  }

  lemma OneMore(rs: seq<Result<int, Error>>, x: int, from: set<int>)
    requires x in from && FirstGive(rs, |from - {x}|, from - {x})
    ensures FirstGive([Ok(x)] + rs, |from|, from)
  {
    assert |from - {x}| == |from| - 1;
    var all := [Ok(x)] + rs;
    forall k | 0 < k < |all| ensures all[k] == rs[k - 1] {
    }
  }

  lemma {:induction false} NothingToGive(p: Pool, s: Store, ids: seq<string>)
    requires p.Valid() && Free(p, s) <= {p.Cursor(s, NO_FAULTS)}
    ensures FirstGive(Gets(p, s, ids), 0, Free(p, s))
    decreases |ids|
  {
    hide Sound, Pool.GetAny, Pool.Cursor, Busy, Free;
    if ids != [] {
      GetFillsFree(p, s, ids[0]);
      NothingToGive(p, s, ids[1..]);
    }
  }

  // ---------- the directory refines the map ----------

  // The same reservations, and a cursor file that holds the text of the cursor;
  // no cursor is no file.
  ghost predicate Related(text: Text, disk: Store, mem: Store)
  {
    && disk.Disk? && mem.Memory?
    && disk.Held() == mem.ipMap
    && if mem.last == NIL then LAST_IP_FILE !in disk.files
       else && IsAddress(mem.last) && Canon(mem.last) == mem.last
            && LAST_IP_FILE in disk.files && disk.files[LAST_IP_FILE] == text.show(mem.last)
  }

  lemma SameCursor(p: Pool, disk: Store, mem: Store)
    requires p.Valid() && Related(p.text, disk, mem)
    ensures p.Cursor(disk, NO_FAULTS) == p.Cursor(mem, NO_FAULTS)
  {
    hide FromBytes, ToBytes, Contains, HostBits, StartError, EndError, Sound;
    CanonIsCanonical(NIL);
  }

  lemma RelatedReserve(p: Pool, disk: Store, mem: Store, id: string, ip: IP)
    requires p.Valid() && Related(p.text, disk, mem) && IsAddress(ip)
    ensures var (d, rd) := Reserve(p.text, disk, id, ip, NO_FAULTS);
            var (m, rm) := Reserve(p.text, mem, id, ip, NO_FAULTS);
            rd == rm && Related(p.text, d, m)
  {
    hide Sound;
    CanonIsCanonical(ip);
    NamesAreDistinct(p.text, ip, ip);
  }

  lemma {:induction false} RelatedSearch(p: Pool, disk: Store, mem: Store, id: string, cur: int, stop: int)
    requires p.Valid() && Related(p.text, disk, mem) && p.Has(cur) && p.Has(stop)
    ensures var (d, rd) := p.Search(disk, id, NO_FAULTS, cur, stop);
            var (m, rm) := p.Search(mem, id, NO_FAULTS, cur, stop);
            rd == rm && Related(p.text, d, m)
    decreases p.Range().Dist(cur, stop)
  {
    hide Sound, Related, Reserve, Pool.Key;
    if cur != stop {
      p.KeyInRange(cur);
      RelatedReserve(p, disk, mem, id, p.Key(cur));
      var (d, r) := Reserve(p.text, disk, id, p.Key(cur), NO_FAULTS);
      var (m, _) := Reserve(p.text, mem, id, p.Key(cur), NO_FAULTS);
      if p.IsGateway(cur) {
        RelatedSearch(p, disk, mem, id, p.Range().Next(cur), stop);
      } else if r == Ok(false) {
        RelatedSearch(p, d, m, id, p.Range().Next(cur), stop);
      }
    }
  }

  // One operation on both stores: the same outcome; and they stay related exactly
  // when it is not a release of the cursor file's text.
  lemma StepRefines(p: Pool, disk: Store, mem: Store, op: Op)
    requires p.Valid() && Related(p.text, disk, mem)
    ensures Step(p, disk, op).1 == Step(p, mem, op).1
    ensures Related(p.text, Step(p, disk, op).0, Step(p, mem, op).0) <==> !NamesCursor(disk, op)
  {
    hide Sound, Contains, Pool.Search, Reserve, Pool.Key, Pool.Cursor;
    match op {
      case Drop(id) =>
        ReleaseExact(disk, id);
        ReleaseExact(mem, id);
      case Ask(id, ip) =>
        if ip == NIL {
          SameCursor(p, disk, mem);
          p.SearchStarts(disk, id, NO_FAULTS);
          p.SearchStarts(mem, id, NO_FAULTS);
          var c := p.Cursor(mem, NO_FAULTS);
          RelatedSearch(p, disk, mem, id, p.Range().Next(c), c);
        } else if IsAddress(ip) {
          RelatedReserve(p, disk, mem, id, ip);
        }
    }
  }

  // The directory store gives the same outcomes as the in-memory store over
  // every run in which no released id is the cursor file's text at that moment.
  lemma {:induction false} DiskRefinesMemory(p: Pool, disk: Store, mem: Store, ops: seq<Op>)
    requires p.Valid() && Related(p.text, disk, mem)
    requires CursorIsSafe(p, disk, ops)
    ensures forall k :: 0 <= k < |ops| ==> OutcomeAt(p, disk, ops, k) == OutcomeAt(p, mem, ops, k)
    ensures Related(p.text, StateAt(p, disk, ops, |ops|), StateAt(p, mem, ops, |ops|))
    decreases |ops|
  {
    hide Sound, Related, Step, NamesCursor;
    if ops != [] {
      var d, m, rest := Step(p, disk, ops[0]).0, Step(p, mem, ops[0]).0, ops[1..];
      assert StateAt(p, disk, ops, 0) == disk;
      StepRefines(p, disk, mem, ops[0]);
      forall k | 0 <= k < |rest|
        ensures !NamesCursor(StateAt(p, d, rest, k), rest[k])
        ensures rest[k] == ops[k + 1]
        ensures StateAt(p, d, rest, k) == StateAt(p, disk, ops, k + 1)
        ensures StateAt(p, m, rest, k) == StateAt(p, mem, ops, k + 1)
      {
      }
      DiskRefinesMemory(p, d, m, rest);
      forall k | 0 <= k < |ops| ensures OutcomeAt(p, disk, ops, k) == OutcomeAt(p, mem, ops, k) {
        if k > 0 {
          assert OutcomeAt(p, d, rest, k - 1) == OutcomeAt(p, m, rest, k - 1);
        }
      }
    }
  }

  // What a release of the cursor file's text loses: the next search on disk
  // starts at the range start, the one in memory after the last allocation.
  lemma ReleasedCursorIsLost(p: Pool, disk: Store, mem: Store, op: Op)
    requires p.Valid() && Related(p.text, disk, mem) && NamesCursor(disk, op)
    ensures p.Cursor(Step(p, disk, op).0, NO_FAULTS) == p.Range().hi
    ensures p.Cursor(Step(p, mem, op).0, NO_FAULTS) == p.Cursor(mem, NO_FAULTS)
  {
    hide Sound, RangeError;
  }

  // So the two stores part: if the range start and the address after the cursor
  // are different and both free, the next search gives the one on disk and the
  // other in memory.
  lemma ReleasedCursorDiverges(p: Pool, disk: Store, mem: Store, op: Op, id: string)
    requires p.Valid() && Related(p.text, disk, mem) && NamesCursor(disk, op)
    requires var after, next := Busy(p, Step(p, mem, op).0), p.Range().Next(p.Cursor(mem, NO_FAULTS));
             next != p.Range().lo && next !in after && p.Range().lo !in after
    ensures var x, y := p.Range().lo, p.Range().Next(p.Cursor(mem, NO_FAULTS));
            && Step(p, Step(p, disk, op).0, Ask(id, NIL)).1 == Gave(p.Key(x))
            && Step(p, Step(p, mem, op).0, Ask(id, NIL)).1 == Gave(p.Key(y))
            && p.Key(x) != p.Key(y)
  {
    hide Sound, Pool.GetAny, Pool.Cursor, Pool.Key, Contains, Busy;
    var d, m := Step(p, disk, op).0, Step(p, mem, op).0;
    ReleasedCursorIsLost(p, disk, mem, op);
    p.CursorInRing(mem, NO_FAULTS);
    assert d.Held() == m.Held() by {
      ReleaseExact(disk, op.id);
      ReleaseExact(mem, op.id);
    }
    assert Busy(p, d) == Busy(p, m) by {
      SameBusy(p, d, m);
    }
    NextIfFree(p, d, id);
    NextIfFree(p, m, id);
    p.KeysAreDistinct(p.Range().lo, p.Range().Next(p.Cursor(mem, NO_FAULTS)));
  }

  lemma SameBusy(p: Pool, s: Store, t: Store)
    requires s.Held() == t.Held()
    ensures Busy(p, s) == Busy(p, t)
  {
  }

  // A free address right after the cursor is the one that a search gives.
  lemma NextIfFree(p: Pool, s: Store, id: string)
    requires p.Valid()
    requires var c := p.Cursor(s, NO_FAULTS); p.Range().Next(c) != c && p.Range().Next(c) !in Busy(p, s)
    ensures Step(p, s, Ask(id, NIL)).1 == Gave(p.Key(p.Range().Next(p.Cursor(s, NO_FAULTS))))
  {
    hide Sound, Pool.GetAny, Pool.Cursor, Pool.Key, Contains, Busy, Store.Held;
    SearchGivesNearestFree(p, s, id);
    var c := p.Cursor(s, NO_FAULTS);
    var x := p.Range().Next(c);
    forall y | p.Has(y) && y != c ensures p.Range().Dist(c, y) >= p.Range().Dist(c, x) {
    }
    assert p.GetAny(s, id, NO_FAULTS).1 == Ok(x);
  }

  // A whole run: from empty stores, an ADD for x, a DEL for an id that is the text
  // of x, and a search. The directory gives the range start, the map x + 1.
  lemma CursorTextRunDiverges(p: Pool, x: int, id: string)
    requires p.Valid() && Canon(p.gw) == p.gw && id != p.Name(x)
    requires p.Range().lo < x < p.Range().hi
    requires !p.IsGateway(p.Range().lo) && !p.IsGateway(x) && !p.IsGateway(x + 1)
    ensures var ops := [Ask(id, p.Key(x)), Drop(p.Name(x)), Ask(id, NIL)];
            && OutcomeAt(p, Disk(map[]), ops, 2) == Gave(p.Key(p.Range().lo))
            && OutcomeAt(p, Memory(map[], NIL), ops, 2) == Gave(p.Key(x + 1))
            && p.Key(p.Range().lo) != p.Key(x + 1)
  {
    hide Sound, Pool.GetAny, Pool.GetThis, Pool.Cursor, Pool.Key, Pool.Name, Contains;
    var disk, mem := Disk(map[]), Memory(map[], NIL);
    var first, second, third := Ask(id, p.Key(x)), Drop(p.Name(x)), Ask(id, NIL);
    var d, m := Step(p, disk, first).0, Step(p, mem, first).0;
    GrantsRequest(p, disk, id, x);
    GrantsRequest(p, mem, id, x);
    StepRefines(p, disk, mem, first);
    assert m.Held() == map[p.Name(x) := id];
    ReleaseExact(m, p.Name(x));
    assert Step(p, m, second).0.Held() == map[p.Name(x) := id];
    p.KeysAreDistinct(x, p.Range().lo);
    p.KeysAreDistinct(x, x + 1);
    ReleasedCursorDiverges(p, d, m, second, id);
    ThirdOutcome(p, disk, first, second, third);
    ThirdOutcome(p, mem, first, second, third);
  }

  lemma GrantsRequest(p: Pool, s: Store, id: string, x: int)
    requires p.Valid() && Canon(p.gw) == p.gw && p.Has(x) && !p.IsGateway(x) && s.Held() == map[]
    ensures var s' := Step(p, s, Ask(id, p.Key(x))).0;
            s' == Granted(p, s, id, x) && s'.Held() == map[p.Name(x) := id] && p.Cursor(s', NO_FAULTS) == x
  {
    hide WellFormed, Contains, FromBytes, Canon, Pool.GetThis, Pool.GetAny, Pool.Cursor, Pool.Key, Granted, Store.Held;
    p.KeyInRange(x);
    RequestExact(p, s, id, p.Key(x));
    assert p.Key(x) != NIL && x !in Busy(p, s);
  }

  lemma ThirdOutcome(p: Pool, s: Store, a: Op, b: Op, c: Op)
    requires p.Valid()
    ensures OutcomeAt(p, s, [a, b, c], 2) == Step(p, Step(p, Step(p, s, a).0, b).0, c).1
  {
    hide Sound, Step;
    var ops := [a, b, c];
    var s1 := Step(p, s, a).0;
    assert ops[1..] == [b, c];
    assert StateAt(p, s, ops, 2) == StateAt(p, s1, [b, c], 1);
    assert [b, c][1..] == [c];
    assert StateAt(p, s1, [b, c], 1) == StateAt(p, Step(p, s1, b).0, [c], 0);
  }
}
