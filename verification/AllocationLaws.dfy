/** What IPAllocator promises about single operations on a store that does not
    fail: which address a search gives, what each operation changes, and that a
    release undoes an allocation. */
module AllocationLaws {
  import opened Common
  import opened Addresses
  import opened Subnets
  import opened Ranges
  import opened Rings
  import opened Stores
  import opened Allocator

  // The integers of the range that may not be given out: gateway and reserved.
  ghost function Busy(p: Pool, s: Store): (r: set<int>)
  {
    set x | p.Range().lo <= x <= p.Range().hi && (p.IsGateway(x) || p.Name(x) in s.Held())
  }

  // The store after a successful reservation of x.
  function Granted(p: Pool, s: Store, id: string, x: int): (r: Store)
  {
    match s
    case Memory(m, _) => Memory(m[p.Name(x) := id], p.Key(x))
    case Disk(files) => Disk(files[p.Name(x) := id][LAST_IP_FILE := p.Name(x)])
  }

  lemma ReserveInRange(p: Pool, s: Store, id: string, x: int)
    requires p.Valid() && p.Has(x)
    ensures Reserve(p.text, s, id, p.Key(x), NO_FAULTS)
         == if p.Name(x) in s.Held() then (s, Ok(false)) else (Granted(p, s, id, x), Ok(true))
    ensures Granted(p, s, id, x).Held() == s.Held()[p.Name(x) := id]
  {
    hide Sound;
    p.KeyInRange(x);
    p.KeysAreDistinct(x, x);
  }

  // ---------- under any failures ----------

  // An address in its short form that lies in the range and in the subnet.
  predicate InRange(p: Pool, ip: IP)
  {
    Canon(ip) == ip && |ip| == |Canon(p.start)| && p.Has(FromBytes(ip)) && Contains(p.net, ip)
  }

  // The store s' that a failure met at x makes of s.
  ghost predicate FailedAt(p: Pool, s: Store, s': Store, id: string, faults: Faults, x: int)
  {
    && p.Has(x) && !p.IsGateway(x) && s.Disk? && faults.At(p.Name(x)).Some?
    && match LeftBehind(faults.At(p.Name(x)).value, id)
       case None => s' == s
       case Some(content) => p.Name(x) !in s.Held() && s'.Held() == s.Held()[p.Name(x) := content]
  }

  // The addresses that a search passes over: the gateway and those it finds
  // reserved. One whose file cannot be opened is not found reserved.
  ghost function Skipped(p: Pool, s: Store, faults: Faults): (skipped: set<int>)
  {
    set x | p.Range().lo <= x <= p.Range().hi
            && (p.IsGateway(x)
                || (p.Name(x) in s.Held() && (s.Memory? || faults.At(p.Name(x)) != Some(OpenFails))))
  }

  // The end of a search: the attempt to reserve the address it comes to.
  function Attempt(p: Pool, s: Store, id: string, faults: Faults, x: int): (r: (Store, Result<int, Error>))
  {
    var (s', reserved) := Reserve(p.text, s, id, p.Key(x), faults);
    (s', match reserved case Ok(_) => Ok(x) case Err(e) => Err(e))
  }

  lemma AttemptOutcome(p: Pool, s: Store, id: string, faults: Faults, x: int)
    requires p.Valid() && p.Has(x) && !p.IsGateway(x)
    ensures var (s', r) := Reserve(p.text, s, id, p.Key(x), faults);
            && (r == Ok(false) <==> x in Skipped(p, s, faults))
            && (r == Ok(false) ==> s' == s && p.Name(x) in s.Held())
            && (r == Ok(true) ==> p.Name(x) !in s.Held() && s'.Held() == s.Held()[p.Name(x) := id])
            && (r.Err? ==> r.error == StoreFailed && FailedAt(p, s, s', id, faults, x))
  {
    hide Sound, Pool.Key, Canon;
    p.KeyInRange(x);
    p.KeysAreDistinct(x, x);
  }

  // Whatever fails, the loop of Get comes to the address that the scan of the
  // ring finds, and ends with the one attempt to reserve it.
  lemma {:induction false} SearchUnderFaults(p: Pool, s: Store, id: string, faults: Faults, cur: int, stop: int)
    requires p.Valid() && p.Has(cur) && p.Has(stop)
    ensures p.Search(s, id, faults, cur, stop)
         == match p.Range().Scan(Skipped(p, s, faults), cur, stop)
            case None => (s, Err(Exhausted))
            case Some(x) => Attempt(p, s, id, faults, x)
    decreases p.Range().Dist(cur, stop)
  {
    hide Sound, Reserve, Pool.Key, Pool.Name, FailedAt;
    if cur != stop {
      if !p.IsGateway(cur) {
        AttemptOutcome(p, s, id, faults, cur);
      }
      if cur in Skipped(p, s, faults) {
        SearchUnderFaults(p, s, id, faults, p.Range().Next(cur), stop);
      }
    }
  }

  // One Get under any failures changes at most one reservation, and only one that
  // did not exist: a success adds the address given, for id; a store failure is
  // met at one address of the range, and leaves what the failed system call
  // leaves there; any other error changes nothing.
  lemma GetUnderFaults(p: Pool, s: Store, id: string, requested: IP, faults: Faults)
    requires p.Valid() && Canon(p.gw) == p.gw
    ensures var (s', r) := p.Get(s, id, requested, faults);
            match r
            case Ok(ip) => ip != p.gw && p.text.Of(ip) !in s.Held() && InRange(p, ip)
                           && s'.Held() == s.Held()[p.text.Of(ip) := id]
            case Err(StoreFailed) => exists x :: FailedAt(p, s, s', id, faults, x)
            case Err(_) => s' == s
  {
    hide Sound, Pool.GetAny, Pool.GetThis, Pool.Cursor, Contains, Store.Held, Pool.Key, FailedAt;
    if requested == NIL {
      AnyUnderFaults(p, s, id, faults);
      var r := p.GetAny(s, id, faults).1;
      if r.Ok? {
        p.KeysAreDistinct(r.value, r.value);
        p.KeyInRange(r.value);
        p.KeyIsAccepted(r.value);
      }
    } else {
      ThisUnderFaults(p, s, id, requested, faults);
    }
  }

  lemma AnyUnderFaults(p: Pool, s: Store, id: string, faults: Faults)
    requires p.Valid()
    ensures var (s', r) := p.GetAny(s, id, faults);
            match r
            case Ok(x) => !p.IsGateway(x) && p.Name(x) !in s.Held() && s'.Held() == s.Held()[p.Name(x) := id]
            case Err(StoreFailed) => exists x :: FailedAt(p, s, s', id, faults, x)
            case Err(_) => s' == s
  {
    hide Sound, Pool.Search, Pool.Cursor, Reserve, Contains, Pool.Key, Pool.Name, FailedAt, Store.Held;
    p.SearchStarts(s, id, faults);
    var c, skipped := p.Cursor(s, faults), Skipped(p, s, faults);
    SearchUnderFaults(p, s, id, faults, p.Range().Next(c), c);
    var found := p.Range().Scan(skipped, p.Range().Next(c), c);
    if found.Some? {
      p.Range().ScanFindsNearest(skipped, p.Range().Next(c), c, found.value);
      AttemptOutcome(p, s, id, faults, found.value);
      var reserved := Reserve(p.text, s, id, p.Key(found.value), faults).1;
      assert reserved.Ok? ==> reserved == Ok(reserved.value) && reserved.value;
    }
  }

  lemma ThisUnderFaults(p: Pool, s: Store, id: string, ip: IP, faults: Faults)
    requires p.Valid() && Canon(p.gw) == p.gw
    ensures var (s', r) := p.GetThis(s, id, ip, faults);
            match r
            case Ok(given) => given != p.gw && p.text.Of(given) !in s.Held() && InRange(p, given)
                              && s'.Held() == s.Held()[p.text.Of(given) := id]
            case Err(StoreFailed) => exists x :: FailedAt(p, s, s', id, faults, x)
            case Err(_) => s' == s
  {
    hide Sound, Reserve, Contains, Pool.Key, Canon, FromBytes, FailedAt, Store.Held;
    EqualIsSameCanon(p.gw, ip);
    NeverStoreFailed(ip, p.net, p.start, p.end);
    if !Equal(p.gw, ip) && RangeError(ip, p.net, p.start, p.end).None? {
      var x := FromBytes(Canon(ip));
      p.AcceptedCursor(ip);
      p.SameReservation(x, ip, s, id, faults);
      p.KeysAreDistinct(x, x);
      p.KeyInRange(x);
      p.KeyIsAccepted(x);
      AttemptOutcome(p, s, id, faults, x);
    }
  }

  lemma NeverStoreFailed(ip: IP, net: IPNet, start: IP, end: IP)
    ensures RangeError(ip, net, start, end) !in {Some(StoreFailed), Some(GatewayRequested), Some(NotAvailable)}
  {
    hide Contains, FromBytes, Canon;
  }

  // Why a request is refused, whatever fails, by the first that applies: it is for
  // the gateway, not in the range, or found reserved. Otherwise the one attempt to
  // reserve it decides, and a success gives the address asked for.
  lemma RequestRefusedExactly(p: Pool, s: Store, id: string, ip: IP, faults: Faults)
    requires p.Valid() && Canon(p.gw) == p.gw && ip != NIL
    ensures var (s', r) := p.Get(s, id, ip, faults);
            var x, err := FromBytes(Canon(ip)), RangeError(ip, p.net, p.start, p.end);
            && (r == Err(GatewayRequested) <==> Canon(ip) == p.gw)
            && (Canon(ip) != p.gw && err.Some? ==> r == Err(err.value))
            && (r == Err(NotAvailable) <==> Canon(ip) != p.gw && err.None? && x in Skipped(p, s, faults))
            && (Canon(ip) != p.gw && err.None? && x !in Skipped(p, s, faults) ==>
                  p.Has(x) && (s', r) == (Attempt(p, s, id, faults, x).0, p.Given(Attempt(p, s, id, faults, x).1)))
            && (r.Ok? ==> r.value == Canon(ip))
  {
    hide Sound, Reserve, Contains, Pool.Key, Canon, FromBytes, FailedAt, Store.Held;
    EqualIsSameCanon(p.gw, ip);
    NeverStoreFailed(ip, p.net, p.start, p.end);
    if !Equal(p.gw, ip) && RangeError(ip, p.net, p.start, p.end).None? {
      var x := FromBytes(Canon(ip));
      p.AcceptedCursor(ip);
      p.SameReservation(x, ip, s, id, faults);
      AttemptOutcome(p, s, id, faults, x);
    }
  }

  // The form in which an address is asked for does not matter.
  lemma RequestFormsAgree(p: Pool, s: Store, id: string, ip: IP, ip': IP, faults: Faults)
    requires p.Valid() && Canon(ip) == Canon(ip')
    ensures p.Get(s, id, ip, faults) == p.Get(s, id, ip', faults)
  {
    hide Sound, RangeError, Pool.GetAny, IsV4InV6;
    NilForms(ip, ip');
    EqualIsSameCanon(p.gw, ip);
    EqualIsSameCanon(p.gw, ip');
    RangeErrorOfForms(ip, ip', p.net, p.net, p.start, p.start, p.end, p.end);
  }

  // What a reply of the allocator carries: the mask of the subnet, the configured
  // gateway or the default one, one past the subnet's address; and an address that
  // is not this gateway, in the range, in short form however it was asked for.
  lemma ReplyExact(a: IPAllocator, s: Store, id: string, faults: Faults, r: Result<IPConfig, Error>)
    requires a.GetPool().Valid()
    requires a.Describes(r, a.GetPool().Get(s, id, a.conf.args, faults).1) && r.Ok?
    ensures r.value.mask == a.conf.subnet.mask && InRange(a.GetPool(), Canon(r.value.ip))
    ensures a.conf.gateway != NIL ==>
              r.value.gateway == a.conf.gateway && Canon(r.value.ip) != Canon(a.conf.gateway)
    ensures a.conf.gateway == NIL ==>
              && FromBytes(r.value.gateway) == FromBytes(Canon(a.conf.subnet.ip)) + 1
              && FromBytes(Canon(r.value.ip)) != FromBytes(Canon(a.conf.subnet.ip)) + 1
    ensures a.conf.args != NIL ==> Canon(r.value.ip) == Canon(a.conf.args)
  {
    hide Sound, FromBytes, ToBytes, Canon, Contains, HostBits, Pool.Get, Pool.Key, NextIP;
    var p := a.GetPool();
    a.GatewayExact();
    GetUnderFaults(p, s, id, a.conf.args, faults);
    if a.conf.args != NIL {
      RequestRefusedExactly(p, s, id, a.conf.args, faults);
    }
    if a.conf.gateway == NIL {
      OnePastIsGateway(p, Canon(r.value.ip));
    }
  }

  // An address of the range with the integer of the default gateway is the gateway.
  lemma OnePastIsGateway(p: Pool, ip: IP)
    requires p.Valid() && InRange(p, ip) && p.gw == Canon(NextIP(p.net.ip))
    ensures IsAddress(p.net.ip)
    ensures FromBytes(ip) == FromBytes(Canon(p.net.ip)) + 1 ==> ip == p.gw
  {
    hide FromBytes, ToBytes, MinBytes, Canon, Contains, HostBits, NextIP, Pool.Key;
    var x := FromBytes(ip);
    p.KeyInRange(x);
    FromBytesInjective(ip, p.Key(x));
    DefaultStart(p.net.ip);
    MinFromBytes(ip);
    MinFromBytes(p.gw);
  }

  // Where a search starts: after the address in the cursor, if that can be read
  // and is accepted in the range, and otherwise at the start, as after the end.
  lemma CursorExact(p: Pool, s: Store, faults: Faults, ip: IP)
    requires p.Valid() && Canon(ip) == ip
    ensures var accepted := ip != NIL && RangeError(ip, p.net, p.start, p.end).None?;
            var next := if accepted then FromBytes(ip) else p.Range().hi;
            && (s.Memory? && s.last == ip ==> p.Cursor(s, faults) == next)
            && (s.Disk? && !faults.cursorUnreadable && LAST_IP_FILE in s.files ==>
                  var text := s.files[LAST_IP_FILE];
                  && (IsAddress(ip) && text == p.text.show(ip) ==> p.Cursor(s, faults) == next)
                  && (p.text.parse(text) == NIL ==> p.Cursor(s, faults) == p.Range().hi))
            && (s.Disk? && (faults.cursorUnreadable || LAST_IP_FILE !in s.files) ==>
                  p.Cursor(s, faults) == p.Range().hi)
  {
    hide Sound, RangeError, FromBytes;
    CanonIsCanonical(NIL);
  }

  // ---------- without failures ----------

  // The loop of Get finds what the scan of the ring finds.
  lemma SearchIsScan(p: Pool, s: Store, id: string, cur: int, stop: int)
    requires p.Valid() && p.Has(cur) && p.Has(stop)
    ensures p.Search(s, id, NO_FAULTS, cur, stop)
         == match p.Range().Scan(Busy(p, s), cur, stop)
            case None => (s, Err(Exhausted))
            case Some(x) => (Granted(p, s, id, x), Ok(x))
  {
    hide Sound, Reserve, Granted, Pool.Key, Pool.Name;
    SearchUnderFaults(p, s, id, NO_FAULTS, cur, stop);
    assert Skipped(p, s, NO_FAULTS) == Busy(p, s);
    var found := p.Range().Scan(Busy(p, s), cur, stop);
    if found.Some? {
      p.Range().ScanFindsNearest(Busy(p, s), cur, stop, found.value);
      ReserveInRange(p, s, id, found.value);
    }
  }

  // The cursor that an allocation leaves behind is the allocated address.
  lemma CursorAfterGrant(p: Pool, s: Store, id: string, x: int)
    requires p.Valid() && p.Has(x)
    ensures p.Cursor(Granted(p, s, id, x), NO_FAULTS) == x
  {
    hide FromBytes, ToBytes, Contains, HostBits, StartError, EndError;
    p.KeyInRange(x);
    p.KeyIsAccepted(x);
    var last := LastReservedIP(p.text, Granted(p, s, id, x), NO_FAULTS).value;
    assert last == p.Key(x);
  }

  // A search gives the free address nearest after the cursor. It fails exactly
  // when every address of the range other than the cursor is the gateway or
  // reserved, and then changes nothing; otherwise it adds that one reservation
  // and moves the cursor to it.
  lemma SearchGivesNearestFree(p: Pool, s: Store, id: string)
    requires p.Valid()
    ensures var (s', r) := p.GetAny(s, id, NO_FAULTS);
            var c, busy := p.Cursor(s, NO_FAULTS), Busy(p, s);
            && p.Has(c)
            && (forall x :: r == Ok(x) <==>
                  && p.Has(x) && x != c && x !in busy
                  && forall y :: p.Has(y) && y != c && p.Range().Dist(c, y) < p.Range().Dist(c, x) ==> y in busy)
            && (r.Err? <==> forall y :: p.Has(y) && y != c ==> y in busy)
            && (r.Err? ==> r.error == Exhausted && s' == s)
            && (r.Ok? ==> s'.Held() == s.Held()[p.Name(r.value) := id]
                          && p.Cursor(s', NO_FAULTS) == r.value
                          && Contains(p.net, p.Key(r.value)) && p.Name(r.value) !in s.Held())
  {
    hide Sound, Pool.Search, Pool.Cursor, Reserve, Contains, Granted, Pool.Key;
    p.SearchStarts(s, id, NO_FAULTS);
    var c := p.Cursor(s, NO_FAULTS);
    SearchIsScan(p, s, id, p.Range().Next(c), c);
    p.Range().SearchAfterExact(Busy(p, s), c);
    var r := p.GetAny(s, id, NO_FAULTS).1;
    if r.Ok? {
      CursorAfterGrant(p, s, id, r.value);
      ReserveInRange(p, s, id, r.value);
      p.KeyIsAccepted(r.value);
    }
  }

  // A request is granted exactly for an address of the range that is neither the
  // gateway nor reserved, however it is written; a refusal changes nothing.
  lemma RequestExact(p: Pool, s: Store, id: string, ip: IP)
    requires p.Valid() && Canon(p.gw) == p.gw
    ensures var (s', r) := p.GetThis(s, id, ip, NO_FAULTS);
            var x := FromBytes(Canon(ip));
            && (r.Ok? <==> |Canon(ip)| == |p.net.mask| && p.Has(x) && x !in Busy(p, s))
            && (r.Ok? ==> r.value == Canon(ip) == p.Key(x) && s' == Granted(p, s, id, x)
                          && s'.Held() == s.Held()[p.Name(x) := id] && p.Cursor(s', NO_FAULTS) == x)
            && (r.Err? ==> s' == s)
  {
    hide HostBits, AndBytes, ToBytes, Contains, Pool.Cursor;
    EqualIsSameCanon(p.gw, ip);
    var x := FromBytes(Canon(ip));
    if |Canon(ip)| == |p.net.mask| && p.Has(x) {
      p.AddressOf(ip);
      p.KeyIsAccepted(x);
      RangeErrorOfCanon(ip, p.net, p.start, p.end);
      CanonIsCanonical(ip);
      ReserveInRange(p, s, id, x);
      p.SameReservation(x, ip, s, id, NO_FAULTS);
      CursorAfterGrant(p, s, id, x);
    } else if RangeError(ip, p.net, p.start, p.end).None? {
      p.AcceptedCursor(ip);
    }
  }

  // A release removes exactly the reservations that id holds.
  lemma ReleaseExact(s: Store, id: string)
    ensures ReleaseByID(s, id, NO_FAULTS).Held()
         == map n | n in s.Held() && s.Held()[n] != id :: s.Held()[n]
  {
  }

  // What one Get, searched or requested, does to the reservations: a success
  // adds exactly the address given, for id, and a failure adds nothing.
  lemma GetAddsExactlyOne(p: Pool, s: Store, id: string, requested: IP)
    requires p.Valid() && Canon(p.gw) == p.gw
    ensures var (s', r) := p.Get(s, id, requested, NO_FAULTS);
            match r
            case Ok(ip) => ip != p.gw && p.text.Of(ip) !in s.Held() && InRange(p, ip)
                           && s'.Held() == s.Held()[p.text.Of(ip) := id]
            case Err(_) => s' == s
  {
    hide Sound, Pool.Get;
    GetUnderFaults(p, s, id, requested, NO_FAULTS);
  }

  // When id held nothing, releasing it undoes an allocation for it.
  lemma ReleaseUndoesGet(p: Pool, s: Store, id: string, requested: IP)
    requires p.Valid() && Canon(p.gw) == p.gw
    requires forall n :: n in s.Held() ==> s.Held()[n] != id
    ensures ReleaseByID(p.Get(s, id, requested, NO_FAULTS).0, id, NO_FAULTS).Held() == s.Held()
  {
    hide Sound, Pool.Get, ReleaseByID, Store.Held;
    GetAddsExactlyOne(p, s, id, requested);
    ReleaseExact(p.Get(s, id, requested, NO_FAULTS).0, id);
  }
}
