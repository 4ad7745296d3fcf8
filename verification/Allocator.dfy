/** plugins/ipam/host-local/allocator.go: IPAllocator.

    The specification walks the range as a ring of integers over the state of a
    store of either kind; the class does it with addresses, as the source does. */
module Allocator {
  import opened Common
  import opened Addresses
  import opened Subnets
  import opened Ranges
  import opened Rings
  import opened Stores

  // What stays fixed while addresses are handed out: the subnet, the range, and
  // the gateway in its short form.
  datatype Pool = Pool(text: Text, net: IPNet, start: IP, end: IP, gw: IP)
  {
    ghost predicate Valid()
    {
      text.Faithful() && Sound(net, start, end)
    }

    function Range(): (r: Ring)
    {
      Ring(FromBytes(Canon(start)), FromBytes(Canon(end)))
    }

    predicate Has(x: int)
    {
      Range().Has(x)
    }

    // The address of an integer of the ring, and its text.
    function Key(x: int): (r: IP)
    {
      if x < 0 then NIL else ToBytes(x, |Canon(start)|)
    }

    function Name(x: int): (r: string)
    {
      text.show(Key(x))
    }

    predicate IsGateway(x: int)
    {
      Key(x) == gw
    }

    // The address the search starts after and does not reach again: the last
    // reserved one if it is in the range, and otherwise the end of the range.
    function Cursor(s: Store, faults: Faults): (r: int)
    {
      match LastReservedIP(text, s, faults)
      case Ok(ip) =>
        if ip != NIL && RangeError(ip, net, start, end).None? then FromBytes(Canon(ip)) else Range().hi
      case Err(_) => Range().hi
    }

    function Search(s: Store, id: string, faults: Faults, cur: int, stop: int)
      : (r: (Store, Result<int, Error>))
      requires Has(cur) && Has(stop)
      ensures r.1.Ok? ==> Has(r.1.value)
      decreases Range().Dist(cur, stop)
    {
      if cur == stop then (s, Err(Exhausted))
      else if IsGateway(cur) then Search(s, id, faults, Range().Next(cur), stop)
      else
        var (s', r) := Reserve(text, s, id, Key(cur), faults);
        match r
        case Err(e) => (s', Err(e))
        case Ok(true) => (s', Ok(cur))
        case Ok(false) => Search(s', id, faults, Range().Next(cur), stop)
    }

    // A search from the cursor on: the address as an integer of the ring.
    function GetAny(s: Store, id: string, faults: Faults): (r: (Store, Result<int, Error>))
      requires Sound(net, start, end)
      ensures r.1.Ok? ==> Has(r.1.value)
    {
      CursorInRing(s, faults);
      var c := Cursor(s, faults);
      Search(s, id, faults, Range().Next(c), c)
    }

    // A request for one address, in any of its forms.
    function GetThis(s: Store, id: string, ip: IP, faults: Faults): (r: (Store, Result<IP, Error>))
    {
      if Equal(gw, ip) then (s, Err(GatewayRequested))
      else if RangeError(ip, net, start, end).Some? then (s, Err(RangeError(ip, net, start, end).value))
      else
        var (s', r) := Reserve(text, s, id, ip, faults);
        match r
        case Err(e) => (s', Err(e))
        case Ok(true) => (s', Ok(Canon(ip)))
        case Ok(false) => (s', Err(NotAvailable))
    }

    // IPAllocator.Get: the new store, and the address given out in its short form.
    function Get(s: Store, id: string, requested: IP, faults: Faults): (r: (Store, Result<IP, Error>))
      requires Sound(net, start, end)
    {
      if requested != NIL then GetThis(s, id, requested, faults)
      else
        var (s', r) := GetAny(s, id, faults);
        (s', Given(r))
    }

    // The address given out by a search.
    function Given(r: Result<int, Error>): (result: Result<IP, Error>)
    {
      match r
      case Ok(x) => Ok(Key(x))
      case Err(e) => Err(e)
    }

    lemma SearchStarts(s: Store, id: string, faults: Faults)
      requires Sound(net, start, end)
      ensures var c := Cursor(s, faults);
              && Has(c) && Has(Range().Next(c))
              && Range().Dist(Range().Next(c), c) == Range().Size() - 1
              && GetAny(s, id, faults) == Search(s, id, faults, Range().Next(c), c)
    {
      CursorInRing(s, faults);
    }

    lemma CursorInRing(s: Store, faults: Faults)
      requires Sound(net, start, end)
      ensures Has(Cursor(s, faults))
    {
      var last := LastReservedIP(text, s, faults);
      if last.Ok? && RangeError(last.value, net, start, end).None? {
        AcceptedCursor(last.value);
      }
    }

    lemma AcceptedCursor(ip: IP)
      requires Sound(net, start, end) && RangeError(ip, net, start, end).None?
      ensures RangeError(Canon(ip), net, start, end).None? && ip != NIL && Canon(ip) != NIL
      ensures Has(FromBytes(Canon(ip))) && |Canon(ip)| == |Canon(start)|
      ensures Key(FromBytes(Canon(ip))) == Canon(ip)
    {
      CanonIsCanonical(ip);
      AddressOf(ip);
    }

    // ---------- integers of the ring and addresses ----------

    lemma AddressOf(ip: IP)
      requires Sound(net, start, end) && |Canon(ip)| == |Canon(start)|
      ensures Key(FromBytes(Canon(ip))) == Canon(ip)
    {
      ToFromBytes(Canon(ip));
    }

    lemma KeyInRange(x: int)
      requires Sound(net, start, end) && Has(x)
      ensures var k := Key(x);
              && |k| == |Canon(start)| && IsAddress(k) && FromBytes(k) == x
              && k[0] != 0 && Canon(k) == k
    {
      hide Contains, HostBits, ToBytes, FromBytes, Canon;
      var s, e := Canon(start), Canon(end);
      TopByte(s);
      FromToBytes(x, |s|);
      TopByte(Key(x));
      NonzeroTopIsCanonical(Key(x));
    }

    lemma KeyIsAccepted(x: int)
      requires Sound(net, start, end) && Has(x)
      ensures Contains(net, Key(x)) && RangeError(Key(x), net, start, end).None?
    {
      KeyInRange(x);
      ContainsIsBlock(net, start);
      ContainsIsBlock(net, end);
      ContainsIsBlock(net, Key(x));
    }

    lemma KeysAreDistinct(x: int, y: int)
      requires Valid() && Has(x) && Has(y)
      ensures Key(x) == Key(y) <==> x == y
      ensures Name(x) == Name(y) <==> x == y
      ensures Name(x) == text.Of(Key(x)) && Name(x) != LAST_IP_FILE
    {
      KeyInRange(x);
      KeyInRange(y);
      NamesAreDistinct(text, Key(x), Key(y));
    }

    // A store does not tell the forms of an address apart.
    lemma SameReservation(x: int, cur: IP, s: Store, id: string, faults: Faults)
      requires Sound(net, start, end) && Has(x) && Canon(cur) == Key(x)
      ensures Reserve(text, s, id, cur, faults) == Reserve(text, s, id, Key(x), faults)
    {
      KeyInRange(x);
    }

    lemma NotTheLast(x: int)
      requires Sound(net, start, end) && Has(x) && x != Range().hi
      ensures x + 1 < Pow256(|Canon(start)|)
    {
      hide FromBytes, Contains, HostBits, Canon;
      assert FromBytes(Canon(end)) < Pow256(|Canon(end)|);
    }

    // NextIP is the step of the ring, applied to every address but the end.
    lemma NextIPIsNext(x: int, cur: IP)
      requires Sound(net, start, end) && Has(x) && x != Range().hi && Canon(cur) == Key(x)
      ensures Canon(NextIP(cur)) == Key(Range().Next(x))
    {
      hide Sound, NextIP, Canon, FromBytes;
      KeyInRange(x);
      AllOnesIsMax(Key(x));
      NotTheLast(x);
      NextIPAddsOne(cur);
      AddressOf(NextIP(cur));
    }
  }

  datatype IPConfig = IPConfig(ip: IP, mask: seq<byte>, gateway: IP)

  class IPAllocator {
    const start: IP
    const end: IP
    const conf: Conf
    const store: Backend

    constructor (start: IP, end: IP, conf: Conf, store: Backend)
      ensures this.start == start && this.end == end && this.conf == conf && this.store == store
    {
      this.start, this.end, this.conf, this.store := start, end, conf, store;
    }

    static method NewIPAllocator(conf: Conf, store: Backend) returns (r: Result<IPAllocator, Error>)
      ensures match ConfiguredRange(conf)
              case Err(e) => r == Err(e)
              case Ok((s, e)) => r.Ok? && r.value.start == s && r.value.end == e
                                 && r.value.conf == conf && r.value.store == store
    {
      var (ones, masklen) := Size(conf.subnet.mask);
      if ones > masklen - 2 {
        return Err(TooSmall);
      }
      var range := ComputeNetworkRange(conf.subnet);
      if range.Err? {
        return Err(range.error);
      }
      var (first, end) := range.value;
      var start := NextIP(first);
      if conf.rangeStart != NIL {
        var err := ValidateRangeIP(conf.rangeStart, conf.subnet, NIL, NIL);
        if err.Some? {
          return Err(err.value);
        }
        start := conf.rangeStart;
      }
      if conf.rangeEnd != NIL {
        var err := ValidateRangeIP(conf.rangeEnd, conf.subnet, start, NIL);
        if err.Some? {
          return Err(err.value);
        }
        end := conf.rangeEnd;
      }
      var a := new IPAllocator(start, end, conf, store);
      return Ok(a);
    }

    function Gateway(): (r: IP)
    {
      if conf.gateway != NIL then conf.gateway else NextIP(conf.subnet.ip)
    }

    function GetPool(): (r: Pool)
    {
      Pool(store.Codec(), conf.subnet, start, end, Canon(Gateway()))
    }

    // The gateway is the configured one, in its short form, or one past the
    // subnet's own address.
    lemma GatewayExact()
      ensures Canon(GetPool().gw) == GetPool().gw
      ensures conf.gateway != NIL ==> Gateway() == conf.gateway && GetPool().gw == Canon(conf.gateway)
      ensures conf.gateway == NIL && IsAddress(conf.subnet.ip) ==>
                Gateway() == GetPool().gw && FromBytes(GetPool().gw) == FromBytes(Canon(conf.subnet.ip)) + 1
      ensures conf.gateway == NIL && Steppable(Canon(conf.subnet.ip)) ==>
                |GetPool().gw| == |Canon(conf.subnet.ip)|
    {
      hide FromBytes, NextIP;
      CanonIsCanonical(Gateway());
      if conf.gateway == NIL && IsAddress(conf.subnet.ip) {
        DefaultStart(conf.subnet.ip);
        if Steppable(Canon(conf.subnet.ip)) {
          NextIPAddsOne(conf.subnet.ip);
        }
      }
    }

    function NextInRange(cur: IP): (r: IP)
    {
      if Equal(cur, end) then start else NextIP(cur)
    }

    lemma NextInRangeIsNext(x: int, cur: IP)
      requires Sound(conf.subnet, start, end) && GetPool().Has(x) && Canon(cur) == GetPool().Key(x)
      ensures Canon(NextInRange(cur)) == GetPool().Key(GetPool().Range().Next(x))
    {
      var p := GetPool();
      EqualIsSameCanon(cur, end);
      p.AddressOf(start);
      p.AddressOf(end);
      p.KeyInRange(x);
      if x != p.Range().hi {
        p.NextIPIsNext(x, cur);
      }
    }

    // Which addresses bound the search, for each outcome of the cursor's checks.
    lemma SearchBounds(s: Store, faults: Faults, last: Result<IP, Error>)
      requires Sound(conf.subnet, start, end)
      requires SameAddress(last, LastReservedIP(store.Codec(), s, faults))
      ensures var p, c := GetPool(), GetPool().Cursor(s, faults);
              && p.Has(c)
              && (last.Ok? && last.value != NIL && RangeError(last.value, conf.subnet, start, end) == None
                  ==> Canon(last.value) == p.Key(c) && Canon(NextInRange(last.value)) == p.Key(p.Range().Next(c)))
              && ((last.Ok? && last.value != NIL && RangeError(last.value, conf.subnet, start, end) == None)
                  || (Canon(end) == p.Key(c) && Canon(start) == p.Key(p.Range().Next(c))))
    {
      hide FromBytes, ToBytes, MinBytes, AndBytes, HostBits, Contains, StartError, EndError;
      var p := GetPool();
      if last.Ok? && last.value != NIL {
        RangeErrorOfCanon(last.value, conf.subnet, start, end);
        if RangeError(last.value, conf.subnet, start, end) == None {
          p.AcceptedCursor(last.value);
          NextInRangeIsNext(FromBytes(Canon(last.value)), last.value);
        }
      }
      p.AddressOf(start);
      p.AddressOf(end);
    }

    // The first address to try and the one to stop before.
    method GetSearchRange(faults: Faults) returns (startIP: IP, endIP: IP)
      requires Sound(conf.subnet, start, end)
      ensures var p, c := GetPool(), GetPool().Cursor(store.State(), faults);
              && p.Has(c) && Canon(endIP) == p.Key(c)
              && Canon(startIP) == p.Key(p.Range().Next(c))
    {
      hide Sound, RangeError, NextIP, Contains, HostBits, FromBytes, ToBytes;
      hide Pool.Cursor, Pool.Key, NextInRange;
      var last := store.LastReserved(faults);
      SearchBounds(store.State(), faults, last);
      if last.Ok? && last.value != NIL {
        var err := ValidateRangeIP(last.value, conf.subnet, start, end);
        if err == None {
          return NextInRange(last.value), last.value;
        }
      }
      return start, end;
    }

    // IPAllocator.Get with an address asked for.
    method GetRequested(id: string, requestedIP: IP, faults: Faults) returns (r: Result<IPConfig, Error>)
      modifies store.Repr()
      ensures var (s', given) := GetPool().GetThis(old(store.State()), id, requestedIP, faults);
              store.State() == s' && Describes(r, given)
    {
      var gw := Gateway();
      EqualIsSameCanon(gw, requestedIP);
      EqualIsSameCanon(Canon(gw), requestedIP);
      CanonIsCanonical(gw);
      if Equal(gw, requestedIP) {
        return Err(GatewayRequested);
      }
      var err := ValidateRangeIP(requestedIP, conf.subnet, start, end);
      if err.Some? {
        return Err(err.value);
      }
      var reserved := store.ReserveIP(id, requestedIP, faults);
      if reserved.Err? {
        return Err(reserved.error);
      }
      if reserved.value {
        return Ok(IPConfig(requestedIP, conf.subnet.mask, gw));
      }
      return Err(NotAvailable);
    }

    // IPAllocator.Get without one: at most one try for each address but the last.
    method GetSearched(id: string, faults: Faults) returns (r: Result<IPConfig, Error>, ghost turns: nat)
      requires store.Codec().Faithful() && Sound(conf.subnet, start, end)
      modifies store.Repr()
      ensures var (s', given) := GetPool().GetAny(old(store.State()), id, faults);
              store.State() == s' && Describes(r, GetPool().Given(given))
      ensures turns <= GetPool().Range().Size() - 1
    {
      hide Sound, Canon, Equal, RangeError, Reserve, LastReservedIP, NextIP, Contains, HostBits, FromBytes, ToBytes;
      hide Pool.Search, Pool.GetAny, Pool.Cursor, Pool.Key, NextInRange;
      ghost var p := GetPool();
      var gw := Gateway();
      var startIP, endIP := GetSearchRange(faults);
      ghost var s, c := store.State(), p.Cursor(store.State(), faults);
      ghost var x := p.Range().Next(c);
      turns := 0;
      p.SearchStarts(s, id, faults);
      var cur := startIP;
      while !Equal(cur, endIP)
        invariant p.Has(c) && Canon(endIP) == p.Key(c)
        invariant p.Has(x) && Canon(cur) == p.Key(x)
        invariant p.GetAny(s, id, faults) == p.Search(store.State(), id, faults, x, c)
        invariant turns + p.Range().Dist(x, c) == p.Range().Size() - 1
        decreases p.Range().Dist(x, c)
      {
        SearchStep(x, c, cur, endIP, store.State(), id, faults);
        turns := turns + 1;
        if !Equal(cur, gw) {
          var reserved := store.ReserveIP(id, cur, faults);
          if reserved.Err? {
            r := Err(reserved.error);
            return;
          }
          if reserved.value {
            r := Ok(IPConfig(cur, conf.subnet.mask, gw));
            return;
          }
        }
        cur := NextInRange(cur);
        x := p.Range().Next(x);
      }
      SearchEnds(x, c, cur, endIP, store.State(), id, faults);
      r := Err(Exhausted);
    }

    // One turn of the loop.
    lemma SearchStep(x: int, c: int, cur: IP, endIP: IP, s: Store, id: string, faults: Faults)
      requires Sound(conf.subnet, start, end) && GetPool().Has(x) && GetPool().Has(c)
      requires Canon(cur) == GetPool().Key(x) && Canon(endIP) == GetPool().Key(c) && !Equal(cur, endIP)
      ensures var p := GetPool();
              && p.Has(p.Range().Next(x)) && p.Range().Dist(x, c) > 0
              && p.Range().Dist(p.Range().Next(x), c) == p.Range().Dist(x, c) - 1
              && Canon(NextInRange(cur)) == p.Key(p.Range().Next(x))
              && (if Equal(cur, Gateway())
                  then p.Search(s, id, faults, x, c) == p.Search(s, id, faults, p.Range().Next(x), c)
                  else var (s', r) := Reserve(store.Codec(), s, id, cur, faults);
                       p.Search(s, id, faults, x, c)
                       == match r
                          case Err(e) => (s', Err(e))
                          case Ok(true) => (s', Ok(x))
                          case Ok(false) => p.Search(s', id, faults, p.Range().Next(x), c))
    {
      hide FromBytes, ToBytes, MinBytes, AndBytes, HostBits, Contains, RangeError, Reserve, NextIP, Sound;
      EqualIsSameCanon(cur, endIP);
      EqualIsSameCanon(cur, Gateway());
      GetPool().SameReservation(x, cur, s, id, faults);
      NextInRangeIsNext(x, cur);
    }

    lemma SearchEnds(x: int, c: int, cur: IP, endIP: IP, s: Store, id: string, faults: Faults)
      requires store.Codec().Faithful() && Sound(conf.subnet, start, end)
      requires GetPool().Has(x) && GetPool().Has(c)
      requires Canon(cur) == GetPool().Key(x) && Canon(endIP) == GetPool().Key(c) && Equal(cur, endIP)
      ensures GetPool().Search(s, id, faults, x, c) == (s, Err(Exhausted))
    {
      EqualIsSameCanon(cur, endIP);
      GetPool().KeysAreDistinct(x, c);
    }

    method Get(id: string, faults: Faults) returns (r: Result<IPConfig, Error>)
      requires store.Codec().Faithful() && Sound(conf.subnet, start, end)
      modifies store.Repr()
      ensures var (s', given) := GetPool().Get(old(store.State()), id, conf.args, faults);
              store.State() == s' && Describes(r, given)
    {
      if conf.args != NIL {
        r := GetRequested(id, conf.args, faults);
      } else {
        ghost var turns;
        r, turns := GetSearched(id, faults);
      }
    }

    // A reply carries the address that was given, the subnet's mask and the gateway.
    predicate Describes(r: Result<IPConfig, Error>, given: Result<IP, Error>)
    {
      match r
      case Err(e) => given == Err(e)
      case Ok(c) => given == Ok(Canon(c.ip)) && c.mask == conf.subnet.mask && c.gateway == Gateway()
    }

    method Release(id: string, faults: Faults)
      modifies store.Repr()
      ensures store.State() == ReleaseByID(old(store.State()), id, faults)
    {
      store.ReleaseAll(id, faults);
    }
  }
}
