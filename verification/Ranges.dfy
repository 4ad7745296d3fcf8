/** plugins/ipam/host-local/allocator.go, the range arithmetic: networkRange,
    validateRangeIP and the range that NewIPAllocator settles on. */
module Ranges {
  import opened Common
  import opened Addresses
  import opened Bits
  import opened Subnets

  datatype Error =
    | TooSmall | MissingSubnet | VersionMismatch
    | NotAnAddress | NotInNetwork | SizeMismatch | BeforeStart | AfterEnd
    | GatewayRequested | NotAvailable | Exhausted | StoreFailed

  // The fields of IPAMConfig that decide addresses; args is the address asked
  // for through CNI_ARGS. An absent address is NIL.
  datatype Conf = Conf(subnet: IPNet, rangeStart: IP, rangeEnd: IP, gateway: IP, args: IP)

  // ---------- networkRange ----------

  // The decrement of a byte, which wraps at zero.
  function Decrement(b: byte): (r: byte)
  {
    var i: int := b;
    (i + 255) % 256
  }

  function NetworkRange(net: IPNet): (r: Result<(IP, IP), Error>)
  {
    var ip := Canon(net.ip);
    if net.ip == NIL then Err(MissingSubnet)
    else if !IsAddress(ip) then Err(NotAnAddress)
    else if |ip| != |net.mask| then Err(VersionMismatch)
    else
      var end := OrNotBytes(ip, net.mask);
      Ok((net.ip, if |ip| == 4 then end[3 := Decrement(end[3])] else end))
  }

  method ComputeNetworkRange(net: IPNet) returns (r: Result<(IP, IP), Error>)
    ensures r == NetworkRange(net)
  {
    if net.ip == NIL {
      return Err(MissingSubnet);
    }
    var ip := Canon(net.ip);
    if !IsAddress(ip) {
      return Err(NotAnAddress);
    }
    if |ip| != |net.mask| {
      return Err(VersionMismatch);
    }
    var end: IP := [];
    for i := 0 to |ip|
      invariant end == OrNotBytes(ip, net.mask)[..i]
    {
      end := end + [OrNotByte(ip[i], net.mask[i])];
    }
    assert end == OrNotBytes(ip, net.mask);
    if To4(ip) != NIL {
      end := end[3 := Decrement(end[3])];
    }
    r := Ok((net.ip, end));
  }

  // The last address that is handed out by default: the last of the block, or
  // the one before it for IPv4, where the last is the broadcast address.
  function DefaultEnd(net: IPNet): (r: int)
    requires HostBits(net.mask).Some?
  {
    var last := BlockEnd(FromBytes(Canon(net.ip)), HostBits(net.mask).value);
    if |net.mask| == 4 then last - 1 else last
  }

  lemma LoweredLast(end: seq<byte>)
    requires |end| == 4 && end[3] != 0
    ensures FromBytes(end[3 := Decrement(end[3])]) == FromBytes(end) - 1
  {
    var lowered := end[3 := Decrement(end[3])];
    SplitLast(end);
    SplitLast(lowered);
    assert lowered[..3] == end[..3];
  }

  // Without host bits the decrement does borrow, and wraps: the end of a /32 whose
  // last byte is zero has 255 there. NewIPAllocator refuses such a subnet before.
  lemma SingleAddressWraps(net: IPNet)
    requires |Canon(net.ip)| == 4 && net.mask == [255, 255, 255, 255] && Canon(net.ip)[3] == 0
    ensures var ip := Canon(net.ip);
            NetworkRange(net) == Ok((net.ip, [ip[0], ip[1], ip[2], 255]))
  {
    var ip := Canon(net.ip);
    forall i | 0 <= i < 4 ensures OrNotByte(ip[i], 255) == ip[i] {
      OrNotFull(ip[i]);
    }
    hide OrNotByte;
    assert OrNotBytes(ip, net.mask) == ip;
    assert ip[3 := Decrement(ip[3])] == [ip[0], ip[1], ip[2], 255];
  }

  lemma OrNotFull(b: byte)
    ensures OrNotByte(b, 255) == b
  {
    hide Or, Not;
    SmallPowers();
    NotIsComplement(255, 8);
    OrLowBits(b, 0, 8);
  }

  // The last byte of the end of a block of at least two addresses is odd.
  lemma BlockEndIsOdd(end: seq<byte>, v: nat, h: nat)
    requires h >= 1 && end != [] && FromBytes(end) == BlockEnd(v, h)
    ensures end[|end| - 1] != 0
  {
  }

  // With two host bits the decrement of the last byte never borrows, and the
  // bytewise end is network + 2^h - 1 (IPv6) or network + 2^h - 2 (IPv4).
  lemma NetworkRangeArithmetic(net: IPNet)
    requires WellFormed(net) && HostBits(net.mask).value >= 2
    ensures NetworkRange(net).Ok? && NetworkRange(net).value.0 == net.ip
    ensures var n, end := |net.mask|, NetworkRange(net).value.1;
            && |end| == n && FromBytes(end) == DefaultEnd(net)
            && DefaultEnd(net) == FromBytes(AndBytes(Canon(net.ip), net.mask))
                                  + Pow2(HostBits(net.mask).value) - (if n == 4 then 2 else 1)
  {
    var ip, h := Canon(net.ip), HostBits(net.mask).value;
    var v, end := FromBytes(ip), OrNotBytes(ip, net.mask);
    assert FromBytes(end) == BlockEnd(v, h) && FromBytes(AndBytes(ip, net.mask)) == BlockStart(v, h) by {
      CIDRMaskOfHostBits(net.mask);
      AndMaskValue(ip, h);
      OrNotMaskValue(ip, h);
    }
    BlockSize(v, h);
    if |ip| == 4 {
      BlockEndIsOdd(end, v, h);
      LoweredLast(end);
    }
  }

  // A subnet whose network number and mask fit together, with host bits.
  predicate WellFormed(net: IPNet)
  {
    IsAddress(net.ip) && |Canon(net.ip)| == |net.mask| && HostBits(net.mask).Some?
  }

  // ---------- validateRangeIP ----------

  function StartError(c: IP, start: IP): (r: Option<Error>)
  {
    if start == NIL then None
    else if !IsAddress(start) then Some(NotAnAddress)
    else if |c| != |Canon(start)| then Some(SizeMismatch)
    else if FromBytes(c) < FromBytes(Canon(start)) then Some(BeforeStart)
    else None
  }

  function EndError(c: IP, end: IP): (r: Option<Error>)
  {
    if end == NIL then None
    else if !IsAddress(end) then Some(NotAnAddress)
    else if |c| != |Canon(end)| then Some(SizeMismatch)
    else if FromBytes(c) > FromBytes(Canon(end)) then Some(AfterEnd)
    else None
  }

  // Why an address is refused, comparing addresses as integers.
  function RangeError(ip: IP, net: IPNet, start: IP, end: IP): (r: Option<Error>)
  {
    var c := Canon(ip);
    if !IsAddress(c) then Some(NotAnAddress)
    else if !Contains(net, c) then Some(NotInNetwork)
    else if StartError(c, start).Some? then StartError(c, start)
    else EndError(c, end)
  }

  method CheckStart(c: IP, start: IP) returns (err: Option<Error>)
    ensures err == StartError(c, start)
  {
    if start == NIL {
      return None;
    }
    if !IsAddress(start) {
      return Some(NotAnAddress);
    }
    var s := Canon(start);
    if |c| != |s| {
      return Some(SizeMismatch);
    }
    for i := 0 to |c|
      invariant c[..i] == s[..i]
    {
      if c[i] > s[i] {
        FirstDifferenceDecides(s, c, i);
        return None;
      } else if c[i] < s[i] {
        FirstDifferenceDecides(c, s, i);
        return Some(BeforeStart);
      }
    }
    assert c == c[..|c|] == s[..|c|] == s;
    return None;
  }

  method CheckEnd(c: IP, end: IP) returns (err: Option<Error>)
    ensures err == EndError(c, end)
  {
    if end == NIL {
      return None;
    }
    if !IsAddress(end) {
      return Some(NotAnAddress);
    }
    var e := Canon(end);
    if |c| != |e| {
      return Some(SizeMismatch);
    }
    for i := 0 to |c|
      invariant c[..i] == e[..i]
    {
      if c[i] < e[i] {
        FirstDifferenceDecides(c, e, i);
        return None;
      } else if c[i] > e[i] {
        FirstDifferenceDecides(e, c, i);
        return Some(AfterEnd);
      }
    }
    assert c == c[..|c|] == e[..|c|] == e;
    return None;
  }

  // The two bounds are compared byte by byte, stopping at the first difference.
  method ValidateRangeIP(ip: IP, net: IPNet, start: IP, end: IP) returns (err: Option<Error>)
    ensures err == RangeError(ip, net, start, end)
  {
    var c := Canon(ip);
    if !IsAddress(c) {
      return Some(NotAnAddress);
    }
    if !Contains(net, c) {
      return Some(NotInNetwork);
    }
    err := CheckStart(c, start);
    if err == None {
      err := CheckEnd(c, end);
    }
  }

  // In a well-formed subnet, an address is accepted exactly when it lies in the
  // masked network and between the bounds, as integers of equal byte length.
  lemma AcceptedExactlyInRange(ip: IP, net: IPNet, start: IP, end: IP)
    requires WellFormed(net)
    ensures RangeError(ip, net, start, end).None?
            <==> var c, s, e, h := Canon(ip), Canon(start), Canon(end), HostBits(net.mask).value;
                 && |c| == |net.mask|
                 && var network := FromBytes(AndBytes(Canon(net.ip), net.mask));
                 && network <= FromBytes(c) < network + Pow2(h)
                 && (start != NIL ==> |s| == |c| && FromBytes(s) <= FromBytes(c))
                 && (end != NIL ==> |e| == |c| && FromBytes(c) <= FromBytes(e))
  {
    var h := HostBits(net.mask).value;
    var v, c := FromBytes(Canon(net.ip)), Canon(ip);
    ContainsIsSameBlock(net, c, h);
    CanonIsCanonical(ip);
    CIDRMaskOfHostBits(net.mask);
    AndMaskValue(Canon(net.ip), h);
    BlockIsInterval(v, FromBytes(c), h);
    BlockSize(v, h);
  }

  // Why an address is refused, in terms of integers: the first that applies of
  // not being an address, not being in the network, not having a bound's length,
  // being before the start, and being after the end.
  lemma RefusedExactly(ip: IP, net: IPNet, start: IP, end: IP)
    requires WellFormed(net)
    ensures var err, n := RangeError(ip, net, start, end), |net.mask|;
            var c, s, e := Canon(ip), Canon(start), Canon(end);
            var v, network := FromBytes(c), FromBytes(AndBytes(Canon(net.ip), net.mask));
            var inNet := |c| == n && network <= v < network + Pow2(HostBits(net.mask).value);
            var startOk := start == NIL || (|s| == n && FromBytes(s) <= v);
            && (err == Some(NotInNetwork) <==> (|ip| == 4 || |ip| == 16) && !inNet)
            && (err == Some(BeforeStart) <==> inNet && start != NIL && |s| == n && v < FromBytes(s))
            && (err == Some(AfterEnd) <==> inNet && startOk && end != NIL && |e| == n && v > FromBytes(e))
            && (err == Some(SizeMismatch) <==>
                  inNet && (|| (start != NIL && IsAddress(start) && |s| != n)
                            || (startOk && end != NIL && IsAddress(end) && |e| != n)))
            && (err == Some(NotAnAddress) <==>
                  || !(|ip| == 4 || |ip| == 16)
                  || (inNet && (|| (start != NIL && !IsAddress(start))
                                || (startOk && end != NIL && !IsAddress(end)))))
            && (err.Some? ==> err.value in {NotAnAddress, NotInNetwork, SizeMismatch, BeforeStart, AfterEnd})
  {
    var h := HostBits(net.mask).value;
    var c := Canon(ip);
    assert Contains(net, c) <==>
           var network := FromBytes(AndBytes(Canon(net.ip), net.mask));
           |c| == |net.mask| && network <= FromBytes(c) < network + Pow2(h) by {
      NetworkIsBlock(net, c);
    }
    hide Contains, FromBytes, AndBytes, HostBits, Pow2, IsV4InV6;
  }

  lemma NetworkIsBlock(net: IPNet, c: IP)
    requires WellFormed(net)
    ensures Contains(net, c) <==>
            var network := FromBytes(AndBytes(Canon(net.ip), net.mask));
            |Canon(c)| == |net.mask| && network <= FromBytes(Canon(c)) < network + Pow2(HostBits(net.mask).value)
  {
    var h := HostBits(net.mask).value;
    ContainsIsBlock(net, c);
    CIDRMaskOfHostBits(net.mask);
    AndMaskValue(Canon(net.ip), h);
    BlockSize(FromBytes(Canon(net.ip)), h);
  }

  lemma RangeErrorOfCanon(ip: IP, net: IPNet, start: IP, end: IP)
    ensures RangeError(Canon(ip), net, start, end) == RangeError(ip, net, start, end)
  {
    CanonIsCanonical(ip);
  }

  lemma CanonIsCanonical(ip: IP)
    ensures Canon(Canon(ip)) == Canon(ip)
  {
  }

  // ---------- NewIPAllocator ----------

  function ConfiguredRange(conf: Conf): (r: Result<(IP, IP), Error>)
  {
    var (ones, masklen) := Size(conf.subnet.mask);
    if ones > masklen - 2 then Err(TooSmall)
    else
      match NetworkRange(conf.subnet)
      case Err(e) => Err(e)
      case Ok((first, last)) =>
        if conf.rangeStart != NIL && RangeError(conf.rangeStart, conf.subnet, NIL, NIL).Some? then
          Err(RangeError(conf.rangeStart, conf.subnet, NIL, NIL).value)
        else
          var start := if conf.rangeStart != NIL then conf.rangeStart else NextIP(first);
          if conf.rangeEnd != NIL && RangeError(conf.rangeEnd, conf.subnet, start, NIL).Some? then
            Err(RangeError(conf.rangeEnd, conf.subnet, start, NIL).value)
          else
            Ok((start, if conf.rangeEnd != NIL then conf.rangeEnd else last))
  }

  // What the search needs of a range: both ends in the subnet, in order, and no
  // leading zero byte for an increment to drop.
  predicate Sound(net: IPNet, start: IP, end: IP)
  {
    && WellFormed(net)
    && |Canon(start)| == |Canon(end)| == |net.mask|
    && Canon(start)[0] != 0
    && FromBytes(Canon(start)) <= FromBytes(Canon(end))
    && Contains(net, start) && Contains(net, end)
  }

  // The first address of the range as an integer.
  function InitialStart(conf: Conf): (r: nat)
  {
    if conf.rangeStart != NIL then FromBytes(Canon(conf.rangeStart))
    else FromBytes(Canon(conf.subnet.ip)) + 1
  }

  lemma ConfiguredSubnet(conf: Conf)
    requires ConfiguredRange(conf).Ok?
    ensures WellFormed(conf.subnet) && HostBits(conf.subnet.mask).value >= 2
  {
  }

  lemma ContainsIsBlock(net: IPNet, ip: IP)
    requires WellFormed(net)
    ensures var v, h := FromBytes(Canon(net.ip)), HostBits(net.mask).value;
            Contains(net, ip)
            <==> |Canon(ip)| == |net.mask| && BlockStart(v, h) <= FromBytes(Canon(ip)) <= BlockEnd(v, h)
  {
    var v, h := FromBytes(Canon(net.ip)), HostBits(net.mask).value;
    ContainsIsSameBlock(net, ip, h);
    BlockIsInterval(v, FromBytes(Canon(ip)), h);
  }

  // One past a byte string, when it still fits and when it carries out.
  lemma SuccessorBytes(c: seq<byte>)
    requires c != []
    ensures var n, v, s := |c|, FromBytes(c), MinBytes(FromBytes(c) + 1);
            && FromBytes(s) == v + 1
            && (|s| == n <==> Pow256(n - 1) <= v + 1 < Pow256(n))
            && (v + 1 == Pow256(n) ==> |s| == n + 1)
            && |s| <= n + 1
  {
    var n, w := |c|, FromBytes(c) + 1;
    FromMinBytes(w);
    MinBytesLength(w, n);
    assert w < Pow256(n + 1);
    MinBytesFit(w, n + 1);
    if w == Pow256(n) {
      MinBytesLength(w, n + 1);
    }
  }

  // The start without RangeStart: one past the subnet's own address.
  lemma DefaultStart(ip: IP)
    requires IsAddress(ip)
    ensures var n, v, s := |Canon(ip)|, FromBytes(Canon(ip)), NextIP(ip);
            && FromBytes(s) == v + 1
            && (|s| == n <==> Pow256(n - 1) <= v + 1 < Pow256(n))
            && s != NIL && s[0] != 0 && Canon(s) == s && |s| <= n + 1
            && (v + 1 == Pow256(n) ==> !IsAddress(s))
  {
    hide FromBytes, MinBytes, Pow256;
    NextIPIsMinBytes(ip);
    SuccessorBytes(Canon(ip));
    NonzeroTopIsCanonical(NextIP(ip));
  }

  // The subnet's own address is in the subnet, and so is the default end.
  lemma DefaultEndInBlock(net: IPNet)
    requires WellFormed(net) && HostBits(net.mask).value >= 2
    ensures var v, h := FromBytes(Canon(net.ip)), HostBits(net.mask).value;
            BlockStart(v, h) <= v <= BlockEnd(v, h) && BlockStart(v, h) <= DefaultEnd(net) <= BlockEnd(v, h)
  {
    BlockSize(FromBytes(Canon(net.ip)), HostBits(net.mask).value);
  }

  // The start NewIPAllocator settles on: it has the subnet's length and no
  // leading zero byte exactly when its integer needs every byte.
  predicate GoodStart(conf: Conf, start: IP)
  {
    var n, s := |conf.subnet.mask|, Canon(start);
    && n > 0
    && (|s| == n && s[0] != 0 <==> Pow256(n - 1) <= InitialStart(conf) < Pow256(n))
    && (|s| == n && s[0] != 0 ==> FromBytes(s) == InitialStart(conf))
    && (|s| == n ==> InitialStart(conf) < Pow256(n))
  }

  lemma GivenStartIsGood(conf: Conf)
    requires ConfiguredRange(conf).Ok? && conf.rangeStart != NIL
    ensures GoodStart(conf, conf.rangeStart) && Contains(conf.subnet, conf.rangeStart)
    ensures |Canon(conf.rangeStart)| == |conf.subnet.mask|
  {
    ConfiguredSubnet(conf);
    var c := Canon(conf.rangeStart);
    CanonIsCanonical(conf.rangeStart);
    assert |c| == |conf.subnet.mask| by {
      ContainsIsBlock(conf.subnet, c);
    }
    TopByte(c);
  }

  lemma DefaultStartIsGood(conf: Conf)
    requires ConfiguredRange(conf).Ok? && conf.rangeStart == NIL
    ensures ConfiguredRange(conf).value.0 == NextIP(conf.subnet.ip)
    ensures GoodStart(conf, NextIP(conf.subnet.ip))
  {
    hide FromBytes, NextIP, Contains, HostBits, Pow256;
    ConfiguredSubnet(conf);
    DefaultStart(conf.subnet.ip);
  }

  lemma ContainsCanon(net: IPNet, ip: IP)
    ensures Contains(net, Canon(ip)) <==> Contains(net, ip)
  {
    CanonIsCanonical(ip);
  }

  lemma SameLengthCanon(ip: IP, n: nat)
    requires |ip| == n && |Canon(ip)| == n
    ensures Canon(ip) == ip
  {
  }

  lemma GivenEnd(conf: Conf)
    requires ConfiguredRange(conf).Ok? && conf.rangeEnd != NIL
    ensures var (start, end) := ConfiguredRange(conf).value;
            && end == conf.rangeEnd && Contains(conf.subnet, end)
            && |Canon(end)| == |Canon(start)| == |conf.subnet.mask|
            && FromBytes(Canon(start)) <= FromBytes(Canon(end))
  {
    ConfiguredSubnet(conf);
    var (start, end) := ConfiguredRange(conf).value;
    CanonIsCanonical(end);
    ContainsCanon(conf.subnet, end);
    ContainsIsBlock(conf.subnet, end);
    StartNotNil(conf);
  }

  lemma StartNotNil(conf: Conf)
    requires ConfiguredRange(conf).Ok?
    ensures ConfiguredRange(conf).value.0 != NIL
  {
    hide FromBytes, NextIP, Contains, HostBits, Pow256;
    ConfiguredSubnet(conf);
    DefaultStart(conf.subnet.ip);
  }

  lemma StartInBlock(conf: Conf, last: int)
    requires ConfiguredRange(conf).Ok?
    requires Pow256(|conf.subnet.mask| - 1) <= InitialStart(conf) <= last
    requires last <= BlockEnd(FromBytes(Canon(conf.subnet.ip)), HostBits(conf.subnet.mask).value)
    requires last < Pow256(|conf.subnet.mask|)
    ensures var start := ConfiguredRange(conf).value.0;
            && Contains(conf.subnet, start) && |Canon(start)| == |conf.subnet.mask|
            && Canon(start)[0] != 0 && FromBytes(Canon(start)) == InitialStart(conf)
  {
    ConfiguredSubnet(conf);
    if conf.rangeStart != NIL {
      GivenStartIsGood(conf);
    } else {
      DefaultStartIsGood(conf);
      ContainsIsBlock(conf.subnet, NextIP(conf.subnet.ip));
    }
  }

  // NewIPAllocator's checks give a sound range exactly when the start has no
  // leading zero byte and either RangeEnd is given or the start, RangeStart or
  // one past the subnet's address, does not pass the default end.
  lemma RangeIsSoundExactly(conf: Conf)
    requires ConfiguredRange(conf).Ok?
    ensures var (start, end) := ConfiguredRange(conf).value;
            Sound(conf.subnet, start, end)
            <==> InitialStart(conf) >= Pow256(|conf.subnet.mask| - 1)
                 && (conf.rangeEnd != NIL || InitialStart(conf) <= DefaultEnd(conf.subnet))
  {
    var (start, end) := ConfiguredRange(conf).value;
    StartIsGood(conf);
    if Sound(conf.subnet, start, end) {
      SoundNeeds(conf);
    } else if InitialStart(conf) >= Pow256(|conf.subnet.mask| - 1)
              && (conf.rangeEnd != NIL || InitialStart(conf) <= DefaultEnd(conf.subnet)) {
      SoundFrom(conf);
    }
  }

  lemma SoundNeeds(conf: Conf)
    requires ConfiguredRange(conf).Ok?
    requires Sound(conf.subnet, ConfiguredRange(conf).value.0, ConfiguredRange(conf).value.1)
    ensures |conf.subnet.mask| > 0 && InitialStart(conf) >= Pow256(|conf.subnet.mask| - 1)
    ensures conf.rangeEnd != NIL || InitialStart(conf) <= DefaultEnd(conf.subnet)
  {
    StartIsGood(conf);
    if conf.rangeEnd == NIL {
      NetworkRangeArithmetic(conf.subnet);
      SameLengthCanon(ConfiguredRange(conf).value.1, |conf.subnet.mask|);
    }
  }

  lemma SoundFrom(conf: Conf)
    requires ConfiguredRange(conf).Ok? && |conf.subnet.mask| > 0
    requires InitialStart(conf) >= Pow256(|conf.subnet.mask| - 1)
    requires conf.rangeEnd != NIL || InitialStart(conf) <= DefaultEnd(conf.subnet)
    ensures Sound(conf.subnet, ConfiguredRange(conf).value.0, ConfiguredRange(conf).value.1)
  {
    var net := conf.subnet;
    var (start, end) := ConfiguredRange(conf).value;
    ConfiguredSubnet(conf);
    assert && Contains(net, end) && |Canon(end)| == |net.mask|
           && InitialStart(conf) <= FromBytes(Canon(end)) by {
      if conf.rangeEnd != NIL {
        GivenEnd(conf);
        StartIsGood(conf);
      } else {
        DefaultEndIsGood(conf);
      }
    }
    ContainsIsBlock(net, end);
    StartInBlock(conf, FromBytes(Canon(end)));
  }

  lemma DefaultEndIsGood(conf: Conf)
    requires ConfiguredRange(conf).Ok? && conf.rangeEnd == NIL && |conf.subnet.mask| > 0
    requires Pow256(|conf.subnet.mask| - 1) <= DefaultEnd(conf.subnet)
    ensures var end := ConfiguredRange(conf).value.1;
            && Contains(conf.subnet, end) && |Canon(end)| == |conf.subnet.mask|
            && FromBytes(Canon(end)) == DefaultEnd(conf.subnet)
  {
    NetworkEndIsGood(conf.subnet, NetworkRange(conf.subnet).value.1);
  }

  lemma NetworkEndIsGood(net: IPNet, end: IP)
    requires WellFormed(net) && HostBits(net.mask).value >= 2
    requires NetworkRange(net) == Ok((net.ip, end))
    requires Pow256(|net.mask| - 1) <= DefaultEnd(net)
    ensures Contains(net, end) && |Canon(end)| == |net.mask| && FromBytes(Canon(end)) == DefaultEnd(net)
  {
    assert |end| == |net.mask| && FromBytes(end) == DefaultEnd(net) by {
      NetworkRangeArithmetic(net);
    }
    TopByte(end);
    NonzeroTopIsCanonical(end);
    DefaultEndInBlock(net);
    ContainsIsBlock(net, end);
  }

  lemma StartIsGood(conf: Conf)
    requires ConfiguredRange(conf).Ok?
    ensures GoodStart(conf, ConfiguredRange(conf).value.0)
  {
    if conf.rangeStart != NIL {
      GivenStartIsGood(conf);
    } else {
      DefaultStartIsGood(conf);
    }
  }

  // NewIPAllocator accepts a configuration exactly if the mask is ones followed by
  // at least two zeros and fits the subnet's address, RangeStart, if given, is in
  // the masked network, and RangeEnd, if given, is there too and not before the
  // start.
  lemma ConfigurationAcceptedExactly(conf: Conf)
    ensures ConfiguredRange(conf).Ok?
            <==> var net := conf.subnet;
                 && WellFormed(net) && HostBits(net.mask).value >= 2
                 && var first, last := FromBytes(AndBytes(Canon(net.ip), net.mask)),
                                       BlockEnd(FromBytes(Canon(net.ip)), HostBits(net.mask).value);
                 && var s, e := Canon(if conf.rangeStart != NIL then conf.rangeStart else NextIP(net.ip)),
                                Canon(conf.rangeEnd);
                 && (conf.rangeStart != NIL ==> |s| == |net.mask| && first <= FromBytes(s) <= last)
                 && (conf.rangeEnd != NIL ==> |e| == |s| == |net.mask| && first <= FromBytes(e) <= last
                                              && FromBytes(s) <= FromBytes(e))
  {
    hide RangeError, FromBytes, NextIP, AndBytes;
    var net := conf.subnet;
    if WellFormed(net) && HostBits(net.mask).value >= 2 {
      var start := if conf.rangeStart != NIL then conf.rangeStart else NextIP(net.ip);
      AcceptedInBlock(conf.rangeStart, net, NIL);
      DefaultStart(net.ip);
      AcceptedInBlock(conf.rangeEnd, net, start);
    }
  }

  lemma AcceptedInBlock(ip: IP, net: IPNet, start: IP)
    requires WellFormed(net)
    ensures RangeError(ip, net, start, NIL).None?
            <==> && |Canon(ip)| == |net.mask|
                 && FromBytes(AndBytes(Canon(net.ip), net.mask)) <= FromBytes(Canon(ip))
                      <= BlockEnd(FromBytes(Canon(net.ip)), HostBits(net.mask).value)
                 && (start != NIL ==> |Canon(start)| == |Canon(ip)|
                                      && FromBytes(Canon(start)) <= FromBytes(Canon(ip)))
  {
    hide RangeError;
    AcceptedExactlyInRange(ip, net, start, NIL);
    CIDRMaskOfHostBits(net.mask);
    AndMaskValue(Canon(net.ip), HostBits(net.mask).value);
    BlockSize(FromBytes(Canon(net.ip)), HostBits(net.mask).value);
  }

  // The error of a refused configuration: the first that applies of a mask without
  // two host bits, a missing subnet, one that is no address, one of another length
  // than its mask, and the errors of RangeStart and RangeEnd in their ranges.
  lemma ConfigurationRefusedExactly(conf: Conf)
    ensures var net, r := conf.subnet, ConfiguredRange(conf);
            var wide := HostBits(net.mask).Some? && HostBits(net.mask).value >= 2;
            var fits := wide && IsAddress(net.ip) && |Canon(net.ip)| == |net.mask|;
            var start := if conf.rangeStart != NIL then conf.rangeStart else NextIP(net.ip);
            var startErr := if conf.rangeStart == NIL then None else RangeError(conf.rangeStart, net, NIL, NIL);
            var endErr := if conf.rangeEnd == NIL then None else RangeError(conf.rangeEnd, net, start, NIL);
            && (!wide <==> r == Err(TooSmall))
            && (wide && net.ip == NIL <==> r == Err(MissingSubnet))
            && (wide && IsAddress(net.ip) && |Canon(net.ip)| != |net.mask| <==> r == Err(VersionMismatch))
            && (wide && net.ip != NIL && !IsAddress(net.ip) ==> r == Err(NotAnAddress))
            && (fits && startErr.Some? ==> r == Err(startErr.value))
            && (fits && startErr.None? && endErr.Some? ==> r == Err(endErr.value))
            && (fits && startErr.None? && endErr.None? ==> r.Ok?)
  {
    hide RangeError, NextIP, OrNotBytes, HostBits, IsV4InV6, FromBytes;
    var net := conf.subnet;
    NoConfigurationError(conf.rangeStart, net, NIL, NIL);
    NoConfigurationError(conf.rangeEnd, net, if conf.rangeStart != NIL then conf.rangeStart else NextIP(net.ip), NIL);
  }

  lemma NoConfigurationError(ip: IP, net: IPNet, start: IP, end: IP)
    ensures RangeError(ip, net, start, end).Some? ==>
              RangeError(ip, net, start, end).value in {NotAnAddress, NotInNetwork, SizeMismatch, BeforeStart, AfterEnd}
  {
    hide Contains, FromBytes, Canon;
  }

  // The range of an accepted configuration: RangeStart and RangeEnd where given,
  // else one past the subnet's address, and the last address of the masked network
  // except, for IPv4, its broadcast address.
  lemma ConfiguredRangeExact(conf: Conf)
    requires ConfiguredRange(conf).Ok?
    ensures var (start, end) := ConfiguredRange(conf).value;
            var net := conf.subnet;
            && WellFormed(net)
            && (conf.rangeStart != NIL ==> start == conf.rangeStart)
            && (conf.rangeStart == NIL ==> FromBytes(start) == FromBytes(Canon(net.ip)) + 1 && Canon(start) == start)
            && (conf.rangeEnd != NIL ==> end == conf.rangeEnd)
            && (conf.rangeEnd == NIL ==>
                  && |end| == |net.mask|
                  && FromBytes(end) == FromBytes(AndBytes(Canon(net.ip), net.mask)) + Pow2(HostBits(net.mask).value)
                                       - (if |net.mask| == 4 then 2 else 1))
  {
    ConfiguredSubnet(conf);
    NetworkRangeArithmetic(conf.subnet);
    DefaultStart(conf.subnet.ip);
    hide RangeError, NextIP, OrNotBytes, HostBits, IsV4InV6, FromBytes, DefaultEnd;
  }

  // What goes wrong otherwise: an IPv4 subnet written with its last host address,
  // as in 192.168.1.254/24, and no range options, gets a range that starts at the
  // broadcast address and ends before it.
  lemma LastHostAddressInvertsRange(conf: Conf)
    requires WellFormed(conf.subnet) && |conf.subnet.mask| == 4 && HostBits(conf.subnet.mask).value >= 2
    requires conf.rangeStart == NIL && conf.rangeEnd == NIL
    requires FromBytes(Canon(conf.subnet.ip)) == DefaultEnd(conf.subnet) && Canon(conf.subnet.ip)[0] != 0
    ensures ConfiguredRange(conf).Ok?
    ensures var (start, end) := ConfiguredRange(conf).value;
            && FromBytes(Canon(start)) == DefaultEnd(conf.subnet) + 1
            && FromBytes(Canon(end)) == DefaultEnd(conf.subnet)
  {
    var net := conf.subnet;
    assert ConfiguredRange(conf) == Ok((NextIP(net.ip), NetworkRange(net).value.1)) by {
      NetworkRangeArithmetic(net);
    }
    hide ConfiguredRange, NetworkRange;
    DefaultStart(net.ip);
    TopByte(Canon(net.ip));
    DefaultEndIsGood(conf);
  }

  // ---------- the two forms of an address ----------

  // The forms of the subnet and the range in which they are given do not matter
  // for what a range accepts,
  lemma RangeErrorOfForms(ip: IP, ip': IP, net: IPNet, net': IPNet, start: IP, start': IP, end: IP, end': IP)
    requires Canon(ip) == Canon(ip') && Canon(net.ip) == Canon(net'.ip) && net.mask == net'.mask
    requires Canon(start) == Canon(start') && Canon(end) == Canon(end')
    ensures RangeError(ip, net, start, end) == RangeError(ip', net', start', end')
  {
    hide FromBytes, AndBytes;
  }

  // nor for the range that a configuration gets.
  lemma ConfiguredRangeOfForms(conf: Conf, conf': Conf)
    requires Canon(conf.subnet.ip) == Canon(conf'.subnet.ip) && conf.subnet.mask == conf'.subnet.mask
    requires Canon(conf.rangeStart) == Canon(conf'.rangeStart) && Canon(conf.rangeEnd) == Canon(conf'.rangeEnd)
    ensures match (ConfiguredRange(conf), ConfiguredRange(conf'))
            case (Ok((s, e)), Ok((s', e'))) => Canon(s) == Canon(s') && Canon(e) == Canon(e')
            case (Err(e), Err(e')) => e == e'
            case _ => false
  {
    hide RangeError, NextIP, OrNotBytes, HostBits, IsV4InV6;
    var net, net' := conf.subnet, conf'.subnet;
    NilForms(net.ip, net'.ip);
    NilForms(conf.rangeStart, conf'.rangeStart);
    NilForms(conf.rangeEnd, conf'.rangeEnd);
    NextIPOfForms(net.ip, net'.ip);
    RangeErrorOfForms(conf.rangeStart, conf'.rangeStart, net, net', NIL, NIL, NIL, NIL);
    RangeErrorOfForms(conf.rangeEnd, conf'.rangeEnd, net, net', NextIP(net.ip), NextIP(net'.ip), NIL, NIL);
    RangeErrorOfForms(conf.rangeEnd, conf'.rangeEnd, net, net', conf.rangeStart, conf'.rangeStart, NIL, NIL);
  }

  lemma NilForms(a: IP, b: IP)
    requires Canon(a) == Canon(b)
    ensures a == NIL <==> b == NIL
    ensures IsAddress(a) <==> IsAddress(b)
  {
  }
}
