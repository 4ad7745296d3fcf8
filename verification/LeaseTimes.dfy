/** plugins/ipam/dhcp/options.go and the times of plugins/ipam/dhcp/lease.go:
    durations from DHCP options in int64 nanoseconds, with the defaults that
    section 4.4.5 of RFC 2131 asks for. */
module LeaseTimes {
  import opened Common
  import opened Addresses

  type Options = map<int, seq<byte>>

  const OPTION_LEASE_TIME := 51
  const OPTION_RENEWAL_TIME := 58
  const OPTION_REBINDING_TIME := 59

  const SECOND := 1_000_000_000
  const TWO_63 := 0x8000_0000_0000_0000

  // The value an int64 holds after arithmetic whose exact result is x.
  function Wrap64(x: int): (r: int)
  {
    (x + TWO_63) % (2 * TWO_63) - TWO_63
  }

  // Go's integer division, which truncates toward zero.
  function Quotient(a: int, b: int): (r: int)
    requires b > 0
  {
    if a >= 0 then a / b else -((-a) / b)
  }

  function ParseDuration(opts: Options, code: int): (r: Option<int>)
  {
    if code !in opts || |opts[code]| != 4 then None
    else Some(Wrap64(FromBytes(opts[code]) * SECOND))
  }

  lemma FourBytes(b: seq<byte>)
    requires |b| == 4
    ensures FromBytes(b) < 0x1_0000_0000
  {
    assert Pow256(4) == 256 * Pow256(3);
    assert Pow256(2) == 256 * Pow256(1);
  }

  // No 32-bit number of seconds overflows a Duration.
  lemma DurationsDoNotOverflow(opts: Options, code: int)
    ensures ParseDuration(opts, code)
         == if code in opts && |opts[code]| == 4 then Some(FromBytes(opts[code]) * SECOND) else None
    ensures ParseDuration(opts, code).Some? ==> 0 <= ParseDuration(opts, code).value < 0x1_0000_0000 * SECOND
  {
    if code in opts && |opts[code]| == 4 {
      FourBytes(opts[code]);
    }
  }

  // The durations that commit settles on.
  datatype Times = Times(lease: int, renewal: int, rebinding: int)

  function DefaultRebinding(lease: int): (r: int)
  {
    Quotient(Wrap64(lease * 85), 100)
  }

  function CommitTimes(opts: Options): (r: Option<Times>)
  {
    match ParseDuration(opts, OPTION_LEASE_TIME)
    case None => None
    case Some(lease) =>
      var t2 := ParseDuration(opts, OPTION_REBINDING_TIME);
      var rebinding := if t2 == None || t2.value > lease then DefaultRebinding(lease) else t2.value;
      var t1 := ParseDuration(opts, OPTION_RENEWAL_TIME);
      var renewal := if t1 == None || t1.value > rebinding then Quotient(lease, 2) else t1.value;
      Some(Times(lease, renewal, rebinding))
  }

  // The largest lease, in seconds, of which 85 % can be computed.
  const MAX_85 := 108_510_259

  // The default rebinding time is 85 % of the lease exactly up to 108510259
  // seconds, about 3.4 years: beyond, the product overflows. It never exceeds the
  // lease.
  lemma DefaultRebindingExact(secs: int)
    requires 0 <= secs < 0x1_0000_0000
    ensures DefaultRebinding(secs * SECOND) == secs * SECOND * 85 / 100 <==> secs <= MAX_85
    ensures DefaultRebinding(secs * SECOND) <= secs * SECOND
  {
    var x := secs * SECOND * 85;
    if secs <= MAX_85 {
      assert Wrap64(x) == x;
    } else {
      var w := Wrap64(x);
      assert x >= TWO_63 && w < TWO_63;
      assert exists k :: k >= 1 && x == w + k * (2 * TWO_63) by {
        var k := (x + TWO_63) / (2 * TWO_63);
        assert k >= 1 && x == w + k * (2 * TWO_63);
      }
      assert w <= x - 2 * TWO_63;
    }
  }

  // The default is at least half the lease for exactly the same leases: once the
  // product overflows, it falls below.
  lemma DefaultRebindingIsLateExactly(secs: int)
    requires 0 <= secs < 0x1_0000_0000
    ensures DefaultRebinding(secs * SECOND) >= secs * SECOND / 2 <==> secs <= MAX_85
  {
    var x := secs * SECOND * 85;
    if secs <= MAX_85 {
      assert Wrap64(x) == x;
    }
  }

  // The rebinding time that the server gave in option 59, if it is one within the
  // lease.
  function GivenRebinding(opts: Options, lease: int): (r: Option<int>)
  {
    var t2 := ParseDuration(opts, 59);
    if t2.Some? && t2.value <= lease then t2 else None
  }

  // An ACK is unusable exactly without a 4-byte lease time in option 51. Otherwise
  // the lease is as given and no time exceeds it; a rebinding time within the lease
  // is taken, and the default is used without one; a renewal time (option 58)
  // within that is taken, and half the lease is used without one. The renewal is
  // due by the rebinding time exactly if such a one was given, or half the lease is
  // within the rebinding time: within the given one, or, without one, for leases
  // of at most 108510259 seconds.
  lemma CommitTimesExact(opts: Options)
    ensures CommitTimes(opts) == None <==> 51 !in opts || |opts[51]| != 4
    ensures CommitTimes(opts).Some? ==>
      var t := CommitTimes(opts).value;
      var secs, t1 := FromBytes(opts[51]), ParseDuration(opts, 58);
      var given := GivenRebinding(opts, secs * SECOND);
      var limit := if given.Some? then given.value else DefaultRebinding(secs * SECOND);
      && t.lease == secs * SECOND
      && t.rebinding <= t.lease && t.renewal <= t.lease
      && t.rebinding == limit
      && t.renewal == (if t1.Some? && t1.value <= limit then t1.value else secs * SECOND / 2)
      && (t.renewal <= t.rebinding <==>
            || (t1.Some? && t1.value <= limit)
            || (if given.Some? then secs * SECOND / 2 <= given.value else secs <= MAX_85))
  {
    hide DefaultRebinding, FromBytes, Wrap64;
    DurationsDoNotOverflow(opts, 51);
    DurationsDoNotOverflow(opts, 58);
    DurationsDoNotOverflow(opts, 59);
    if CommitTimes(opts).Some? {
      DefaultRebindingExact(FromBytes(opts[51]));
      DefaultRebindingIsLateExactly(FromBytes(opts[51]));
    }
  }

  // Without server times a lease that does not overflow has the times of the RFC:
  // 50 % and 85 %, in that order.
  lemma DefaultTimes(opts: Options)
    requires 51 in opts && |opts[51]| == 4 && 58 !in opts && 59 !in opts
    requires FromBytes(opts[51]) <= MAX_85
    ensures CommitTimes(opts).Some?
    ensures var t, secs := CommitTimes(opts).value, FromBytes(opts[51]);
            t.renewal == secs * SECOND / 2 && t.rebinding == secs * SECOND * 85 / 100 && t.lease == secs * SECOND
            && t.renewal <= t.rebinding <= t.lease && (secs > 0 ==> t.renewal > 0)
  {
    hide DefaultRebinding, FromBytes;
    DurationsDoNotOverflow(opts, 51);
    DefaultRebindingExact(FromBytes(opts[51]));
  }

  // A server that gives only a rebinding time of 10 s for a lease of 100 s gets a
  // renewal after the rebinding: at 50 s.
  lemma RenewalAfterRebinding()
    ensures CommitTimes(map[51 := [0, 0, 0, 100], 59 := [0, 0, 0, 10]])
         == Some(Times(100 * SECOND, 50 * SECOND, 10 * SECOND))
  {
    SmallSeconds(100);
    SmallSeconds(10);
  }

  lemma SmallSeconds(b: byte)
    ensures FromBytes([0, 0, 0, b]) == b
  {
    var four: seq<byte> := [0, 0, 0, b];
    assert FirstBytes(four, 1) == FirstBytes(four, 2) == FirstBytes(four, 3) == 0;
  }

  // The infinite lease of RFC 2131 overflows: its default rebinding time comes
  // out negative, more than a year before the lease was even acknowledged.
  lemma InfiniteLeaseOverflows()
    ensures DefaultRebinding(0xffff_ffff * SECOND) == -38_626_613_991_910_323
  {
  }
}
