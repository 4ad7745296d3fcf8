/** plugins/ipam/dhcp/options.go: the classless static routes of RFC 3442, section
    "Classless Route Option Format". Of each destination only the octets that the
    mask covers are sent. */
module ClasslessRoutes {
  import opened Common
  import opened Addresses
  import opened Subnets

  datatype Route = Route(dst: IPNet, gw: IP)

  // The octets sent for a mask of width ones.
  function Octets(width: nat): (n: nat)
    requires width <= 32
    ensures n <= 4
  {
    if width > 0 then (width - 1) / 8 + 1 else 0
  }

  const ZEROS: seq<byte> := [0, 0, 0, 0]

  function Pad(sent: seq<byte>): (r: seq<byte>)
    requires |sent| <= 4
    ensures |r| == 4
  {
    sent + ZEROS[|sent|..]
  }

  // ---------- the parser ----------

  // The first route of an option that is long enough for it.
  function FirstRoute(opt: seq<byte>): (r: Route)
    requires |opt| >= 1 && opt[0] <= 32 && |opt| >= Octets(opt[0]) + 5
  {
    var n := Octets(opt[0]);
    Route(IPNet(Pad(opt[1..n + 1]), CIDRMask(32 - opt[0], 4)), opt[n + 1..n + 5])
  }

  // The routes of an option, or None if a width is out of range or a route is cut
  // short; fewer than five last bytes are ignored.
  function Parse(opt: seq<byte>): (r: Option<seq<Route>>)
    decreases |opt|
  {
    if |opt| < 5 then Some([])
    else if opt[0] > 32 || |opt| < Octets(opt[0]) + 5 then None
    else Prepend([FirstRoute(opt)], Parse(opt[Octets(opt[0]) + 5..]))
  }

  function Prepend(routes: seq<Route>, rest: Option<seq<Route>>): (r: Option<seq<Route>>)
  {
    match rest
    case None => None
    case Some(rs) => Some(routes + rs)
  }

  const OPTION_CLASSLESS_ROUTES := 121

  method ParseCIDRRoutes(opts: map<int, seq<byte>>) returns (r: Option<seq<Route>>)
    ensures r == if 121 in opts then Parse(opts[121]) else Some([])
  {
    hide CIDRMask, Pad, Parse, Prepend;
    var routes: seq<Route> := [];
    if OPTION_CLASSLESS_ROUTES in opts {
      var opt := opts[OPTION_CLASSLESS_ROUTES];
      PrependNothing(Parse(opt));
      while |opt| >= 5
        invariant Parse(opts[OPTION_CLASSLESS_ROUTES]) == Prepend(routes, Parse(opt))
        decreases |opt|
      {
        ParseStep(opt);
        PrependNone(routes);
        var width := opt[0];
        if width > 32 {
          return None;
        }
        var octets := 0;
        if width > 0 {
          octets := (width - 1) / 8 + 1;
        }
        if |opt| < 1 + octets + 4 {
          return None;
        }
        var sn := Pad(opt[1..octets + 1]);
        var gw := opt[octets + 1..octets + 5];
        var rt := Route(IPNet(sn, CIDRMask(32 - width, 4)), gw);
        PrependTwice(routes, rt, Parse(opt[octets + 5..]));
        routes := routes + [rt];
        opt := opt[octets + 5..];
      }
      ParseStep(opt);
      PrependEnd(routes);
    }
    return Some(routes);
  }

  lemma ParseStep(opt: seq<byte>)
    ensures Parse(opt)
         == if |opt| < 5 then Some([])
            else if opt[0] > 32 || |opt| < Octets(opt[0]) + 5 then None
            else Prepend([FirstRoute(opt)], Parse(opt[Octets(opt[0]) + 5..]))
  {
  }

  lemma PrependNone(routes: seq<Route>)
    ensures Prepend(routes, None) == None
  {
  }

  lemma PrependEnd(routes: seq<Route>)
    ensures Prepend(routes, Some([])) == Some(routes)
  {
    assert routes + [] == routes;
  }

  lemma PrependNothing(rest: Option<seq<Route>>)
    ensures Prepend([], rest) == rest
  {
    if rest.Some? {
      assert [] + rest.value == rest.value;
    }
  }

  lemma PrependTwice(routes: seq<Route>, rt: Route, rest: Option<seq<Route>>)
    ensures Prepend(routes, Prepend([rt], rest)) == Prepend(routes + [rt], rest)
  {
    if rest.Some? {
      assert routes + ([rt] + rest.value) == routes + [rt] + rest.value;
    }
  }

  // ---------- the format ----------

  // A route that the format can express: an IPv4 destination whose mask has no
  // holes, and an IPv4 router.
  predicate Expressible(r: Route)
  {
    |r.dst.ip| == 4 && |r.dst.mask| == 4 && HostBits(r.dst.mask).Some? && |r.gw| == 4
  }

  function Width(r: Route): (w: nat)
    requires Expressible(r)
    ensures w <= 32
  {
    32 - HostBits(r.dst.mask).value
  }

  // The destination as it arrives: zero in the octets that are not sent.
  function ZeroPadded(r: Route): (result: Route)
    requires Expressible(r)
  {
    Route(IPNet(Pad(r.dst.ip[..Octets(Width(r))]), r.dst.mask), r.gw)
  }

  function Encode(r: Route): (b: seq<byte>)
    requires Expressible(r)
    ensures |b| == Octets(Width(r)) + 5 && b[0] == Width(r)
  {
    [Width(r)] + r.dst.ip[..Octets(Width(r))] + r.gw
  }

  function EncodeAll(rs: seq<Route>): (r: seq<byte>)
    requires forall r :: r in rs ==> Expressible(r)
  {
    if rs == [] then [] else Encode(rs[0]) + EncodeAll(rs[1..])
  }

  // As many octets are sent as hold the width.
  lemma OctetsHoldWidth(width: nat)
    requires width <= 32
    ensures width <= 8 * Octets(width) < width + 8
  {
  }

  // Exactly the significant octets are sent: those in which the mask is not zero.
  // So nothing of the network is lost.
  lemma SentOctetsAreSignificant(width: nat, i: nat)
    requires width <= 32 && i < 4
    ensures i < Octets(width) <==> CIDRMask(32 - width, 4)[i] != 0
  {
    MaskByte(32 - width, 4, i);
  }

  lemma {:induction false} MaskByte(h: nat, n: nat, i: nat)
    requires h <= 8 * n && i < n
    ensures CIDRMask(h, n)[i] == 0 <==> h >= 8 * (n - i)
  {
    SmallPowers();
    if i < n - 1 {
      MaskByte(if h >= 8 then h - 8 else 0, n - 1, i);
    }
  }

  // What arrives of a destination: its octets where the mask is not zero, and zero
  // elsewhere. The mask and the router arrive as they are.
  lemma ArrivesMasked(r: Route, i: nat)
    requires Expressible(r) && i < 4
    ensures ZeroPadded(r).dst.ip[i] == if r.dst.mask[i] != 0 then r.dst.ip[i] else 0
    ensures ZeroPadded(r).dst.mask == r.dst.mask && ZeroPadded(r).gw == r.gw
  {
    CIDRMaskOfHostBits(r.dst.mask);
    SentOctetsAreSignificant(Width(r), i);
  }

  // The layout of an encoding: the width of the mask, the significant octets, and
  // the four of the router.
  lemma EncodingLayout(r: Route)
    requires Expressible(r)
    ensures var b, n := Encode(r), |Encode(r)| - 5;
            && HostBits(r.dst.mask) == Some(32 - b[0])
            && (forall i :: 0 <= i < 4 ==> (i < n <==> r.dst.mask[i] != 0))
            && b[1..n + 1] == r.dst.ip[..n] && b[n + 1..] == r.gw
  {
    CIDRMaskOfHostBits(r.dst.mask);
    forall i: nat | i < 4 ensures i < Octets(Width(r)) <==> r.dst.mask[i] != 0 {
      SentOctetsAreSignificant(Width(r), i);
    }
  }

  lemma FirstRouteIsDecoded(r: Route, rest: seq<byte>)
    requires Expressible(r)
    ensures FirstRoute(Encode(r) + rest) == ZeroPadded(r)
  {
    var b, n := Encode(r) + rest, Octets(Width(r));
    assert b[1..n + 1] == r.dst.ip[..n];
    assert b[n + 1..n + 5] == r.gw;
    CIDRMaskOfHostBits(r.dst.mask);
  }

  lemma FirstRouteIsPadded(opt: seq<byte>)
    requires |opt| >= 1 && opt[0] <= 32 && |opt| >= Octets(opt[0]) + 5
    ensures var r := FirstRoute(opt);
            && Expressible(r) && ZeroPadded(r) == r && Width(r) == opt[0]
            && Encode(r) == opt[..Octets(opt[0]) + 5]
  {
    var r, n := FirstRoute(opt), Octets(opt[0]);
    HostBitsOfCIDRMask(32 - opt[0], 4);
    assert r.dst.ip[..n] == opt[1..n + 1];
  }

  // Parsing undoes encoding, for any routes and up to four bytes after them.
  lemma {:induction false} ParseEncoded(rs: seq<Route>, rest: seq<byte>)
    requires (forall r :: r in rs ==> Expressible(r)) && |rest| < 5
    ensures Parse(EncodeAll(rs) + rest).Some?
    ensures var out := Parse(EncodeAll(rs) + rest).value;
            |out| == |rs| && forall i :: 0 <= i < |rs| ==> out[i] == ZeroPadded(rs[i])
    decreases |rs|
  {
    hide CIDRMask, HostBits, Pad, FirstRoute, ZeroPadded, Expressible;
    if rs == [] {
      assert EncodeAll(rs) + rest == rest;
    } else {
      var tail := EncodeAll(rs[1..]) + rest;
      assert EncodeAll(rs) + rest == Encode(rs[0]) + tail;
      FirstRouteIsDecoded(rs[0], tail);
      assert (Encode(rs[0]) + tail)[Octets(Width(rs[0])) + 5..] == tail;
      ParseEncoded(rs[1..], rest);
    }
  }

  ghost predicate Encodes(opt: seq<byte>, rs: seq<Route>)
  {
    && (forall r :: r in rs ==> Expressible(r) && ZeroPadded(r) == r)
    && EncodeAll(rs) <= opt && |opt| - |EncodeAll(rs)| < 5
  }

  // Both ways: an option parses to routes exactly if these are zero-padded routes
  // and the option is their encoding with fewer than five bytes after it.
  lemma ParseExact(opt: seq<byte>, rs: seq<Route>)
    ensures Parse(opt) == Some(rs) <==> Encodes(opt, rs)
  {
    hide Parse, EncodeAll, ZeroPadded, Expressible;
    if Parse(opt) == Some(rs) {
      ParsedIsEncoding(opt, rs);
    }
    if Encodes(opt, rs) {
      var rest := opt[|EncodeAll(rs)|..];
      assert opt == EncodeAll(rs) + rest;
      ParseEncoded(rs, rest);
      assert Parse(opt).value == rs;
    }
  }

  lemma {:induction false} ParsedIsEncoding(opt: seq<byte>, rs: seq<Route>)
    requires Parse(opt) == Some(rs)
    ensures Encodes(opt, rs)
    decreases |opt|
  {
    hide CIDRMask, HostBits, Pad, FirstRoute, ZeroPadded, Expressible, Encode;
    if |opt| >= 5 {
      var n := Octets(opt[0]) + 5;
      var rest := Parse(opt[n..]).value;
      assert rs == [FirstRoute(opt)] + rest;
      FirstRouteIsPadded(opt);
      ParsedIsEncoding(opt[n..], rest);
      assert rs[1..] == rest;
      assert opt == opt[..n] + opt[n..];
    }
  }

  const TEN_NET := Route(IPNet([10, 0, 0, 0], [255, 0, 0, 0]), [10, 1, 2, 3])
  const PRIVATE_NET := Route(IPNet([192, 168, 1, 0], [255, 255, 255, 0]), [192, 168, 2, 3])

  // The option of the repository's own test: 10.0.0.0/8 via 10.1.2.3 and
  // 192.168.1.0/24 via 192.168.2.3.
  lemma TwoRoutes()
    ensures Parse([8, 10, 10, 1, 2, 3, 24, 192, 168, 1, 192, 168, 2, 3]) == Some([TEN_NET, PRIVATE_NET])
  {
    hide Parse, FirstRoute;
    var opt: seq<byte> := [8, 10, 10, 1, 2, 3, 24, 192, 168, 1, 192, 168, 2, 3];
    var rest: seq<byte> := [24, 192, 168, 1, 192, 168, 2, 3];
    TenIsFirst(opt, rest);
    PrivateIsFirst(rest);
    ParseStep(opt);
    ParseStep(rest);
    ParseStep([]);
    PrependEnd([PRIVATE_NET]);
    assert Parse(rest) == Some([PRIVATE_NET]);
    assert [TEN_NET] + [PRIVATE_NET] == [TEN_NET, PRIVATE_NET];
    assert Parse(opt) == Some([TEN_NET] + [PRIVATE_NET]);
    assert Parse(opt) == Some([TEN_NET, PRIVATE_NET]);
  }

  lemma TenIsFirst(opt: seq<byte>, rest: seq<byte>)
    requires opt == [8, 10, 10, 1, 2, 3] + rest
    ensures FirstRoute(opt) == TEN_NET && opt[Octets(8) + 5..] == rest
  {
    hide CIDRMask;
    TestMasks();
    assert opt[1..2] == [10] && opt[2..6] == [10, 1, 2, 3];
  }

  lemma PrivateIsFirst(opt: seq<byte>)
    requires opt == [24, 192, 168, 1, 192, 168, 2, 3]
    ensures FirstRoute(opt) == PRIVATE_NET && opt[Octets(24) + 5..] == []
  {
    hide CIDRMask;
    TestMasks();
    assert opt[1..4] == [192, 168, 1] && opt[4..8] == [192, 168, 2, 3];
  }

  lemma TestMasks()
    ensures CIDRMask(24, 4) == [255, 0, 0, 0] && CIDRMask(8, 4) == [255, 255, 255, 0]
  {
    CIDRMaskAllOnes(1);
    CIDRMaskAllOnes(3);
    assert CIDRMask(8, 2) == CIDRMask(0, 1) + [0];
    assert CIDRMask(16, 3) == CIDRMask(8, 2) + [0];
    assert CIDRMask(24, 4) == CIDRMask(16, 3) + [0];
    assert CIDRMask(8, 4) == CIDRMask(0, 3) + [0];
    assert CIDRMask(0, 1) == [255];
    assert CIDRMask(0, 3) == [255, 255, 255];
  }
}
