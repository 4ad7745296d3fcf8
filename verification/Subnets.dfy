/** The parts of net.IPNet that the allocator relies on: masks, their size, and
    membership, with their meaning on big-endian integers. */
module Subnets {
  import opened Common
  import opened Addresses
  import opened Bits

  datatype IPNet = IPNet(ip: IP, mask: seq<byte>)

  // n bytes of mask that end in h host (zero) bits: net.CIDRMask(8n - h, 8n).
  function CIDRMask(h: nat, n: nat): (m: seq<byte>)
    requires h <= 8 * n
    ensures |m| == n
  {
    if n == 0 then []
    else if h >= 8 then CIDRMask(h - 8, n - 1) + [0]
    else
      SmallPowers();
      CIDRMask(0, n - 1) + [256 - Pow2(h)]
  }

  lemma SmallPowers()
    ensures Pow2(0) == 1 && Pow2(1) == 2 && Pow2(2) == 4 && Pow2(3) == 8
    ensures Pow2(4) == 16 && Pow2(5) == 32 && Pow2(6) == 64 && Pow2(7) == 128
    ensures Pow2(8) == 256
    ensures forall h: nat {:trigger Pow2(h)} :: h < 8 ==> Pow2(h) in {1, 2, 4, 8, 16, 32, 64, 128}
  {
    assert Pow2(2) == 2 * Pow2(1);
    assert Pow2(4) == 2 * Pow2(3);
    assert Pow2(6) == 2 * Pow2(5);
    assert Pow2(8) == 2 * Pow2(7);
    forall h: nat {:trigger Pow2(h)} | h < 8 ensures Pow2(h) in {1, 2, 4, 8, 16, 32, 64, 128} {
      assert h == 0 || h == 1 || h == 2 || h == 3 || h == 4 || h == 5 || h == 6 || h == 7;
    }
  }

  // The number of host bits of a mask, if it is ones followed by zeros.
  function HostBits(mask: seq<byte>): (r: Option<nat>)
    ensures r.Some? ==> r.value <= 8 * |mask|
  {
    HostBitsOfFirst(mask, |mask|)
  }

  // The same for the first n bytes.
  function HostBitsOfFirst(mask: seq<byte>, n: nat): (r: Option<nat>)
    requires n <= |mask|
    ensures r.Some? ==> r.value <= 8 * n
  {
    if n == 0 then Some(0)
    else if mask[n - 1] == 0 then
      match HostBitsOfFirst(mask, n - 1)
      case None => None
      case Some(h) => Some(h + 8)
    else if forall i :: 0 <= i < n - 1 ==> mask[i] == 255 then LastByteHostBits(mask[n - 1])
    else None
  }

  lemma {:induction false} HostBitsOfPrefix(m: seq<byte>, n: nat)
    requires n <= |m|
    ensures HostBits(m[..n]) == HostBitsOfFirst(m, n)
  {
    hide LastByteHostBits;
    HostBitsSame(m[..n], m, n);
  }

  lemma {:induction false} HostBitsSame(a: seq<byte>, m: seq<byte>, n: nat)
    requires n <= |a| && n <= |m|
    requires forall i :: 0 <= i < n ==> a[i] == m[i]
    ensures HostBitsOfFirst(a, n) == HostBitsOfFirst(m, n)
  {
    hide LastByteHostBits;
    if n > 0 {
      HostBitsSame(a, m, n - 1);
    }
  }

  function LastByteHostBits(b: byte): (r: Option<nat>)
    requires b != 0
    ensures r.Some? ==> r.value < 8 && b == 256 - Pow2(r.value)
    ensures r.None? ==> forall h: nat :: h < 8 ==> b != 256 - Pow2(h)
  {
    SmallPowers();
    if b == 255 then Some(0) else if b == 254 then Some(1)
    else if b == 252 then Some(2) else if b == 248 then Some(3)
    else if b == 240 then Some(4) else if b == 224 then Some(5)
    else if b == 192 then Some(6) else if b == 128 then Some(7)
    else None
  }

  // net.IPMask.Size: ones and length in bits, or (0, 0) for a mask with holes.
  function Size(mask: seq<byte>): (r: (int, int))
  {
    match HostBits(mask)
    case Some(h) => (8 * |mask| - h, 8 * |mask|)
    case None => (0, 0)
  }

  lemma {:induction false} CIDRMaskAllOnes(n: nat)
    ensures AllOnes(CIDRMask(0, n))
  {
    if n > 0 {
      CIDRMaskAllOnes(n - 1);
      SmallPowers();
    }
  }

  lemma {:induction false} AllOnesIsCIDRMask(m: seq<byte>)
    requires AllOnes(m)
    ensures m == CIDRMask(0, |m|)
  {
    CIDRMaskAllOnes(|m|);
  }

  lemma LastByteOfMask(h: nat)
    requires h < 8
    ensures 0 < 256 - Pow2(h) < 256 && LastByteHostBits(256 - Pow2(h)) == Some(h)
  {
    SmallPowers();
    var k := LastByteHostBits(256 - Pow2(h));
    if k.Some? && k.value != h {
      Pow2Injective(h, k.value);
    }
  }

  lemma {:induction false} HostBitsOfCIDRMask(h: nat, n: nat)
    requires h <= 8 * n
    ensures HostBits(CIDRMask(h, n)) == Some(h)
  {
    hide LastByteHostBits, Pow2;
    if n > 0 {
      var m := CIDRMask(h, n);
      HostBitsOfPrefix(m, n - 1);
      if h >= 8 {
        assert m[..n - 1] == CIDRMask(h - 8, n - 1);
        HostBitsOfCIDRMask(h - 8, n - 1);
      } else {
        assert m[..n - 1] == CIDRMask(0, n - 1);
        CIDRMaskAllOnes(n - 1);
        LastByteOfMask(h);
      }
    }
  }

  lemma {:induction false} Pow2Injective(a: nat, b: nat)
    requires Pow2(a) == Pow2(b)
    ensures a == b
  {
    if a > 0 && b > 0 {
      Pow2Injective(a - 1, b - 1);
    }
  }

  lemma {:induction false} CIDRMaskOfHostBits(m: seq<byte>)
    requires HostBits(m).Some?
    ensures m == CIDRMask(HostBits(m).value, |m|)
  {
    if m != [] {
      var init := m[..|m| - 1];
      HostBitsOfPrefix(m, |m| - 1);
      if m[|m| - 1] == 0 {
        CIDRMaskOfHostBits(init);
      } else {
        AllOnesIsCIDRMask(init);
      }
    }
  }

  // ---------- bytewise masking and its value ----------

  function AndByte(a: byte, b: byte): (r: byte)
  {
    SmallPowers();
    And(a, b, 8)
  }

  // a | ^b
  function OrNotByte(a: byte, b: byte): (r: byte)
  {
    SmallPowers();
    Or(a, Not(b, 8), 8)
  }

  function AndBytes(a: seq<byte>, m: seq<byte>): (r: seq<byte>)
    requires |a| == |m|
    ensures |r| == |a|
  {
    seq(|a|, i requires 0 <= i < |a| => AndByte(a[i], m[i]))
  }

  // ip | ^mask, byte by byte.
  function OrNotBytes(a: seq<byte>, m: seq<byte>): (r: seq<byte>)
    requires |a| == |m|
    ensures |r| == |a|
  {
    seq(|a|, i requires 0 <= i < |a| => OrNotByte(a[i], m[i]))
  }

  lemma {:induction false} Pow256IsPow2(n: nat)
    ensures Pow256(n) == Pow2(8 * n)
  {
    if n > 0 {
      Pow256IsPow2(n - 1);
      Pow2Plus8(8 * (n - 1));
    }
  }

  lemma Pow2Plus8(k: nat)
    ensures Pow2(k + 8) == 256 * Pow2(k)
  {
    assert Pow2(k + 2) == 2 * Pow2(k + 1) == 4 * Pow2(k);
    assert Pow2(k + 4) == 2 * Pow2(k + 3) == 4 * Pow2(k + 2);
    assert Pow2(k + 6) == 2 * Pow2(k + 5) == 4 * Pow2(k + 4);
    assert Pow2(k + 8) == 2 * Pow2(k + 7) == 4 * Pow2(k + 6);
  }

  // The value of a CIDR mask's last byte, of which min(h, 8) bits are host bits.
  function LastMaskByte(h: nat): (r: byte)
  {
    SmallPowers();
    if h >= 8 then 0 else 256 - Pow2(h)
  }

  lemma CIDRMaskSnoc(h: nat, n: nat)
    requires 0 < n && h <= 8 * n
    ensures CIDRMask(h, n) == CIDRMask(if h >= 8 then h - 8 else 0, n - 1) + [LastMaskByte(h)]
  {
  }

  // A byte is in the block that holds all bytes.
  lemma WholeByte(b: byte)
    ensures BlockStart(b, 8) == 0 && BlockEnd(b, 8) == 255
  {
    SmallPowers();
    BlockOfAppended(0, b, 8, 8);
  }

  lemma AndLastByte(b: byte, h: nat)
    ensures AndByte(b, LastMaskByte(h)) == if h >= 8 then 0 else BlockStart(b, h)
  {
    hide And, BlockStart, Pow2;
    SmallPowers();
    AndHighBits(b, if h >= 8 then 8 else h, 8);
    WholeByte(b);
  }

  lemma OrNotLastByte(b: byte, h: nat)
    ensures OrNotByte(b, LastMaskByte(h)) == if h >= 8 then 255 else BlockEnd(b, h)
  {
    hide Or, Not, BlockEnd, Pow2;
    SmallPowers();
    NotIsComplement(LastMaskByte(h), 8);
    OrLowBits(b, if h >= 8 then 8 else h, 8);
    WholeByte(b);
  }

  lemma AndBytesSnoc(a: seq<byte>, h: nat, h': nat)
    requires a != [] && h <= 8 * |a| && h' == if h >= 8 then h - 8 else 0
    ensures var n := |a|;
            AndBytes(a, CIDRMask(h, n)) == AndBytes(a[..n - 1], CIDRMask(h', n - 1))
              + [if h >= 8 then 0 else BlockStart(a[n - 1], h)]
  {
    CIDRMaskSnoc(h, |a|);
    AndLastByte(a[|a| - 1], h);
  }

  lemma OrNotBytesSnoc(a: seq<byte>, h: nat, h': nat)
    requires a != [] && h <= 8 * |a| && h' == if h >= 8 then h - 8 else 0
    ensures h < 8 ==> BlockEnd(a[|a| - 1], h) < 256
    ensures var n := |a|;
            OrNotBytes(a, CIDRMask(h, n)) == OrNotBytes(a[..n - 1], CIDRMask(h', n - 1))
              + [if h >= 8 then 255 else BlockEnd(a[n - 1], h)]
  {
    CIDRMaskSnoc(h, |a|);
    OrNotLastByte(a[|a| - 1], h);
    if h < 8 {
      SmallPowers();
      OrLowBits(a[|a| - 1], h, 8);
    }
  }

  lemma BlockStartSnoc(q: nat, b: byte, h: nat, h': nat)
    requires h' == if h >= 8 then h - 8 else 0
    ensures BlockStart(256 * q + b, h) == 256 * BlockStart(q, h') + (if h >= 8 then 0 else BlockStart(b, h))
  {
    hide Pow2;
    SmallPowers();
    BlockOfAppended(q, b, 8, h);
  }

  lemma BlockEndSnoc(q: nat, b: byte, h: nat, h': nat)
    requires h' == if h >= 8 then h - 8 else 0
    ensures BlockEnd(256 * q + b, h) == 256 * BlockEnd(q, h') + (if h >= 8 then 255 else BlockEnd(b, h))
  {
    hide Pow2;
    SmallPowers();
    BlockOfAppended(q, b, 8, h);
  }

  lemma AppendStart(init: seq<byte>, last: byte, r: seq<byte>, x: byte, h: nat, h': nat)
    requires h' == if h >= 8 then h - 8 else 0
    requires FromBytes(r) == BlockStart(FromBytes(init), h')
    requires x == if h >= 8 then 0 else BlockStart(last, h)
    ensures FromBytes(r + [x]) == BlockStart(FromBytes(init + [last]), h)
  {
    Snoc(r, x);
    Snoc(init, last);
    BlockStartSnoc(FromBytes(init), last, h, h');
  }

  lemma AppendEnd(init: seq<byte>, last: byte, r: seq<byte>, x: byte, h: nat, h': nat)
    requires h' == if h >= 8 then h - 8 else 0
    requires FromBytes(r) == BlockEnd(FromBytes(init), h')
    requires x == if h >= 8 then 255 else BlockEnd(last, h)
    ensures FromBytes(r + [x]) == BlockEnd(FromBytes(init + [last]), h)
  {
    Snoc(r, x);
    Snoc(init, last);
    BlockEndSnoc(FromBytes(init), last, h, h');
  }

  // Masking rounds the integer down to the start of its block.
  lemma {:induction false} AndMaskValue(a: seq<byte>, h: nat)
    requires h <= 8 * |a|
    ensures FromBytes(AndBytes(a, CIDRMask(h, |a|))) == BlockStart(FromBytes(a), h)
  {
    if a == [] {
      assert h == 0;
    } else {
      var init, last := a[..|a| - 1], a[|a| - 1];
      var h' := if h >= 8 then h - 8 else 0;
      var r := AndBytes(init, CIDRMask(h', |init|));
      var x := if h >= 8 then 0 else BlockStart(last, h);
      assert AndBytes(a, CIDRMask(h, |a|)) == r + [x] by {
        AndBytesSnoc(a, h, h');
      }
      assert FromBytes(r + [x]) == BlockStart(FromBytes(init + [last]), h) by {
        AndMaskValue(init, h');
        AppendStart(init, last, r, x, h, h');
      }
      assert a == init + [last];
    }
  }

  // Setting the host bits rounds up to the end of the block.
  lemma {:induction false} OrNotMaskValue(a: seq<byte>, h: nat)
    requires h <= 8 * |a|
    ensures FromBytes(OrNotBytes(a, CIDRMask(h, |a|))) == BlockEnd(FromBytes(a), h)
  {
    hide OrNotByte, OrNotBytes, CIDRMask, Pow2;
    if a == [] {
      assert h == 0;
    } else {
      var init, last := a[..|a| - 1], a[|a| - 1];
      var h' := if h >= 8 then h - 8 else 0;
      var r := OrNotBytes(init, CIDRMask(h', |init|));
      OrNotLastByte(last, h);
      var x: byte := if h >= 8 then 255 else BlockEnd(last, h);
      assert OrNotBytes(a, CIDRMask(h, |a|)) == r + [x] by {
        OrNotBytesSnoc(a, h, h');
      }
      assert FromBytes(r + [x]) == BlockEnd(FromBytes(init + [last]), h) by {
        OrNotMaskValue(init, h');
        AppendEnd(init, last, r, x, h, h');
      }
      assert a == init + [last];
    }
  }

  // ---------- membership ----------

  // networkNumberAndMask of package net: the network number in its short form
  // and a mask of the same length, if the two fit together.
  function NetworkNumberAndMask(net: IPNet): (r: Option<(IP, seq<byte>)>)
    ensures r.Some? ==> r.value.0 == Canon(net.ip) && |r.value.0| == |r.value.1|
  {
    var ip := Canon(net.ip);
    if !IsAddress(ip) then None
    else if |net.mask| == |ip| then Some((ip, net.mask))
    else if |net.mask| == 16 && |ip| == 4 then Some((ip, net.mask[12..]))
    else None
  }

  // net.IPNet.Contains
  predicate Contains(net: IPNet, ip: IP)
  {
    var x := Canon(ip);
    match NetworkNumberAndMask(net)
    case None => x == NIL
    case Some((nn, m)) => |x| == |nn| && AndBytes(nn, m) == AndBytes(x, m)
  }

  // An IPv4 subnet with a mask in 16 bytes has the members that the last four of
  // them give it; a subnet whose address and mask do not fit has none.
  lemma ContainsByMaskLength(net: IPNet, ip: IP)
    requires IsAddress(ip)
    ensures |Canon(net.ip)| == 4 && |net.mask| == 16 ==>
              (Contains(net, ip) <==> Contains(IPNet(net.ip, net.mask[12..]), ip))
    ensures !IsAddress(net.ip) || (|net.mask| != |Canon(net.ip)| && !(|Canon(net.ip)| == 4 && |net.mask| == 16)) ==>
              !Contains(net, ip)
  {
  }

  // Membership in a well-formed subnet is sharing a block of 2^h integers.
  lemma ContainsIsSameBlock(net: IPNet, ip: IP, h: nat)
    requires IsAddress(net.ip) && |net.mask| == |Canon(net.ip)| && HostBits(net.mask) == Some(h)
    ensures Contains(net, ip) <==>
            var v, w := FromBytes(Canon(net.ip)), FromBytes(Canon(ip));
            |Canon(ip)| == |net.mask| && BlockStart(v, h) == BlockStart(w, h)
  {
    var nn, x := Canon(net.ip), Canon(ip);
    CIDRMaskOfHostBits(net.mask);
    AndMaskValue(nn, h);
    if |x| == |nn| {
      AndMaskValue(x, h);
      if FromBytes(AndBytes(nn, net.mask)) == FromBytes(AndBytes(x, net.mask)) {
        FromBytesInjective(AndBytes(nn, net.mask), AndBytes(x, net.mask));
      }
    }
  }
}
