/** pkg/ip/cidr.go: addresses as byte strings, their big-endian integers, and
    the increment and decrement that go through those integers. */
module Addresses {

  type byte = x: int | 0 <= x < 256

  // A net.IP: any byte slice. The nil slice is the empty sequence.
  type IP = seq<byte>

  const NIL: IP := []

  // ---------- big-endian integers ----------

  function Pow256(n: nat): (r: nat)
    ensures r > 0
  {
    if n == 0 then 1 else 256 * Pow256(n - 1)
  }

  // big.Int.SetBytes
  function FromBytes(b: seq<byte>): (v: nat)
    ensures v < Pow256(|b|)
  {
    FirstBytes(b, |b|)
  }

  // The integer of the first n bytes.
  function FirstBytes(b: seq<byte>, n: nat): (v: nat)
    requires n <= |b|
    ensures v < Pow256(n)
  {
    if n == 0 then 0 else 256 * FirstBytes(b, n - 1) + b[n - 1]
  }

  lemma {:induction false} FirstBytesOfPrefix(b: seq<byte>, c: seq<byte>, n: nat)
    requires n <= |b| && n <= |c| && b[..n] == c[..n]
    ensures FirstBytes(b, n) == FirstBytes(c, n)
  {
    if n > 0 {
      assert b[..n - 1] == b[..n][..n - 1] == c[..n - 1];
      assert b[n - 1] == b[..n][n - 1] == c[n - 1];
      FirstBytesOfPrefix(b, c, n - 1);
    }
  }

  lemma Snoc(r: seq<byte>, last: byte)
    ensures FromBytes(r + [last]) == 256 * FromBytes(r) + last
  {
    FirstBytesOfPrefix(r + [last], r, |r|);
  }

  lemma SplitLast(b: seq<byte>)
    requires b != []
    ensures FromBytes(b) == 256 * FromBytes(b[..|b| - 1]) + b[|b| - 1]
  {
    Snoc(b[..|b| - 1], b[|b| - 1]);
    assert b == b[..|b| - 1] + [b[|b| - 1]];
  }

  // The n-byte big-endian form of v (of v mod 256^n when v is larger).
  function ToBytes(v: nat, n: nat): (b: seq<byte>)
    ensures |b| == n
  {
    seq(n, i requires 0 <= i < n => Digit(v, n - 1 - i))
  }

  // The byte of weight 256^k.
  function Digit(v: nat, k: nat): (r: byte)
  {
    if k == 0 then v % 256 else Digit(v / 256, k - 1)
  }

  lemma ToBytesSplit(v: nat, n: nat)
    requires n > 0
    ensures ToBytes(v, n) == ToBytes(v / 256, n - 1) + [v % 256]
  {
    assert Digit(v, 0) == v % 256;
    forall i | 0 <= i < n - 1 ensures ToBytes(v, n)[i] == ToBytes(v / 256, n - 1)[i] {
      assert Digit(v, n - 1 - i) == Digit(v / 256, n - 2 - i);
    }
  }

  // big.Int.Bytes: no leading zero byte, and no byte at all for zero.
  function MinBytes(v: nat): (b: seq<byte>)
    ensures b == [] <==> v == 0
    ensures b != [] ==> b[0] != 0
  {
    if v == 0 then []
    else
      var rest := MinBytes(v / 256);
      assert rest == [] ==> v < 256;
      rest + [v % 256]
  }

  lemma {:induction false} FromToBytes(v: nat, n: nat)
    requires v < Pow256(n)
    ensures FromBytes(ToBytes(v, n)) == v
  {
    if n > 0 {
      ToBytesSplit(v, n);
      Snoc(ToBytes(v / 256, n - 1), v % 256);
      FromToBytes(v / 256, n - 1);
    }
  }

  lemma {:induction false} ToFromBytes(b: seq<byte>)
    ensures ToBytes(FromBytes(b), |b|) == b
  {
    if b != [] {
      SplitLast(b);
      ToBytesSplit(FromBytes(b), |b|);
      ToFromBytes(b[..|b| - 1]);
    }
  }

  lemma {:induction false} FromMinBytes(v: nat)
    ensures FromBytes(MinBytes(v)) == v
  {
    if v > 0 {
      Snoc(MinBytes(v / 256), v % 256);
      FromMinBytes(v / 256);
    }
  }

  // Minimal bytes give back a byte string exactly when it has no leading zero.
  lemma {:induction false} MinFromBytes(b: seq<byte>)
    requires b != [] ==> b[0] != 0
    ensures MinBytes(FromBytes(b)) == b
  {
    if b != [] {
      SplitLast(b);
      MinFromBytes(b[..|b| - 1]);
      if |b| > 1 {
        assert b[..|b| - 1][0] == b[0];
      }
      assert FromBytes(b) / 256 == FromBytes(b[..|b| - 1]);
      assert FromBytes(b) != 0;
    }
  }

  lemma FromBytesInjective(a: seq<byte>, b: seq<byte>)
    requires |a| == |b| && FromBytes(a) == FromBytes(b)
    ensures a == b
  {
    ToFromBytes(a);
    ToFromBytes(b);
  }

  // The top byte is nonzero exactly when the integer needs all the bytes.
  lemma {:induction false} TopByte(b: seq<byte>)
    requires b != []
    ensures b[0] != 0 <==> FromBytes(b) >= Pow256(|b| - 1)
  {
    if |b| > 1 {
      SplitLast(b);
      assert b[..|b| - 1][0] == b[0];
      TopByte(b[..|b| - 1]);
    }
  }

  predicate AllOnes(b: seq<byte>)
  {
    forall i :: 0 <= i < |b| ==> b[i] == 255
  }

  lemma {:induction false} AllOnesIsMax(b: seq<byte>)
    ensures AllOnes(b) <==> FromBytes(b) == Pow256(|b|) - 1
  {
    if b != [] {
      SplitLast(b);
      AllOnesIsMax(b[..|b| - 1]);
      assert AllOnes(b) <==> AllOnes(b[..|b| - 1]) && b[|b| - 1] == 255;
    }
  }

  // MinBytes has exactly the length that the size of the integer calls for.
  lemma MinBytesLength(v: nat, n: nat)
    requires n > 0
    ensures |MinBytes(v)| == n <==> Pow256(n - 1) <= v < Pow256(n)
  {
    var b := MinBytes(v);
    FromMinBytes(v);
    if b != [] {
      TopByte(b);
      Pow256Monotone(|b|, n - 1);
      Pow256Monotone(n, |b| - 1);
    }
  }

  lemma MinBytesFit(v: nat, n: nat)
    requires v < Pow256(n)
    ensures |MinBytes(v)| <= n
  {
    var b := MinBytes(v);
    FromMinBytes(v);
    if b != [] {
      TopByte(b);
      Pow256Monotone(n, |b| - 1);
    }
  }

  lemma {:induction false} Pow256Monotone(m: nat, n: nat)
    ensures m <= n ==> Pow256(m) <= Pow256(n)
  {
    if m < n {
      Pow256Monotone(m, n - 1);
    }
  }

  // A prefix already decides the comparison of two byte strings of equal length.
  lemma {:induction false} FirstDifferenceDecides(a: seq<byte>, b: seq<byte>, i: nat)
    requires |a| == |b| && i < |a|
    requires a[..i] == b[..i] && a[i] < b[i]
    ensures FromBytes(a) < FromBytes(b)
  {
    var p, q := a[..|a| - 1], b[..|b| - 1];
    SplitLast(a);
    SplitLast(b);
    if i < |p| {
      assert p[..i] == a[..i] && q[..i] == b[..i];
      FirstDifferenceDecides(p, q, i);
    } else {
      assert p == q;
    }
  }

  // ---------- net.IP ----------

  const V4_IN_V6_PREFIX: seq<byte> := [0, 0, 0, 0, 0, 0, 0, 0, 0, 0, 255, 255]

  // An IPv4 address in 16 bytes.
  predicate IsV4InV6(ip: IP)
  {
    && |ip| == 16
    && (forall i :: 0 <= i < 10 ==> ip[i] == 0)
    && ip[10] == 255 && ip[11] == 255
  }

  function To4(ip: IP): (r: IP)
  {
    if |ip| == 4 then ip
    else if IsV4InV6(ip) then ip[12..]
    else NIL
  }

  function To16(ip: IP): (r: IP)
  {
    if |ip| == 4 then V4_IN_V6_PREFIX + ip
    else if |ip| == 16 then ip
    else NIL
  }

  // net.IP.Equal
  predicate Equal(ip: IP, x: IP)
  {
    if |ip| == |x| then ip == x
    else if |ip| == 4 && |x| == 16 then IsV4InV6(x) && ip == x[12..]
    else if |ip| == 16 && |x| == 4 then IsV4InV6(ip) && ip[12..] == x
    else false
  }

  // An address in one of its two accepted lengths.
  predicate IsAddress(ip: IP)
  {
    |ip| == 4 || |ip| == 16
  }

  // The 4-byte form of an IPv4 address however written; anything else as it is.
  function Canon(ip: IP): (c: IP)
    ensures IsAddress(ip) <==> IsAddress(c)
    ensures !IsV4InV6(c)
  {
    if IsV4InV6(ip) then ip[12..] else ip
  }

  // The two forms of an IPv4 address: its four bytes, and these after the prefix
  // ::ffff. Both have the four bytes as canonical form.
  lemma TwoForms(ip: IP)
    requires |ip| == 4
    ensures To16(ip) == [0, 0, 0, 0, 0, 0, 0, 0, 0, 0, 255, 255] + ip
    ensures Canon(To16(ip)) == ip && Canon(ip) == ip
    ensures To4(To16(ip)) == ip && To4(ip) == ip
  {
  }

  // Every other 16-byte address has one form.
  lemma OneForm(ip: IP)
    requires |ip| == 16 && ip[..12] != [0, 0, 0, 0, 0, 0, 0, 0, 0, 0, 255, 255]
    ensures Canon(ip) == ip && To4(ip) == NIL && To16(ip) == ip
  {
  }

  // NextIP does not tell the two forms apart.
  lemma NextIPOfForms(a: IP, b: IP)
    requires Canon(a) == Canon(b)
    ensures NextIP(a) == NextIP(b)
  {
    hide FromBytes, MinBytes;
    if IsAddress(a) {
      IpToIntIsCanon(a);
      IpToIntIsCanon(b);
    }
  }

  lemma EqualIsSameCanon(a: IP, b: IP)
    ensures Equal(a, b) <==> Canon(a) == Canon(b)
  {
    if |a| == 16 && |b| == 16 {
      assert a == a[..12] + a[12..] && b == b[..12] + b[12..];
    }
  }

  // A 16-byte address with a nonzero top byte is not an IPv4 address in disguise.
  lemma NonzeroTopIsCanonical(ip: IP)
    requires ip != [] && ip[0] != 0
    ensures Canon(ip) == ip
  {
    if |ip| == 16 {
      assert !IsV4InV6(ip);
    }
  }

  function IpToInt(ip: IP): (r: nat)
  {
    if To4(ip) != NIL then FromBytes(To4(ip)) else FromBytes(To16(ip))
  }

  // big.Int.Bytes is the absolute value.
  function IntToIP(i: int): (r: IP)
  {
    MinBytes(if i < 0 then -i else i)
  }

  function NextIP(ip: IP): (r: IP)
  {
    IntToIP(IpToInt(ip) + 1)
  }

  function PrevIP(ip: IP): (r: IP)
  {
    IntToIP(IpToInt(ip) - 1)
  }

  lemma IpToIntIsCanon(ip: IP)
    requires IsAddress(ip)
    ensures IpToInt(ip) == FromBytes(Canon(ip))
  {
  }

  // Addresses that survive an increment: no leading zero to drop, no carry out.
  predicate Steppable(c: IP)
  {
    IsAddress(c) && c[0] != 0 && !AllOnes(c)
  }

  lemma NextIPIsMinBytes(ip: IP)
    requires IsAddress(ip)
    ensures NextIP(ip) == MinBytes(FromBytes(Canon(ip)) + 1)
  {
    IpToIntIsCanon(ip);
  }

  // The length of the successor of a byte string, read as an integer.
  lemma SuccessorLength(c: seq<byte>)
    requires c != []
    ensures |MinBytes(FromBytes(c) + 1)| == |c|
            <==> (c[0] != 0 && !AllOnes(c)) || (c[0] == 0 && AllOnes(c[1..]))
    ensures AllOnes(c) ==> |MinBytes(FromBytes(c) + 1)| == |c| + 1
  {
    var v := FromBytes(c);
    TopByte(c);
    AllOnesIsMax(c);
    AllOnesIsMax(c[1..]);
    MinBytesLength(v + 1, |c|);
    if AllOnes(c) {
      MinBytesLength(v + 1, |c| + 1);
      assert c[0] == 255;
    } else if c[0] == 0 {
      DropLeadingZero(c);
    }
  }

  lemma {:induction false} DropLeadingZero(b: seq<byte>)
    requires b != [] && b[0] == 0
    ensures FromBytes(b) == FromBytes(b[1..])
  {
    if |b| > 1 {
      var p := b[..|b| - 1];
      SplitLast(b);
      SplitLast(b[1..]);
      DropLeadingZero(p);
      assert b[1..][..|b[1..]| - 1] == p[1..];
    }
  }

  lemma NextIPAddsOne(ip: IP)
    requires Steppable(Canon(ip))
    ensures |NextIP(ip)| == |Canon(ip)|
    ensures FromBytes(NextIP(ip)) == FromBytes(Canon(ip)) + 1
    ensures Canon(NextIP(ip)) == NextIP(ip) && NextIP(ip)[0] != 0
  {
    var c := Canon(ip);
    NextIPIsMinBytes(ip);
    SuccessorLength(c);
    FromMinBytes(FromBytes(c) + 1);
    NonzeroTopIsCanonical(NextIP(ip));
  }

  // NextIP keeps the length exactly for steppable addresses and for 0.255.255.255
  // (or its 16-byte counterpart), whose carry fills the leading zero.
  lemma NextIPKeepsLengthExactly(ip: IP)
    requires IsAddress(ip)
    ensures var c := Canon(ip);
            |NextIP(ip)| == |c| <==> Steppable(c) || (c[0] == 0 && AllOnes(c[1..]))
  {
    NextIPIsMinBytes(ip);
    SuccessorLength(Canon(ip));
  }

  lemma PrevOfSuccessor(ip: IP)
    requires IsAddress(ip) && Canon(ip) == ip && FromBytes(ip) > 0
    ensures PrevIP(ip) == MinBytes(FromBytes(ip) - 1)
  {
    IpToIntIsCanon(ip);
    TopByte(ip);
  }

  lemma PrevOfOddLength(ip: IP)
    requires !IsAddress(ip)
    ensures PrevIP(ip) == [1]
  {
    assert IpToInt(ip) == FromBytes([]) == 0;
    assert MinBytes(1) == MinBytes(0) + [1];
  }

  // PrevIP undoes NextIP on exactly the steppable addresses.
  lemma PrevIPUndoesNextIPExactly(ip: IP)
    requires IsAddress(ip)
    ensures PrevIP(NextIP(ip)) == Canon(ip) <==> Steppable(Canon(ip))
  {
    var c := Canon(ip);
    if Steppable(c) {
      NextIPAddsOne(ip);
      PrevOfSuccessor(NextIP(ip));
      MinFromBytes(c);
    } else if c[0] != 0 {
      NextIPIsMinBytes(ip);
      SuccessorLength(c);
      PrevOfOddLength(NextIP(ip));
    }
  }
}
