/** The first cases of plugins/ipam/host-local/allocator_test.go, for 10.0.0.0/29
    without a configured range or gateway. */
module AllocationExamples {
  import opened Common
  import opened Addresses
  import opened Bits
  import opened Subnets
  import opened Ranges
  import opened Rings
  import opened Stores
  import opened Allocator
  import opened AllocationLaws
  import opened AllocationRuns

  const NET: IPNet := IPNet([10, 0, 0, 0], [255, 255, 255, 248])
  const CONF: Conf := Conf(NET, NIL, NIL, NIL, NIL)
  const BASE := 167_772_160

  // 10.0.0.x
  function Ten(x: byte): (ip: IP)
  {
    [10, 0, 0, x]
  }

  lemma TenIsBase(x: byte)
    ensures FromBytes(Ten(x)) == BASE + x
  {
    var b := Ten(x);
    assert FirstBytes(b, 1) == 10;
    assert FirstBytes(b, 2) == 2560;
    assert FirstBytes(b, 3) == 655_360;
  }

  lemma FourBytes()
    ensures Pow256(3) == 16_777_216 && Pow256(4) == 4_294_967_296
  {
    assert Pow256(1) == 256 && Pow256(2) == 65_536;
  }

  lemma ThreeHostBits()
    ensures HostBits(NET.mask) == Some(3) && WellFormed(NET)
  {
  }

  lemma NetworkIsBase()
    ensures FromBytes(AndBytes(Canon(NET.ip), NET.mask)) == BASE && Pow2(3) == 8
  {
    ThreeHostBits();
    TenIsBase(0);
    CIDRMaskOfHostBits(NET.mask);
    AndMaskValue(NET.ip, 3);
    assert BlockStart(BASE, 3) == 2 * BlockStart(BASE / 2, 2);
    assert BlockStart(BASE / 2, 2) == 2 * BlockStart(BASE / 4, 1);
    SmallPowers();
  }

  // The range is 10.0.0.1 to 10.0.0.6.
  lemma RangeOfConf()
    ensures ConfiguredRange(CONF) == Ok((Ten(1), Ten(6)))
  {
    hide FromBytes, FirstBytes, HostBits, AndBytes, NextIP, ConfiguredRange, Pow2, Pow256;
    ThreeHostBits();
    NetworkIsBase();
    FourBytes();
    TenIsBase(0);
    TenIsBase(1);
    TenIsBase(6);
    ConfigurationRefusedExactly(CONF);
    ConfiguredRangeExact(CONF);
    var (start, end) := ConfiguredRange(CONF).value;
    DefaultStartIsGood(CONF);
    DefaultStart(NET.ip);
    FromBytesInjective(start, Ten(1));
    FromBytesInjective(end, Ten(6));
  }

  function TestPool(text: Text): (p: Pool)
  {
    Pool(text, NET, Ten(1), Ten(6), Ten(1))
  }

  // It is the pool of the allocator that the configuration makes.
  lemma PoolOfAllocator(a: IPAllocator)
    requires a.conf == CONF && ConfiguredRange(CONF) == Ok((a.start, a.end))
    ensures a.GetPool() == TestPool(a.store.Codec())
  {
    hide FromBytes, FirstBytes, HostBits, NextIP, ConfiguredRange, Pow256;
    RangeOfConf();
    FourBytes();
    TenIsBase(0);
    TenIsBase(1);
    a.GatewayExact();
    FromBytesInjective(a.GetPool().gw, Ten(1));
  }

  lemma TenForm(x: byte)
    ensures Canon(Ten(x)) == Ten(x) && |Ten(x)| == 4
  {
  }

  lemma RangeIsSound()
    ensures Sound(NET, Ten(1), Ten(6))
  {
    hide Sound, FromBytes, HostBits, AndBytes, ConfiguredRange, Pow256, Pow2, IsV4InV6, DefaultEnd, NetworkRange;
    RangeOfConf();
    FourBytes();
    ThreeHostBits();
    NetworkIsBase();
    TenIsBase(0);
    TenForm(0);
    NetworkRangeArithmetic(NET);
    RangeIsSoundExactly(CONF);
  }

  lemma TestPoolIsValid(text: Text)
    requires text.Faithful()
    ensures TestPool(text).Valid() && TestPool(text).Range() == Ring(BASE + 1, BASE + 6)
  {
    hide FromBytes, Sound, IsV4InV6, Canon;
    RangeIsSound();
    TenForm(1);
    TenForm(6);
    TenIsBase(1);
    TenIsBase(6);
  }

  lemma TestKey(text: Text, x: byte)
    requires text.Faithful() && 1 <= x <= 6
    ensures TestPool(text).Key(BASE + x) == Ten(x)
    ensures TestPool(text).IsGateway(BASE + x) <==> x == 1
  {
    hide FromBytes, Sound, Pool.Key, Canon, IsV4InV6;
    var p := TestPool(text);
    TestPoolIsValid(text);
    RangeIsSound();
    TenIsBase(x);
    TenForm(x);
    TenForm(1);
    p.AddressOf(Ten(x));
  }

  // On an empty store the first address is 10.0.0.2: the start is the gateway.
  lemma FreshStart(text: Text, s: Store, id: string)
    requires text.Faithful() && (s == Memory(map[], NIL) || s == Disk(map[]))
    ensures Sound(NET, Ten(1), Ten(6))
    ensures TestPool(text).Get(s, id, NIL, NO_FAULTS).1 == Ok(Ten(2))
  {
    hide Pool.Key, Sound, Pool.IsGateway, Pool.Get, Pool.Cursor, Pool.Name;
    var p := TestPool(text);
    RangeIsSound();
    TestPoolIsValid(text);
    EmptyCursor(p, s);
    TestKey(text, 1);
    TestKey(text, 2);
    GivesIf(p, s, id, BASE + 2);
  }

  // After 10.0.0.5, 10.0.0.6 is next; or, if it is taken, 10.0.0.2 again.
  lemma AfterTheFifth(text: Text, id: string, taken: string)
    requires text.Faithful()
    ensures Sound(NET, Ten(1), Ten(6))
    ensures TestPool(text).Get(Memory(map[], Ten(5)), id, NIL, NO_FAULTS).1 == Ok(Ten(6))
    ensures TestPool(text).Get(Memory(map[text.show(Ten(6)) := taken], Ten(5)), id, NIL, NO_FAULTS).1 == Ok(Ten(2))
  {
    hide Pool.Key, Sound, Pool.IsGateway, Pool.Get, Pool.Cursor;
    var p := TestPool(text);
    RangeIsSound();
    TestPoolIsValid(text);
    TestKey(text, 1);
    TestKey(text, 2);
    TestKey(text, 6);
    p.KeysAreDistinct(BASE + 2, BASE + 6);
    FifthIsCursor(text, map[]);
    FifthIsCursor(text, map[text.show(Ten(6)) := taken]);
    GivesIf(p, Memory(map[], Ten(5)), id, BASE + 6);
    GivesIf(p, Memory(map[text.show(Ten(6)) := taken], Ten(5)), id, BASE + 2);
  }

  lemma FifthIsCursor(text: Text, held: map<string, string>)
    requires text.Faithful()
    ensures TestPool(text).Cursor(Memory(held, Ten(5)), NO_FAULTS) == BASE + 5
  {
    hide Pool.Key, Sound, Pool.Cursor, Canon, IsV4InV6, FromBytes, RangeError;
    var p := TestPool(text);
    RangeIsSound();
    TestPoolIsValid(text);
    TestKey(text, 5);
    TenForm(5);
    TenIsBase(5);
    p.KeyIsAccepted(BASE + 5);
    CursorExact(p, Memory(held, Ten(5)), NO_FAULTS, Ten(5));
  }

  lemma GivesIf(p: Pool, s: Store, id: string, x: int)
    requires p.Valid() && p.Has(x) && x != p.Cursor(s, NO_FAULTS) && x !in Busy(p, s)
    requires forall y :: p.Has(y) && y != p.Cursor(s, NO_FAULTS)
                         && p.Range().Dist(p.Cursor(s, NO_FAULTS), y) < p.Range().Dist(p.Cursor(s, NO_FAULTS), x) ==>
               y in Busy(p, s)
    ensures p.Get(s, id, NIL, NO_FAULTS).1 == Ok(p.Key(x))
  {
    hide Sound, Pool.GetAny, Pool.Cursor, Pool.Key, Contains, Busy, Store.Held;
    SearchGivesNearestFree(p, s, id);
    assert p.GetAny(s, id, NO_FAULTS).1 == Ok(x);
  }
}
