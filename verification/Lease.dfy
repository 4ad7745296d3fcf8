/** plugins/ipam/dhcp/lease.go: the life of a lease. Replies, random jitter, clock
    readings and the stop signal come from outside, as inputs. */
module Lease {
  import opened Common
  import opened LeaseTimes

  // ---------- backoffRetry ----------

  const RESEND_COUNT := 3
  const RESEND_DELAY_0 := 4 * SECOND
  const RESEND_DELAY_MAX := 32 * SECOND

  // An ACK, as far as the lease looks into it.
  datatype Packet = Packet(opts: Options)

  type Replies = seq<Option<Packet>>

  predicate Jitters(js: seq<int>)
  {
    |js| == RESEND_COUNT && forall i :: 0 <= i < RESEND_COUNT ==> -SECOND <= js[i] < SECOND
  }

  function BaseDelay(i: nat): (r: int)
  {
    if i == 0 then RESEND_DELAY_0
    else if BaseDelay(i - 1) < RESEND_DELAY_MAX then 2 * BaseDelay(i - 1) else BaseDelay(i - 1)
  }

  // The time slept over the first n failed attempts.
  function Slept(js: seq<int>, n: nat): (r: int)
    requires n <= |js|
  {
    if n == 0 then 0 else Slept(js, n - 1) + BaseDelay(n - 1) + js[n - 1]
  }

  // How many attempts fail before the first reply.
  function Failures(rs: Replies): (n: nat)
    ensures n <= |rs| && forall i :: 0 <= i < n ==> rs[i].None?
    ensures n < |rs| ==> rs[n].Some?
    decreases |rs|
  {
    if rs == [] || rs[0].Some? then 0 else 1 + Failures(rs[1..])
  }

  function FirstReply(rs: Replies): (r: Option<Packet>)
  {
    if Failures(rs) < |rs| then rs[Failures(rs)] else None
  }

  // The first reply of the three attempts, or none, after which between 25 and 31
  // seconds have been slept.
  method BackoffRetry(rs: Replies, js: seq<int>) returns (pkt: Option<Packet>, slept: int)
    requires |rs| == RESEND_COUNT && Jitters(js)
    ensures pkt == FirstReply(rs) && slept == Slept(js, Failures(rs))
    ensures pkt == None <==> rs[0].None? && rs[1].None? && rs[2].None?
    ensures forall i :: 0 <= i < 3 && rs[i].Some? && (forall k :: 0 <= k < i ==> rs[k].None?) ==> pkt == rs[i]
    ensures slept == if rs[0].Some? then 0
                     else if rs[1].Some? then 4 * SECOND + js[0]
                     else if rs[2].Some? then 12 * SECOND + js[0] + js[1]
                     else 28 * SECOND + js[0] + js[1] + js[2]
    ensures pkt == None ==> 25 * SECOND <= slept < 31 * SECOND
  {
    var baseDelay := RESEND_DELAY_0;
    slept := 0;
    for i := 0 to RESEND_COUNT
      invariant baseDelay == BaseDelay(i) && slept == Slept(js, i)
      invariant forall k :: 0 <= k < i ==> rs[k].None?
    {
      if rs[i].Some? {
        assert Failures(rs) == i by { FailuresAre(rs, i); }
        FirstDelays(js);
        return rs[i], slept;
      }
      slept := slept + baseDelay + js[i];
      if baseDelay < RESEND_DELAY_MAX {
        baseDelay := baseDelay * 2;
      }
    }
    FailuresAre(rs, RESEND_COUNT);
    FirstDelays(js);
    return None, slept;
  }

  lemma FailuresAre(rs: Replies, i: nat)
    requires i <= |rs| && (forall k :: 0 <= k < i ==> rs[k].None?) && (i < |rs| ==> rs[i].Some?)
    ensures Failures(rs) == i
  {
  }

  // 4, 8 and 16 seconds, each within a second.
  lemma ThreeDelays(js: seq<int>)
    requires Jitters(js)
    ensures 25 * SECOND <= Slept(js, RESEND_COUNT) < 31 * SECOND
  {
    FirstDelays(js);
  }

  lemma FirstDelays(js: seq<int>)
    requires Jitters(js)
    ensures Slept(js, 0) == 0 && Slept(js, 1) == 4 * SECOND + js[0] && Slept(js, 2) == 12 * SECOND + js[0] + js[1]
    ensures Slept(js, 3) == 28 * SECOND + js[0] + js[1] + js[2]
  {
    assert BaseDelay(1) == 8 * SECOND && BaseDelay(2) == 16 * SECOND;
  }

  // ---------- the lease and its states ----------

  // What a lease remembers: its three times, and the ACK they come from.
  datatype Terms = Terms(renewal: int, rebinding: int, expire: int, ack: Option<Packet>)

  function Commit(terms: Terms, ack: Packet, now: int): (r: Option<Terms>)
  {
    match CommitTimes(ack.opts)
    case None => None
    case Some(t) => Some(Terms(now + t.renewal, now + t.rebinding, now + t.lease, Some(ack)))
  }

  // Released and Down end the maintenance.
  datatype Phase = Bound | Renewing | Rebinding | Released | Down

  // A try at a new ACK: without a client (or a link that is up) there is no
  // request at all, otherwise three are made.
  datatype Attempt = NoClient | Asked(replies: Replies, jitters: seq<int>)
  {
    predicate Valid()
    {
      Asked? ==> |replies| == RESEND_COUNT && Jitters(jitters)
    }

    function Answer(): (r: Option<Packet>)
    {
      if NoClient? then None else FirstReply(replies)
    }

    function Duration(): (r: int)
      requires Valid()
    {
      if NoClient? then 0 else Slept(jitters, Failures(replies))
    }
  }

  // What the world does during one turn of the loop: the try, if the state makes
  // one, the one clock reading of the turn, and whether the select sees a stop.
  datatype Tick = Tick(attempt: Attempt, now: int, stop: bool)

  // The maintenance: clock is the last reading, wake the earliest time at which
  // the sleep of the last turn can be over.
  datatype Mach = Mach(phase: Phase, terms: Terms, clock: int, wake: int)

  predicate Ended(phase: Phase)
  {
    phase.Released? || phase.Down?
  }

  function Select(phase: Phase, stop: bool): (r: Phase)
  {
    if stop then Released else phase
  }

  // One turn of maintain's loop.
  function Turn(m: Mach, t: Tick): (r: Mach)
  {
    match m.phase
    case Bound =>
      if m.terms.renewal - t.now <= 0 then Mach(Renewing, m.terms, t.now, t.now)
      else Mach(Select(Bound, t.stop), m.terms, t.now, m.terms.renewal)
    case Renewing =>
      (match t.attempt.Answer()
       case None =>
         var phase := if t.now > m.terms.rebinding then Rebinding else Renewing;
         Mach(Select(phase, t.stop), m.terms, t.now, t.now)
       case Some(pkt) =>
         // renew drops the error of commit
         var c := Commit(m.terms, pkt, t.now);
         Mach(Select(Bound, t.stop), if c.Some? then c.value else m.terms, t.now, t.now))
    case Rebinding =>
      var c := if t.attempt.Answer().Some? then Commit(m.terms, t.attempt.Answer().value, t.now) else None;
      if c.Some? then Mach(Select(Bound, t.stop), c.value, t.now, t.now)
      else if t.now > m.terms.expire then Mach(Down, m.terms, t.now, t.now)
      else Mach(Select(Rebinding, t.stop), m.terms, t.now, t.now)
    case _ => m
  }

  function Run(m: Mach, ticks: seq<Tick>): (r: Mach)
    decreases |ticks|
  {
    if ticks == [] then m else Run(Turn(m, ticks[0]), ticks[1..])
  }

  class DHCPLease {
    var renewalTime: int
    var rebindingTime: int
    var expireTime: int
    var ack: Option<Packet>
    // What the lease has done to the world.
    var releasesSent: nat
    var linksDowned: nat

    constructor (terms: Terms)
      ensures Current() == terms && releasesSent == linksDowned == 0
    {
      renewalTime, rebindingTime, expireTime := terms.renewal, terms.rebinding, terms.expire;
      ack := terms.ack;
      releasesSent, linksDowned := 0, 0;
    }

    function Current(): (r: Terms)
      reads this
    {
      Terms(renewalTime, rebindingTime, expireTime, ack)
    }

    // All three times and the ACK change together, or nothing does.
    method CommitAck(pkt: Packet, now: int) returns (ok: bool)
      modifies this`renewalTime, this`rebindingTime, this`expireTime, this`ack
      ensures var c := Commit(old(Current()), pkt, now);
              ok == c.Some? && Current() == if ok then c.value else old(Current())
    {
      var lease := ParseDuration(pkt.opts, OPTION_LEASE_TIME);
      if lease == None {
        return false;
      }
      var rebinding := ParseDuration(pkt.opts, OPTION_REBINDING_TIME);
      if rebinding == None || rebinding.value > lease.value {
        rebinding := Some(DefaultRebinding(lease.value));
      }
      var renewal := ParseDuration(pkt.opts, OPTION_RENEWAL_TIME);
      if renewal == None || renewal.value > rebinding.value {
        renewal := Some(Quotient(lease.value, 2));
      }
      expireTime := now + lease.value;
      renewalTime := now + renewal.value;
      rebindingTime := now + rebinding.value;
      ack := Some(pkt);
      return true;
    }

    method Ask(attempt: Attempt) returns (pkt: Option<Packet>)
      requires attempt.Valid()
      ensures pkt == attempt.Answer()
    {
      if attempt.NoClient? {
        return None;
      }
      var slept;
      pkt, slept := BackoffRetry(attempt.replies, attempt.jitters);
    }

    method Renew(attempt: Attempt, now: int) returns (ok: bool)
      requires attempt.Valid()
      modifies this`renewalTime, this`rebindingTime, this`expireTime, this`ack
      ensures ok == attempt.Answer().Some?
      ensures var c := if ok then Commit(old(Current()), attempt.Answer().value, now) else None;
              Current() == if c.Some? then c.value else old(Current())
    {
      var pkt := Ask(attempt);
      if pkt == None {
        return false;
      }
      var ignored := CommitAck(pkt.value, now);
      return true;
    }

    method Acquire(attempt: Attempt, now: int) returns (ok: bool)
      requires attempt.Valid()
      modifies this`renewalTime, this`rebindingTime, this`expireTime, this`ack
      ensures var c := if attempt.Answer().Some? then Commit(old(Current()), attempt.Answer().value, now) else None;
              ok == c.Some? && Current() == if ok then c.value else old(Current())
    {
      var pkt := Ask(attempt);
      if pkt == None {
        return false;
      }
      ok := CommitAck(pkt.value, now);
    }

    // The loop, for as long as the world goes on: it follows the machine, and a
    // maintenance that ends has either sent one release or downed the link once.
    method Maintain(ticks: seq<Tick>) returns (phase: Phase)
      requires forall i :: 0 <= i < |ticks| ==> ticks[i].attempt.Valid()
      modifies this
      ensures forall clock, wake :: var m := Run(Mach(Bound, old(Current()), clock, wake), ticks);
                                    phase == m.phase && Current() == m.terms
      ensures releasesSent == old(releasesSent) + (if phase.Released? then 1 else 0)
      ensures linksDowned == old(linksDowned) + (if phase.Down? then 1 else 0)
    {
      phase := Bound;
      var i := 0;
      ghost var clock, wake := 0, 0;
      ghost var m0 := Mach(Bound, Current(), 0, 0);
      while i < |ticks|
        invariant i <= |ticks| && !Ended(phase)
        invariant Run(Mach(phase, Current(), clock, wake), ticks[i..]) == Run(m0, ticks)
        invariant releasesSent == old(releasesSent) && linksDowned == old(linksDowned)
      {
        var t := ticks[i];
        ghost var m := Turn(Mach(phase, Current(), clock, wake), t);
        assert ticks[i..][0] == t && ticks[i..][1..] == ticks[i + 1..];
        i := i + 1;
        clock, wake := m.clock, m.wake;
        match phase {
          case Bound =>
            if renewalTime - t.now <= 0 {
              phase := Renewing;
              continue;
            }
          case Renewing =>
            var ok := Renew(t.attempt, t.now);
            if ok {
              phase := Bound;
            } else if t.now > rebindingTime {
              phase := Rebinding;
            }
          case Rebinding =>
            var ok := Acquire(t.attempt, t.now);
            if ok {
              phase := Bound;
            } else if t.now > expireTime {
              DownIface();
              EndedStays(m, ticks[i..]);
              ClockIsBystander(m0, ticks);
              return Down;
            }
        }
        if t.stop {
          Release();
          EndedStays(m, ticks[i..]);
          ClockIsBystander(m0, ticks);
          return Released;
        }
      }
      ClockIsBystander(m0, ticks);
    }

    method DownIface()
      modifies this`linksDowned
      ensures linksDowned == old(linksDowned) + 1
    {
      linksDowned := linksDowned + 1;
    }

    method Release()
      modifies this`releasesSent
      ensures releasesSent == old(releasesSent) + 1
    {
      releasesSent := releasesSent + 1;
    }
  }

  lemma {:induction false} EndedStays(m: Mach, ticks: seq<Tick>)
    requires Ended(m.phase)
    ensures Run(m, ticks) == m
    decreases |ticks|
  {
    if ticks != [] {
      EndedStays(m, ticks[1..]);
    }
  }

  // Phase and terms do not depend on the bookkeeping of time.
  lemma {:induction false} ClockIsBystander(m: Mach, ticks: seq<Tick>)
    ensures forall clock, wake ::
              var n := Run(m.(clock := clock, wake := wake), ticks);
              n.phase == Run(m, ticks).phase && n.terms == Run(m, ticks).terms
    decreases |ticks|
  {
    forall clock, wake
      ensures var n := Run(m.(clock := clock, wake := wake), ticks);
              n.phase == Run(m, ticks).phase && n.terms == Run(m, ticks).terms
    {
      SameTurns(m, m.(clock := clock, wake := wake), ticks);
    }
  }

  lemma {:induction false} SameTurns(m: Mach, n: Mach, ticks: seq<Tick>)
    requires m.phase == n.phase && m.terms == n.terms
    ensures Run(m, ticks).phase == Run(n, ticks).phase && Run(m, ticks).terms == Run(n, ticks).terms
    decreases |ticks|
  {
    if ticks != [] {
      SameTurns(Turn(m, ticks[0]), Turn(n, ticks[0]), ticks[1..]);
    }
  }
}
