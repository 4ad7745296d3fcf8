/** What maintain keeps over every run, and when it ends. */
module LeaseLaws {
  import opened Common
  import opened Addresses
  import opened LeaseTimes
  import opened Lease

  // ---------- safety ----------

  // No clock reading is earlier than the one before.
  ghost predicate Monotone(m: Mach, ticks: seq<Tick>)
    decreases |ticks|
  {
    ticks == [] || (ticks[0].now >= m.clock && Monotone(Turn(m, ticks[0]), ticks[1..]))
  }

  predicate OnTime(m: Mach)
  {
    match m.phase
    case Renewing => m.clock >= m.terms.renewal
    case Rebinding => m.clock > m.terms.rebinding
    case Down => m.clock > m.terms.expire
    case _ => true
  }

  // Over every run with a monotone clock: the lease is renewed only once the
  // renewal time has come, rebound only after the rebinding time, and the link is
  // down only after the expiry, each with respect to the current terms.
  lemma {:induction false} AlwaysOnTime(m: Mach, ticks: seq<Tick>)
    requires OnTime(m) && Monotone(m, ticks)
    ensures OnTime(Run(m, ticks))
    decreases |ticks|
  {
    if ticks != [] {
      AlwaysOnTime(Turn(m, ticks[0]), ticks[1..]);
    }
  }

  // ---------- what a try brings ----------

  // Without a client a try brings nothing at once. Otherwise it brings the first
  // reply of three, after the sleeps before it.
  lemma AnswerExact(a: Attempt)
    requires a.Valid()
    ensures a.NoClient? ==> a.Answer() == None && a.Duration() == 0
    ensures a.Asked? ==>
              var rs, js := a.replies, a.jitters;
              (a.Answer(), a.Duration())
              == if rs[0].Some? then (rs[0], 0)
                 else if rs[1].Some? then (rs[1], 4 * SECOND + js[0])
                 else if rs[2].Some? then (rs[2], 12 * SECOND + js[0] + js[1])
                 else (None, 28 * SECOND + js[0] + js[1] + js[2])
  {
    if a.Asked? {
      FirstDelays(a.jitters);
      assert Failures(a.replies) in {0, 1, 2, 3};
    }
  }

  // ---------- what a commit is ----------

  // The answer of a turn, if it is an ACK with a 4-byte lease time.
  predicate Usable(t: Tick)
  {
    t.attempt.Answer().Some? && var opts := t.attempt.Answer().value.opts; 51 in opts && |opts[51]| == 4
  }

  // The terms are those of the turn's ACK: they count from the clock reading of
  // the turn, the lease is that of option 51, renewal and rebinding are the times
  // that CommitTimes takes from the options.
  predicate TermsOfAck(terms: Terms, t: Tick)
  {
    && Usable(t)
    && var ack := t.attempt.Answer().value;
    && terms.ack == Some(ack)
    && terms.expire - t.now == FromBytes(ack.opts[51]) * SECOND
    && CommitTimes(ack.opts).Some?
    && terms.renewal - t.now == CommitTimes(ack.opts).value.renewal
    && terms.rebinding - t.now == CommitTimes(ack.opts).value.rebinding
  }

  // A usable ACK is committed, an unusable one is not.
  lemma CommitExact(terms: Terms, t: Tick)
    requires t.attempt.Answer().Some?
    ensures var c := Commit(terms, t.attempt.Answer().value, t.now);
            && (c.Some? <==> Usable(t))
            && (c.Some? ==> TermsOfAck(c.value, t))
  {
    hide DefaultRebinding, FromBytes, FirstReply, Wrap64;
    CommitTimesExact(t.attempt.Answer().value.opts);
  }

  // With the default options and a lease that does not overflow: renewal after
  // half of it, rebinding after 85 %, in that order and before the expiry.
  lemma DefaultTerms(terms: Terms, t: Tick)
    requires TermsOfAck(terms, t)
    requires var opts := t.attempt.Answer().value.opts;
             58 !in opts && 59 !in opts && 0 < FromBytes(opts[51]) <= MAX_85
    ensures var lease := FromBytes(t.attempt.Answer().value.opts[51]) * SECOND;
            && terms.renewal == t.now + lease / 2 && terms.rebinding == t.now + lease * 85 / 100
            && terms.expire == t.now + lease
            && t.now < terms.renewal <= terms.rebinding <= terms.expire
  {
    hide FromBytes, FirstReply, CommitTimes;
    DefaultTimes(t.attempt.Answer().value.opts);
  }

  // A usable ACK that comes while renewing or rebinding is committed, and the
  // lease is bound by it, or released on a stop.
  lemma GoodAckIsCommitted(m: Mach, t: Tick)
    requires (m.phase.Renewing? || m.phase.Rebinding?) && Usable(t)
    ensures TermsOfAck(Turn(m, t).terms, t)
    ensures Turn(m, t).phase == if t.stop then Released else Bound
  {
    hide Commit, FirstReply, FromBytes;
    CommitExact(m.terms, t);
  }

  // ---------- who sets the terms ----------

  // The k-th turn of a run gets a usable ACK while renewing or rebinding.
  ghost predicate Renews(m: Mach, ticks: seq<Tick>, k: nat)
    requires k < |ticks|
  {
    var n := Run(m, ticks[..k]);
    (n.phase.Renewing? || n.phase.Rebinding?) && Usable(ticks[k])
  }

  ghost predicate NoneRenews(m: Mach, ticks: seq<Tick>)
  {
    forall k :: 0 <= k < |ticks| ==> !Renews(m, ticks, k)
  }

  // The k-th turn is the last of the run that does.
  ghost predicate LastToRenew(m: Mach, ticks: seq<Tick>, k: nat)
    requires k < |ticks|
  {
    Renews(m, ticks, k) && forall j :: k < j < |ticks| ==> !Renews(m, ticks, j)
  }

  // Every usable ACK that comes while renewing or rebinding sets the terms, and
  // they stand until the next one; nothing else changes them.
  lemma {:induction false} LastAckSetsTerms(m: Mach, ticks: seq<Tick>)
    ensures NoneRenews(m, ticks) ==> Run(m, ticks).terms == m.terms
    ensures forall k :: 0 <= k < |ticks| && LastToRenew(m, ticks, k) ==> TermsOfAck(Run(m, ticks).terms, ticks[k])
    decreases |ticks|
  {
    hide Turn, TermsOfAck, Usable, Run, Renews, NoneRenews, LastToRenew;
    if ticks == [] {
      RunNothing(m);
    } else {
      var before, last := ticks[..|ticks| - 1], |ticks| - 1;
      LastAckSetsTerms(m, before);
      RunLast(m, ticks);
      LastRenews(m, ticks);
      FirstTurnSetsTerms(Run(m, before), ticks[last]);
      RenewsBefore(m, ticks);
    }
  }

  // What the last turn adds.
  lemma RenewsBefore(m: Mach, ticks: seq<Tick>)
    requires ticks != []
    ensures var n := |ticks| - 1;
            && (NoneRenews(m, ticks) <==> NoneRenews(m, ticks[..n]) && !Renews(m, ticks, n))
            && (forall k :: 0 <= k < n ==>
                  (LastToRenew(m, ticks, k) <==> LastToRenew(m, ticks[..n], k) && !Renews(m, ticks, n)))
            && (LastToRenew(m, ticks, n) <==> Renews(m, ticks, n))
  {
    hide Renews;
    var n := |ticks| - 1;
    forall k | 0 <= k < n ensures Renews(m, ticks[..n], k) == Renews(m, ticks, k) {
      EarlierRenews(m, ticks, n, k);
    }
  }

  lemma RunNothing(m: Mach)
    ensures Run(m, []) == m
  {
  }

  lemma EarlierRenews(m: Mach, ticks: seq<Tick>, n: nat, k: nat)
    requires k < n <= |ticks|
    ensures Renews(m, ticks[..n], k) == Renews(m, ticks, k)
  {
    hide Run, Usable;
    assert ticks[..n][..k] == ticks[..k];
  }

  lemma LastRenews(m: Mach, ticks: seq<Tick>)
    requires ticks != []
    ensures var n := Run(m, ticks[..|ticks| - 1]);
            Renews(m, ticks, |ticks| - 1)
            == ((n.phase.Renewing? || n.phase.Rebinding?) && Usable(ticks[|ticks| - 1]))
  {
    hide Run, Usable;
  }

  lemma {:induction false} RunLast(m: Mach, ticks: seq<Tick>)
    requires ticks != []
    ensures Run(m, ticks) == Turn(Run(m, ticks[..|ticks| - 1]), ticks[|ticks| - 1])
    decreases |ticks|
  {
    hide Turn;
    if |ticks| > 1 {
      RunLast(Turn(m, ticks[0]), ticks[1..]);
      assert ticks[1..][..|ticks| - 2] == ticks[..|ticks| - 1][1..];
    }
  }

  lemma FirstTurnSetsTerms(m: Mach, t: Tick)
    ensures (m.phase.Renewing? || m.phase.Rebinding?) && Usable(t) ==> TermsOfAck(Turn(m, t).terms, t)
    ensures !((m.phase.Renewing? || m.phase.Rebinding?) && Usable(t)) ==> Turn(m, t).terms == m.terms
  {
    hide Commit, FirstReply, FromBytes, TermsOfAck, Usable;
    if t.attempt.Answer().Some? {
      CommitExact(m.terms, t);
    } else {
      NoAnswer(t);
    }
  }

  lemma NoAnswer(t: Tick)
    requires t.attempt.Answer() == None
    ensures !Usable(t)
  {
  }

  // A turn leaves the terms alone, or replaces them all by those of the ACK it
  // got, and then the lease is bound again (or released, on a stop).
  lemma TermsChangeOnlyByCommit(m: Mach, t: Tick)
    ensures var m' := Turn(m, t);
            m'.terms != m.terms ==>
              && (m.phase.Renewing? || m.phase.Rebinding?) && t.attempt.Answer().Some?
              && Commit(m.terms, t.attempt.Answer().value, t.now) == Some(m'.terms)
              && m'.phase == Select(Bound, t.stop)
  {
  }

  lemma CommitForgets(m: Mach, n: Mach)
    ensures forall pkt, now :: Commit(m.terms, pkt, now) == Commit(n.terms, pkt, now)
  {
  }

  // Whatever the terms are at the end of a run, they are the first ones or those
  // of one of the ACKs that came, at the time it was committed.
  lemma {:induction false} CommittedTerms(m: Mach, ticks: seq<Tick>)
    ensures Run(m, ticks).terms == m.terms
            || exists k :: 0 <= k < |ticks| && ticks[k].attempt.Answer().Some?
                 && Commit(m.terms, ticks[k].attempt.Answer().value, ticks[k].now) == Some(Run(m, ticks).terms)
    decreases |ticks|
  {
    hide Turn, Commit, FirstReply;
    if ticks != [] {
      var m', rest := Turn(m, ticks[0]), ticks[1..];
      CommittedTerms(m', rest);
      CommitForgets(m, m');
      TermsChangeOnlyByCommit(m, ticks[0]);
      if Run(m', rest).terms != m'.terms {
        var k :| 0 <= k < |rest| && rest[k].attempt.Answer().Some?
          && Commit(m'.terms, rest[k].attempt.Answer().value, rest[k].now) == Some(Run(m', rest).terms);
        assert ticks[k + 1] == rest[k];
      } else if m'.terms != m.terms {
        assert Run(m, ticks).terms == m'.terms;
      }
    }
  }

  // When a turn leads where. The link goes down in exactly one way, and a stop ends
  // the run only at a select: not on the way from bound to renewing, and not when
  // the link goes down. While renewing any ACK counts, while rebinding a usable one.
  lemma NextPhaseExactly(m: Mach, t: Tick)
    requires !Ended(m.phase)
    ensures var n, answered := Turn(m, t), t.attempt.Answer().Some?;
            var expired := m.phase.Rebinding? && !Usable(t) && t.now > m.terms.expire;
            var due := m.phase.Bound? && t.now >= m.terms.renewal;
            && (n.phase.Down? <==> expired)
            && (n.phase.Released? <==> t.stop && !expired && !due)
            && (n.phase.Renewing? <==>
                  due || (m.phase.Renewing? && !answered && t.now <= m.terms.rebinding && !t.stop))
            && (n.phase.Rebinding? <==>
                  && !t.stop && !expired
                  && ((m.phase.Renewing? && !answered && t.now > m.terms.rebinding)
                      || (m.phase.Rebinding? && !Usable(t))))
            && (n.phase.Bound? <==>
                  && !t.stop
                  && ((m.phase.Bound? && !due) || (m.phase.Renewing? && answered) || (m.phase.Rebinding? && Usable(t))))
            && n.clock == t.now
            && n.wake == if m.phase.Bound? && !due then m.terms.renewal else t.now
  {
    hide Commit, FirstReply, FromBytes, Usable;
    if t.attempt.Answer().Some? {
      CommitExact(m.terms, t);
    } else {
      NoAnswer(t);
    }
  }

  // An ACK without a lease time counts as a renewal with the old times: the lease
  // is bound for no time at all, and the next turn asks again.
  lemma MalformedAckIsRetriedAtOnce(m: Mach, t: Tick, next: Tick)
    requires m.phase.Renewing? && OnTime(m) && t.now >= m.clock && next.now >= t.now && !t.stop
    requires t.attempt.Answer().Some? && !Usable(t)
    ensures Turn(m, t) == Mach(Bound, m.terms, t.now, t.now)
    ensures Turn(Turn(m, t), next) == Mach(Renewing, m.terms, next.now, next.now)
  {
    hide Commit, FirstReply, Usable;
    CommitExact(m.terms, t);
  }

  // ---------- expiry ----------

  // Every try is made in full and fails, and no stop arrives.
  predicate AllFail(ticks: seq<Tick>)
  {
    forall k :: 0 <= k < |ticks| ==>
      && !ticks[k].stop && ticks[k].attempt.Asked? && ticks[k].attempt.Valid()
      && ticks[k].attempt.Answer() == None
  }

  // The clock advances at least by the sleeps: to the end of the last select, and
  // in a try also by what backoffRetry sleeps.
  ghost predicate Paced(m: Mach, ticks: seq<Tick>)
    decreases |ticks|
    requires forall k :: 0 <= k < |ticks| ==> ticks[k].attempt.Valid()
  {
    ticks == [] ||
    (&& ticks[0].now >= m.wake + (if m.phase.Bound? then 0 else ticks[0].attempt.Duration())
     && Paced(Turn(m, ticks[0]), ticks[1..]))
  }

  const ROUND := 25 * SECOND

  // The number of failed rounds after which the clock, now d before a limit, is
  // past it for certain.
  function Rounds(d: int): (n: nat)
    ensures n >= 1
    ensures d >= 0 ==> n == d / ROUND + 1
  {
    if d < 0 then 1 else d / ROUND + 1
  }

  function Max(a: int, b: int): (r: int)
  {
    if a < b then b else a
  }

  // How many turns a lease that cannot be renewed lasts at most.
  function TurnsLeft(m: Mach): (r: nat)
  {
    match m.phase
    case Bound =>
      var w := Max(m.wake, m.terms.renewal);
      (if m.wake >= m.terms.renewal then 1 else 2)
      + Rounds(m.terms.rebinding - w) + Rounds(m.terms.expire - Max(w, m.terms.rebinding))
    case Renewing => Rounds(m.terms.rebinding - m.wake) + Rounds(m.terms.expire - Max(m.wake, m.terms.rebinding))
    case Rebinding => Rounds(m.terms.expire - m.wake)
    case _ => 0
  }

  lemma RoundsShrink(d: int, e: int)
    ensures e <= d ==> Rounds(e) <= Rounds(d)
    ensures d >= 0 && e <= d - ROUND && e >= 0 ==> Rounds(e) < Rounds(d)
    ensures e >= 0 && e <= d - ROUND ==> Rounds(d) >= 2
  {
  }

  function Rank(phase: Phase): (r: nat)
  {
    match phase
    case Bound => 0
    case Renewing => 1
    case Rebinding => 2
    case _ => 3
  }

  // A failed round sleeps for at least 25 seconds.
  lemma FailedRound(t: Tick)
    requires t.attempt.Asked? && t.attempt.Valid() && t.attempt.Answer() == None
    ensures ROUND <= t.attempt.Duration() < 31 * SECOND
  {
    assert Failures(t.attempt.replies) == RESEND_COUNT;
    ThreeDelays(t.attempt.jitters);
  }

  lemma TurnBringsCloser(m: Mach, t: Tick)
    requires !Ended(m.phase) && !t.stop && t.attempt.Asked? && t.attempt.Valid() && t.attempt.Answer() == None
    requires t.now >= m.wake + (if m.phase.Bound? then 0 else t.attempt.Duration())
    ensures TurnsLeft(Turn(m, t)) < TurnsLeft(m)
    ensures Rank(m.phase) <= Rank(Turn(m, t).phase) <= Rank(m.phase) + 1 && !Turn(m, t).phase.Released?
    ensures Turn(m, t).terms == m.terms
  {
    hide FirstReply, Slept;
    FailedRound(t);
    var x := m.terms;
    match m.phase {
      case Bound =>
        RoundsShrink(x.rebinding - Max(m.wake, x.renewal), x.rebinding - t.now);
        RoundsShrink(x.expire - Max(Max(m.wake, x.renewal), x.rebinding), x.expire - Max(t.now, x.rebinding));
      case Renewing =>
        RoundsShrink(x.rebinding - m.wake, x.rebinding - t.now);
        RoundsShrink(x.expire - Max(m.wake, x.rebinding), x.expire - Max(t.now, x.rebinding));
        RoundsShrink(x.expire - Max(m.wake, x.rebinding), x.expire - t.now);
      case Rebinding =>
        RoundsShrink(x.expire - m.wake, x.expire - t.now);
    }
  }

  // Expiry: if every try fails and no stop arrives, the lease goes through
  // Renewing and Rebinding, never back, and within a number of turns known in
  // advance the link is down, after the expiry and with the terms unchanged.
  lemma {:induction false} FailingLeaseExpires(m: Mach, ticks: seq<Tick>)
    requires !Ended(m.phase) && AllFail(ticks) && Paced(m, ticks)
    ensures Rank(m.phase) <= Rank(Run(m, ticks).phase) && !Run(m, ticks).phase.Released?
    ensures Run(m, ticks).terms == m.terms
    ensures |ticks| >= TurnsLeft(m) ==> Run(m, ticks).phase == Down && Run(m, ticks).clock > m.terms.expire
    decreases |ticks|
  {
    hide Turn;
    if ticks != [] {
      var m', rest := Turn(m, ticks[0]), ticks[1..];
      TurnBringsCloser(m, ticks[0]);
      assert AllFail(rest) by {
        assert forall k :: 0 <= k < |rest| ==> rest[k] == ticks[k + 1];
      }
      if Ended(m'.phase) {
        EndedStays(m', rest);
        NextPhaseExactly(m, ticks[0]);
      } else {
        FailingLeaseExpires(m', rest);
      }
    }
  }
}
