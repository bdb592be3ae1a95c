/** `ikcp_check` against `ikcp_update`, on a 32-bit clock that may wrap. */
module Schedule {
  import opened Serial
  import opened Wire
  import opened Engine
  import opened Calls

  // ---------- the flush clock ----------

  /** An update at time `now` flushes: it is the first, or the flush time has come, or is further off than
      10 seconds. */
  predicate Flushes(c: Clock, now: u32) {
    !c.updated || TimeDiff(now, c.tsFlush) >= 0 || TimeDiff(now, c.tsFlush) < -10000
  }

  /** After an update the next flush is ahead; after an update that flushes it is at most one
      interval ahead. */
  lemma {:induction false} TickAhead(c: Clock, now: u32, interval: u32)
    requires 10 <= interval <= 5000
    ensures var (c', flushed) := Tick(c, now, interval);
            && c'.current == now && c'.updated
            && 0 < TimeDiff(c'.tsFlush, now) <= (if flushed then interval else 10000)
  {
    var ts0 := if c.updated then c.tsFlush else now;
    TimeDiffSame(now);
    var slap := TimeDiff(now, ts0);
    var far := slap >= 10000 || slap < -10000;
    var ts1, s1 := if far then now else ts0, if far then 0 else slap;
    assert TimeDiff(now, ts1) == s1;
    TimeDiffFlip(now, ts1);
    TimeDiffShift(ts1, now, interval);
    TimeDiffFlip(Wrap(ts1 + interval), now);
    TimeDiffShift(now, now, interval);
    hide TimeDiff, Wrap;
  }

  /** An update flushes exactly then, and otherwise only notes the time. */
  lemma {:induction false} TickFlushes(c: Clock, now: u32, interval: u32)
    ensures Tick(c, now, interval).1 <==> Flushes(c, now)
    ensures !Flushes(c, now) ==> Tick(c, now, interval).0 == c.(current := now)
  {
    TimeDiffSame(now);
    hide TimeDiff, Wrap;
  }

  lemma {:induction false} TickNext(c: Clock, now: u32, interval: u32)
    requires 10 <= interval <= 5000 && Flushes(c, now)
    ensures var ts := Tick(c, now, interval).0.tsFlush;
            ts == if c.updated && 0 <= TimeDiff(now, c.tsFlush) < interval then Wrap(c.tsFlush + interval)
                  else Wrap(now + interval)
  {
    var ts0 := if c.updated then c.tsFlush else now;
    TimeDiffSame(now);
    var slap := TimeDiff(now, ts0);
    hide TimeDiff, Wrap;
    if 0 <= slap < 10000 {
      TimeDiffFlip(now, ts0);
      TimeDiffShift(ts0, now, interval);
      TimeDiffFlip(Wrap(ts0 + interval), now);
    } else {
      TimeDiffShift(now, now, interval);
      TimeDiffFlip(Wrap(now + interval), now);
    }
  }

  lemma {:induction false} UpdateClock(k: Kcb, now: u32)
    ensures Update(k, now).k.clock == Tick(k.clock, now, k.cfg.interval).0
    ensures !Tick(k.clock, now, k.cfg.interval).1 ==> Update(k, now) == Flushed(k.(clock := Update(k, now).k.clock), [])
  {
    hide Tick, Admit, SendWindow, TouchAll, Due, Fated, AfterFlush, Pack, Control, ProbeTick, StampOf, AnyDead,
         PolicyOf, Template, Wrap;
  }

  /** The flush time an update leaves. If it comes less than one interval late the next flush is due one
      interval after this one was, so that lateness does not add up; the first update, and one that comes
      later than that or far off, start anew from its own time. */
  lemma {:induction false} UpdateNext(k: Kcb, now: u32)
    requires 10 <= k.cfg.interval <= 5000
    ensures var c, c', late := k.clock, Update(k, now).k.clock, TimeDiff(now, k.clock.tsFlush);
            && c'.current == now && c'.updated
            && (c.updated && -10000 <= late < 0 ==> c'.tsFlush == c.tsFlush)
            && (c.updated && 0 <= late < k.cfg.interval ==> c'.tsFlush == Wrap(c.tsFlush + k.cfg.interval))
            && (!c.updated || late >= k.cfg.interval || late < -10000 ==> c'.tsFlush == Wrap(now + k.cfg.interval))
  {
    UpdateClock(k, now);
    TickFlushes(k.clock, now, k.cfg.interval);
    TickAhead(k.clock, now, k.cfg.interval);
    hide Tick, Update, TimeDiff, Wrap;
    if Flushes(k.clock, now) {
      TickNext(k.clock, now, k.cfg.interval);
    }
  }

  lemma {:induction false} ClockStays(k: Kcb, c: Call)
    requires !c.UpdateCall?
    ensures After(k, c).clock == k.clock
  {
    hide Enqueue, Receive, Parse, Admit, TouchAll, Due, Fated, AfterFlush, Pack, Control, ProbeTick,
         AnyDead, Tick, SendWindow, PolicyOf, Template, ScanAcks, Grow, TakeFast, Steps, StampOf;
  }

  /** Each update of the run comes less than one interval after the flush time it finds, if it does not come
      before it. */
  ghost predicate Punctual(k: Kcb, calls: seq<Call>) {
    forall i :: 0 <= i < |calls| && calls[i].UpdateCall? ==>
                  -10000 <= TimeDiff(calls[i].now, AfterAll(k, calls[..i]).clock.tsFlush) < k.cfg.interval
  }

  /** How many updates of the run flush. */
  function FlushCount(k: Kcb, calls: seq<Call>): nat {
    if calls == [] then 0
    else
      var last := |calls| - 1;
      FlushCount(k, calls[..last])
      + if calls[last].UpdateCall? && TimeDiff(calls[last].now, AfterAll(k, calls[..last]).clock.tsFlush) >= 0 then 1
        else 0
  }

  lemma {:induction false} PunctualInit(k: Kcb, calls: seq<Call>)
    requires calls != [] && Punctual(k, calls)
    ensures var last := |calls| - 1;
            && Punctual(k, calls[..last])
            && (calls[last].UpdateCall? ==>
                  -10000 <= TimeDiff(calls[last].now, AfterAll(k, calls[..last]).clock.tsFlush) < k.cfg.interval)
  {
    hide AfterAll, TimeDiff;
    var before := calls[..|calls| - 1];
    assert forall i :: 0 <= i < |before| ==> before[..i] == calls[..i] && before[i] == calls[i];
  }

  /** The flush times of any run with such updates, whatever is called between them, lie on one grid: the `n`th
      flush puts the next one at `n` intervals after the first flush time, late as it may have come. */
  lemma {:induction false} FlushesOnGrid(k: Kcb, calls: seq<Call>)
    requires k.clock.updated && 10 <= k.cfg.interval <= 5000 && Punctual(k, calls)
    ensures var c := AfterAll(k, calls).clock;
            && AfterAll(k, calls).cfg == k.cfg && c.updated
            && c.tsFlush == Wrap(k.clock.tsFlush + FlushCount(k, calls) * k.cfg.interval)
  {
    hide After, Wrap, TimeDiff, Punctual;
    if calls == [] {
      WrapIs(k.clock.tsFlush, 0);
    } else {
      var before, c := calls[..|calls| - 1], calls[|calls| - 1];
      PunctualInit(k, calls);
      FlushesOnGrid(k, before);
      var k1, n := AfterAll(k, before), FlushCount(k, before);
      ConfigStays(k1, c);
      if c.UpdateCall? {
        UpdateNext(k1, c.now);
        AfterUpdate(k1, c.now);
        WrapAdd(k.clock.tsFlush + n * k.cfg.interval, k.cfg.interval);
        OneMore(n, k.cfg.interval);
      } else {
        ClockStays(k1, c);
      }
    }
  }

  lemma {:induction false} AfterUpdate(k: Kcb, now: u32)
    ensures After(k, UpdateCall(now)) == Update(k, now).k
  {
    hide Update;
  }

  lemma {:induction false} OneMore(n: nat, d: nat)
    ensures n * d + d == (n + 1) * d
  {
  }

  // ---------- ikcp_check ----------

  /** A segment's resend timer has run out. */
  predicate Overdue(buf: seq<Segment>, now: u32) {
    exists i :: 0 <= i < |buf| && TimeDiff(buf[i].resendts, now) <= 0
  }

  lemma {:induction false} NextResendOverdue(buf: seq<Segment>, now: u32)
    ensures NextResend(buf, now) <= 0 <==> Overdue(buf, now)
  {
    hide TimeDiff;
    if buf != [] {
      var last := |buf| - 1;
      NextResendOverdue(buf[..last], now);
      if Overdue(buf[..last], now) {
        var i :| 0 <= i < last && TimeDiff(buf[..last][i].resendts, now) <= 0;
        assert TimeDiff(buf[i].resendts, now) <= 0;
      }
      if Overdue(buf, now) && TimeDiff(buf[last].resendts, now) > 0 {
        var i :| 0 <= i < |buf| && TimeDiff(buf[i].resendts, now) <= 0;
        assert TimeDiff(buf[..last][i].resendts, now) <= 0;
      }
    }
  }

  /** The wait `ikcp_check` asks for. */
  function Wait(k: Kcb, now: u32): u32 {
    Off(Check(k, now), now)
  }

  /** `ikcp_check` returns the current time exactly when an update would flush or a resend timer has
      run out; otherwise it returns a later time, at most one interval ahead. */
  lemma {:induction false} CheckNowIff(k: Kcb, now: u32)
    requires 10 <= k.cfg.interval <= 5000
    ensures Check(k, now) == now <==> Flushes(k.clock, now) || Overdue(k.snd.buf, now)
    ensures Check(k, now) != now ==>
              && 0 < Wait(k, now) <= k.cfg.interval
              && Wait(k, now) <= TimeDiff(k.clock.tsFlush, now) == -TimeDiff(now, k.clock.tsFlush)
              && Wait(k, now) <= NextResend(k.snd.buf, now)
  {
    TickFlushes(k.clock, now, k.cfg.interval);
    NextResendOverdue(k.snd.buf, now);
    hide Tick, Overdue, NextResend;
    OffAhead(now, 0);
    WrapIs(now, 0);
    var slap := TimeDiff(now, k.clock.tsFlush);
    if k.clock.updated && -10000 <= slap < 0 && NextResend(k.snd.buf, now) > 0 {
      TimeDiffFlip(now, k.clock.tsFlush);
      hide TimeDiff, Off, Wrap;
      var wait := Min(Min(NextResend(k.snd.buf, now), -slap), k.cfg.interval);
      OffAhead(now, wait);
      assert Check(k, now) == Wrap(now + wait);
    }
  }

  lemma {:induction false} NextResendIsOne(buf: seq<Segment>, now: u32)
    ensures NextResend(buf, now) == 0x7fff_ffff
            || exists i :: 0 <= i < |buf| && NextResend(buf, now) == TimeDiff(buf[i].resendts, now)
  {
    hide TimeDiff;
    if buf != [] {
      var last := |buf| - 1;
      NextResendIsOne(buf[..last], now);
      if i :| 0 <= i < last && NextResend(buf[..last], now) == TimeDiff(buf[..last][i].resendts, now) {
        assert NextResend(buf[..last], now) == TimeDiff(buf[i].resendts, now);
      }
      assert TimeDiff(buf[last].resendts, now) == TimeDiff(buf[last].resendts, now);
    }
  }

  /** A wait is no shorter than it has to be: it is one interval, or ends at the flush time, or ends at the
      resend deadline of some segment. */
  lemma {:induction false} CheckTight(k: Kcb, now: u32)
    requires 10 <= k.cfg.interval <= 5000 && Check(k, now) != now
    ensures || Wait(k, now) == k.cfg.interval
            || Wait(k, now) == TimeDiff(k.clock.tsFlush, now)
            || exists i :: 0 <= i < |k.snd.buf| && Wait(k, now) == TimeDiff(k.snd.buf[i].resendts, now)
  {
    CheckNowIff(k, now);
    NextResendIsOne(k.snd.buf, now);
    var wait := Min(Min(NextResend(k.snd.buf, now), TimeDiff(k.clock.tsFlush, now)), k.cfg.interval);
    assert Check(k, now) == Wrap(now + wait) by {
      hide TimeDiff, Wrap, NextResend, Off;
    }
    hide Check, TimeDiff, NextResend, Tick, Overdue;
    WaitIs(k, now, wait);
    hide Off, Wrap;
  }

  lemma {:induction false} WaitIs(k: Kcb, now: u32, wait: nat)
    requires Check(k, now) == Wrap(now + wait) && wait < TWO31
    ensures Wait(k, now) == wait
  {
    hide Check;
    OffAhead(now, wait);
  }

  /** At the time `d` behind `now` an update would flush, or a resend timer has run out. */
  predicate Busy(k: Kcb, now: u32, d: nat) {
    Flushes(k.clock, Wrap(now + d)) || Overdue(k.snd.buf, Wrap(now + d))
  }

  lemma {:induction false} OverdueLater(buf: seq<Segment>, now: u32, d: nat)
    requires d < TWO31 && forall i :: 0 <= i < |buf| ==> d < TimeDiff(buf[i].resendts, now)
    ensures !Overdue(buf, Wrap(now + d))
  {
    forall i | 0 <= i < |buf| ensures TimeDiff(buf[i].resendts, Wrap(now + d)) > 0 {
      TimeDiffAhead(buf[i].resendts, now, d);
    }
    hide TimeDiff, Wrap;
  }

  /** Seen from a reading `d` later, a distance is `d` less. */
  lemma {:induction false} TimeDiffAhead(x: u32, now: u32, d: nat)
    requires d <= TimeDiff(x, now)
    ensures TimeDiff(x, Wrap(now + d)) == TimeDiff(x, now) - d
  {
    hide TimeDiff, Wrap;
    TimeDiffFlip(x, now);
    TimeDiffShift(now, x, d);
    TimeDiffFlip(Wrap(now + d), x);
  }

  /** `ikcp_check` returns the first moment within one interval at which an update would flush or a resend
      timer has run out, or the end of the interval if there is none. */
  lemma {:induction false} CheckIsFirst(k: Kcb, now: u32)
    requires 10 <= k.cfg.interval <= 5000
    ensures Wait(k, now) <= k.cfg.interval && Check(k, now) == Wrap(now + Wait(k, now))
    ensures forall d: nat :: d < Wait(k, now) ==> !Busy(k, now, d)
    ensures Wait(k, now) < k.cfg.interval ==> Busy(k, now, Wait(k, now))
  {
    hide Tick, Check, TimeDiff, Overdue, Flushes, Off, Wrap;
    TickFlushes(k.clock, now, k.cfg.interval);
    CheckNowIff(k, now);
    WrapOff(Check(k, now), now);
    OffSelf(now);
    WrapIs(now, 0);
    forall d: nat | d < Wait(k, now) ensures !Busy(k, now, d) {
      CheckNotLate(k, now, d);
    }
    if Check(k, now) != now && Wait(k, now) < k.cfg.interval {
      CheckEnds(k, now);
    }
  }

  lemma {:induction false} OffSelf(x: u32)
    ensures Off(x, x) == 0
  {
  }

  lemma {:induction false} CheckNotLate(k: Kcb, now: u32, d: nat)
    requires 10 <= k.cfg.interval <= 5000 && d < Wait(k, now)
    ensures !Busy(k, now, d)
  {
    hide Check, TimeDiff, Tick, Overdue, Off, Wrap;
    OffSelf(now);
    CheckNowIff(k, now);
    TickFlushes(k.clock, now, k.cfg.interval);
    TimeDiffShift(now, k.clock.tsFlush, d);
    forall i: nat | i < |k.snd.buf| ensures d < TimeDiff(k.snd.buf[i].resendts, now) {
      NoDeadlineMissed(k, now, i);
    }
    OverdueLater(k.snd.buf, now, d);
  }

  lemma {:induction false} CheckEnds(k: Kcb, now: u32)
    requires 10 <= k.cfg.interval <= 5000 && Check(k, now) != now && Wait(k, now) < k.cfg.interval
    ensures Busy(k, now, Wait(k, now))
  {
    hide Check, TimeDiff, Tick, Overdue, Off, Wrap;
    var w, t := Wait(k, now), Check(k, now);
    WrapOff(t, now);
    CheckNowIff(k, now);
    CheckTight(k, now);
    if w == TimeDiff(k.clock.tsFlush, now) {
      TimeDiffShift(now, k.clock.tsFlush, w);
    } else {
      var i :| 0 <= i < |k.snd.buf| && w == TimeDiff(k.snd.buf[i].resendts, now);
      TimeDiffAhead(k.snd.buf[i].resendts, now, w);
      OverdueAt(k.snd.buf, i, t);
    }
  }

  lemma {:induction false} OverdueAt(buf: seq<Segment>, i: nat, t: u32)
    requires i < |buf| && TimeDiff(buf[i].resendts, t) <= 0
    ensures Overdue(buf, t)
  {
  }

  /** No resend deadline falls before the time returned. */
  lemma {:induction false} NoDeadlineMissed(k: Kcb, now: u32, i: nat)
    requires 10 <= k.cfg.interval <= 5000 && i < |k.snd.buf| && Check(k, now) != now
    ensures Wait(k, now) <= TimeDiff(k.snd.buf[i].resendts, now)
  {
    CheckNowIff(k, now);
    hide Check, TimeDiff, Tick, Off;
    NextResendAtMost(k.snd.buf, i, now);
  }

  /** An update before the time returned does not flush; it only notes the time. */
  lemma {:induction false} UpdateInVain(k: Kcb, now: u32, d: nat)
    requires 10 <= k.cfg.interval <= 5000 && d < Wait(k, now)
    ensures Update(k, Wrap(now + d)) == Flushed(k.(clock := k.clock.(current := Wrap(now + d))), [])
  {
    OffAhead(now, 0);
    WrapIs(now, 0);
    CheckNowIff(k, now);
    TickFlushes(k.clock, now, k.cfg.interval);
    hide Check, Tick, Off, Flush, Overdue;
    TimeDiffShift(now, k.clock.tsFlush, d);
    TickFlushes(k.clock, Wrap(now + d), k.cfg.interval);
    hide TimeDiff, Wrap;
  }

  /** Updates at the given distances from `now`, one after another. */
  function Poll(k: Kcb, now: u32, ds: seq<nat>): Flushed {
    if ds == [] then Flushed(k, [])
    else
      var f := Poll(k, now, ds[..|ds| - 1]);
      var g := Update(f.k, Wrap(now + ds[|ds| - 1]));
      Flushed(g.k, f.out + g.out)
  }

  lemma {:induction false} CurrentIsIgnored(k: Kcb, c: u32, now: u32)
    ensures Update(k.(clock := k.clock.(current := c)), now) == Update(k, now)
    ensures Check(k.(clock := k.clock.(current := c)), now) == Check(k, now)
  {
    hide TimeDiff, Flush, Wrap;
  }

  /** `ikcp_check` replaces polling: however often `ikcp_update` is called before the time returned,
      nothing is sent, and the update at that time (or any other) does what it would have done. */
  lemma {:induction false} CheckReplacesPolling(k: Kcb, now: u32, ds: seq<nat>, later: u32)
    requires 10 <= k.cfg.interval <= 5000 && forall d :: d in ds ==> d < Wait(k, now)
    ensures Poll(k, now, ds).out == []
    ensures Poll(k, now, ds).k == k.(clock := Poll(k, now, ds).k.clock)
    ensures Poll(k, now, ds).k.clock == k.clock.(current := Poll(k, now, ds).k.clock.current)
    ensures Update(Poll(k, now, ds).k, later) == Update(k, later)
  {
    hide Update, Check, Off;
    if ds != [] {
      var before, d := ds[..|ds| - 1], ds[|ds| - 1];
      assert d in ds && forall e :: e in before ==> e in ds;
      CheckReplacesPolling(k, now, before, Wrap(now + d));
      UpdateInVain(k, now, d);
      CurrentIsIgnored(k, Wrap(now + d), later);
    } else {
      assert k == k.(clock := k.clock);
    }
  }
}
