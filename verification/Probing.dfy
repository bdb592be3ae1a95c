/** Zero-window probing: while the peer advertises no room nothing new is sent, but the question for
    its window is repeated and the peer answers it. */
module Probing {
  import opened Serial
  import opened Wire
  import opened Engine
  import opened SenderWindow
  import opened Receiver
  import opened Invariant
  import opened Emission
  import opened Calls

  /** Between two calls no question is pending, and the timer is off or waits between 7 and 120 seconds. */
  predicate Settled(p: Probe) {
    !p.ask && (p.wait == 0 || PROBE_INIT <= p.wait <= PROBE_LIMIT)
  }

  /** The timer of a flush: it starts on the first flush without room at 7 seconds, runs out `wait` later, and
      then waits half as long again, up to 120 seconds. */
  lemma {:induction false} TickProbeMeans(p: Probe, rmtWnd: u32, current: u32)
    requires Settled(p)
    ensures var p' := ProbeTick(p, rmtWnd, current);
            && p'.tell == p.tell
            && (p'.ask <==> rmtWnd == 0 && p.wait != 0 && TimeDiff(current, p.tsProbe) >= 0)
            && (rmtWnd == 0 ==> PROBE_INIT <= p'.wait <= PROBE_LIMIT && p.wait <= p'.wait)
            && (rmtWnd == 0 && (p.wait == 0 || p'.ask) ==> p'.tsProbe == Wrap(current + p'.wait))
            && (rmtWnd == 0 && p.wait != 0 && !p'.ask ==> p' == p)
            && (rmtWnd != 0 ==> p'.wait == 0 && p'.tsProbe == 0)
            && (p.wait == 0 && rmtWnd == 0 ==> p'.wait == PROBE_INIT)
            && (rmtWnd == 0 && p.wait != 0 && p'.ask ==> p'.wait == Min(p.wait + p.wait / 2, PROBE_LIMIT))
  {
    hide TimeDiff;
    if p.wait != 0 {
      WrapIs(p.wait + p.wait / 2, 0);
    }
    hide Wrap;
  }

  lemma {:induction false} FlushProbe(k: Kcb)
    ensures Flush(k).k.probe
         == if k.clock.updated then ProbeTick(k.probe, k.rmtWnd, k.clock.current).(ask := false, tell := false)
            else k.probe
  {
    hide ProbeTick, Admit, SendWindow, PolicyOf, Due, Fated, TouchAll, AfterFlush, Pack, Control, Template, AnyDead,
         Wrap;
  }

  lemma {:induction false} InputProbe(k: Kcb, data: Bytes)
    ensures var p := Input(k, data).0.probe;
            p == k.probe.(tell := k.probe.tell || (|data| >= OVERHEAD &&
                                  exists s :: s in Parse(k.cfg.conv, data).segs && s.cmd == CMD_WASK))
  {
    if |data| >= OVERHEAD {
      var segs := Parse(k.cfg.conv, data).segs;
      StepsProbe(k, segs);
      hide Parse, Steps, ScanAcks, TakeFast, Grow, TimeDiff;
    }
  }

  lemma {:induction false} StepsProbe(k: Kcb, segs: seq<Segment>)
    ensures Steps(k, segs).probe == k.probe.(tell := k.probe.tell || exists s :: s in segs && s.cmd == CMD_WASK)
  {
    hide SndStep, RcvStep, RttStep;
    if segs != [] {
      var last := |segs| - 1;
      StepsProbe(k, segs[..last]);
      assert segs[last] in segs && forall s :: s in segs <==> s in segs[..last] || s == segs[last];
    }
  }

  /** Every call keeps the timer in order. */
  lemma {:induction false} CallKeepsSettled(k: Kcb, c: Call)
    requires Settled(k.probe)
    ensures Settled(After(k, c).probe)
  {
    hide ProbeTick, Input, Flush, Tick, Enqueue, Receive;
    match c
    case InputCall(data) => InputProbe(k, data);
    case UpdateCall(now) =>
      var k1 := k.(clock := Tick(k.clock, now, k.cfg.interval).0);
      FlushProbe(k1);
      TickProbeMeans(k.probe, k.rmtWnd, k1.clock.current);
    case FlushCall =>
      FlushProbe(k);
      TickProbeMeans(k.probe, k.rmtWnd, k.clock.current);
    case _ =>
  }

  lemma {:induction false} CallsKeepSettled(k: Kcb, calls: seq<Call>)
    requires Settled(k.probe)
    ensures Settled(AfterAll(k, calls).probe)
  {
    hide Settled, After;
    if calls != [] {
      CallsKeepSettled(k, calls[..|calls| - 1]);
      CallKeepsSettled(AfterAll(k, calls[..|calls| - 1]), calls[|calls| - 1]);
    }
  }

  /** Without room at the peer a flush admits nothing. */
  lemma {:induction false} ShutAdmitsNothing(k: Kcb)
    requires Inv(k) && k.rmtWnd == 0
    ensures var snd' := Flush(k).k.snd;
            && snd'.nxt == k.snd.nxt && snd'.queue == k.snd.queue && snd'.una == k.snd.una
            && SameCores(k.snd.buf, snd'.buf)
  {
    if k.clock.updated {
      FlushShape(k);
      assert SendWindow(k) == 0;
      AdmitGuard(k.snd, 0);
      assert Admit(k.snd, 0, StampOf(k)) == k.snd by {
        hide Off, TimeDiff, Wrap, Numbered, StampOf;
      }
      TouchSame(PolicyOf(k), k.snd.buf);
      hide Flush, TouchAll, Good, StampOf, PolicyOf;
    }
  }

  // ---------- the question is asked ----------

  /** The call puts the question for the peer's window on the wire. */
  ghost predicate Asks(k: Kcb, c: Call) {
    exists s :: s in Decoded(k.cfg.conv, Emits(k, c)) && s.cmd == CMD_WASK
  }

  lemma {:induction false} FlushAsks(k: Kcb)
    requires Inv(k) && k.clock.updated
    ensures Asks(k, FlushCall) <==> k.probe.ask || ProbeDue(k)
  {
    hide Inv, Flush, ProbeDue;
    FlushOnWire(k);
    var d, ask := Decoded(k.cfg.conv, EncodeGroups(Flush(k).out)), k.probe.ask || ProbeDue(k);
    var n := |k.rcv.acks|;
    hide Decoded;
    if ask {
      assert d[n] in d;
    } else {
      forall s | s in d ensures s.cmd != CMD_WASK {
        var i :| 0 <= i < |d| && d[i] == s;
        if i == n && k.probe.tell {
          assert d[n].cmd == CMD_WINS;
        }
      }
    }
  }

  /** Between flushes, and after them, the question is sent exactly when the peer has no room, the
      timer runs, and it has run out. */
  lemma {:induction false} AsksIff(k: Kcb)
    requires Inv(k) && Settled(k.probe) && k.clock.updated
    ensures Asks(k, FlushCall) <==>
              k.rmtWnd == 0 && k.probe.wait != 0 && TimeDiff(k.clock.current, k.probe.tsProbe) >= 0
  {
    FlushAsks(k);
    hide Inv, Asks, TimeDiff;
  }

  /** The call runs `ikcp_flush` to its end. */
  predicate Flushing(k: Kcb, c: Call) {
    match c
    case UpdateCall(now) => Tick(k.clock, now, k.cfg.interval).1
    case FlushCall => k.clock.updated
    case _ => false
  }

  /** The time a flushing call flushes at. */
  function FlushTime(k: Kcb, c: Call): u32 {
    if c.UpdateCall? then c.now else k.clock.current
  }

  /** The control block a flushing call flushes. */
  function FlushedBy(k: Kcb, c: Call): Kcb {
    if c.UpdateCall? then k.(clock := Tick(k.clock, c.now, k.cfg.interval).0) else k
  }

  /** A call that flushes, be it `ikcp_flush` or `ikcp_update`, does and emits what the flush does. */
  lemma {:induction false} FlushingIs(k: Kcb, c: Call)
    requires Inv(k) && Flushing(k, c)
    ensures var f := FlushedBy(k, c);
            && f.clock.updated && f.clock.current == FlushTime(k, c) && Inv(f) && f == k.(clock := f.clock)
            && After(k, c) == Flush(f).k && Emits(k, c) == Emits(f, FlushCall)
  {
    if c.UpdateCall? {
      ClockInv(k, FlushedBy(k, c).clock);
    }
    hide Inv, Flush, TimeDiff, Wrap;
  }

  lemma {:induction false} NotFlushingEmitsNothing(k: Kcb, c: Call)
    requires !Flushing(k, c)
    ensures Emits(k, c) == [] && !Asks(k, c)
  {
    hide Tick, Parse, EncodeAll;
    assert EncodeGroups([]) == [];
  }

  /** The states the calls pass through, the first and the last included, have a closed peer. */
  ghost predicate Shut(k: Kcb, calls: seq<Call>) {
    forall i :: 0 <= i <= |calls| ==> AfterAll(k, calls[..i]).rmtWnd == 0
  }

  ghost predicate Silent(k: Kcb, calls: seq<Call>) {
    forall i :: 0 <= i < |calls| ==> !Asks(AfterAll(k, calls[..i]), calls[i])
  }

  lemma {:induction false} AllInit(k: Kcb, calls: seq<Call>)
    requires calls != []
    ensures var last := |calls| - 1;
            && AfterAll(k, calls) == After(AfterAll(k, calls[..last]), calls[last])
            && (Shut(k, calls) ==> Shut(k, calls[..last]) && AfterAll(k, calls[..last]).rmtWnd == 0)
            && (Silent(k, calls) ==> Silent(k, calls[..last]) && !Asks(AfterAll(k, calls[..last]), calls[last]))
  {
    var last := |calls| - 1;
    assert AfterAll(k, calls) == After(AfterAll(k, calls[..last]), calls[last]);
    hide AfterAll, After, Asks;
    forall i | 0 <= i <= last ensures calls[..last][..i] == calls[..i] {
    }
  }

  /** A call that does not ask leaves a running timer alone. */
  lemma {:induction false} CallKeepsTimer(k: Kcb, c: Call)
    requires Inv(k) && Settled(k.probe) && k.rmtWnd == 0 && k.probe.wait != 0 && !Asks(k, c)
    ensures var p := After(k, c).probe; p.tsProbe == k.probe.tsProbe && p.wait == k.probe.wait
  {
    hide Inv, ProbeTick, Input, Flush, Tick, Enqueue, Receive, Asks, Parse, TimeDiff;
    if Flushing(k, c) {
      var f := FlushedBy(k, c);
      FlushingIs(k, c);
      AsksAlike(k, c);
      FlushProbe(f);
      TickProbeMeans(k.probe, k.rmtWnd, f.clock.current);
      FlushAsks(f);
    } else {
      match c
      case InputCall(data) => InputProbe(k, data);
      case FlushCall => FlushProbe(k);
      case _ =>
    }
  }

  lemma {:induction false} AsksAlike(k: Kcb, c: Call)
    requires Inv(k) && Flushing(k, c)
    ensures Asks(k, c) <==> Asks(FlushedBy(k, c), FlushCall)
  {
    FlushingIs(k, c);
    hide Inv, Flushing, FlushedBy, Emits, After, Decoded, Flush;
  }

  /** While the peer stays closed and no question is sent, a running timer stays as it is. */
  lemma {:induction false} TimerStays(k: Kcb, calls: seq<Call>)
    requires Inv(k) && Settled(k.probe) && k.probe.wait != 0 && Shut(k, calls) && Silent(k, calls)
    ensures var p := AfterAll(k, calls).probe; p.tsProbe == k.probe.tsProbe && p.wait == k.probe.wait
  {
    hide Inv, Settled, Shut, Silent, After, Asks;
    if calls != [] {
      var before := calls[..|calls| - 1];
      AllInit(k, calls);
      TimerStays(k, before);
      CallsKeepInv(k, before);
      CallsKeepSettled(k, before);
      CallKeepsTimer(AfterAll(k, before), calls[|calls| - 1]);
    }
  }

  /** Probing never goes silent. Say a call flushed at time `t`, and started the timer or sent the question;
      the timer is then set to `wait`, between 7 and 120 seconds and not shorter than before. Whatever is
      called after that while the peer stays closed: if no question is sent meanwhile, the next call sends it
      exactly if it flushes, by `ikcp_flush` or in `ikcp_update`, at least `wait` after `t`. */
  lemma {:induction false} NeverSilent(k: Kcb, first: Call, calls: seq<Call>, last: Call)
    requires Inv(k) && Settled(k.probe) && k.rmtWnd == 0 && Flushing(k, first)
    requires k.probe.wait == 0 || Asks(k, first)
    requires Shut(After(k, first), calls) && Silent(After(k, first), calls)
    ensures var k1, k2 := After(k, first), AfterAll(After(k, first), calls);
            var since := TimeDiff(FlushTime(k2, last), FlushTime(k, first));
            && PROBE_INIT <= k1.probe.wait <= PROBE_LIMIT && k.probe.wait <= k1.probe.wait
            && (-TWO31 <= since - k1.probe.wait ==>
                  (Asks(k2, last) <==> Flushing(k2, last) && since >= k1.probe.wait))
  {
    hide Inv, Shut, Silent, AfterAll, After, Asks, Flush, Flushing, FlushTime, FlushedBy;
    var k1, k2 := After(k, first), AfterAll(After(k, first), calls);
    TimerSet(k, first);
    CallKeepsInv(k, first);
    CallKeepsSettled(k, first);
    TimerStays(k1, calls);
    CallsKeepInv(k1, calls);
    CallsKeepSettled(k1, calls);
    ShutAtEnd(k1, calls);
    hide Settled, TimeDiff;
    if Flushing(k2, last) {
      FlushingIs(k2, last);
      AsksAlike(k2, last);
      AsksIff(FlushedBy(k2, last));
      var since := TimeDiff(FlushTime(k2, last), FlushTime(k, first));
      if -TWO31 <= since - k1.probe.wait {
        TimeDiffSince(FlushTime(k2, last), FlushTime(k, first), k1.probe.wait);
      }
    } else {
      NotFlushingEmitsNothing(k2, last);
    }
  }

  lemma {:induction false} TimerSet(k: Kcb, first: Call)
    requires Inv(k) && Settled(k.probe) && k.rmtWnd == 0 && Flushing(k, first)
    requires k.probe.wait == 0 || Asks(k, first)
    ensures var p := After(k, first).probe;
            && PROBE_INIT <= p.wait <= PROBE_LIMIT && k.probe.wait <= p.wait
            && p.tsProbe == Wrap(FlushTime(k, first) + p.wait)
  {
    hide Inv, Asks, Flush, Flushing, After, TimeDiff;
    var f := FlushedBy(k, first);
    FlushingIs(k, first);
    AsksAlike(k, first);
    hide FlushedBy, FlushTime;
    FlushAsks(f);
    FlushProbe(f);
    TickProbeMeans(k.probe, k.rmtWnd, f.clock.current);
    hide ProbeTick, Wrap;
  }

  lemma {:induction false} ShutAtEnd(k: Kcb, calls: seq<Call>)
    requires Shut(k, calls)
    ensures AfterAll(k, calls).rmtWnd == 0
  {
    hide AfterAll;
    assert calls[..|calls|] == calls;
  }

  /** The distance from a later reference. */
  lemma {:induction false} TimeDiffSince(x: u32, y: u32, d: nat)
    requires -TWO31 <= TimeDiff(x, y) - d
    ensures TimeDiff(x, Wrap(y + d)) == TimeDiff(x, y) - d
  {
    var t: int, b: int := TimeDiff(x, y), y;
    TimeDiffBack(x, y);
    TimeDiffExactIff(b + t, b + d);
  }

  // ---------- the question is answered ----------

  lemma {:induction false} TellStays(k: Kcb, calls: seq<Call>)
    requires k.probe.tell && forall i :: 0 <= i < |calls| ==> !Flushing(AfterAll(k, calls[..i]), calls[i])
    ensures AfterAll(k, calls).probe.tell
  {
    hide After, Flushing;
    if calls != [] {
      var last := |calls| - 1;
      var before := calls[..last];
      forall i | 0 <= i < last ensures !Flushing(AfterAll(k, before[..i]), before[i]) {
        assert before[..i] == calls[..i];
      }
      TellStays(k, before);
      CallKeepsTell(AfterAll(k, before), calls[last]);
    }
  }

  lemma {:induction false} CallKeepsTell(k: Kcb, c: Call)
    requires k.probe.tell && !Flushing(k, c)
    ensures After(k, c).probe.tell
  {
    hide Input, Tick, Enqueue, Receive, Parse;
    match c
    case InputCall(data) => InputProbe(k, data);
    case _ =>
  }

  /** The datagrams of the call announce the endpoint's free window. */
  ghost predicate Tells(k: Kcb, c: Call) {
    exists a :: && a in Decoded(k.cfg.conv, Emits(k, c)) && a.cmd == CMD_WINS
                && a.wnd == Max(0, k.cfg.rcvWnd - |k.rcv.queue|) % 0x1_0000 && a.una == k.rcv.nxt
  }

  /** An endpoint that was asked announces its free window with the next call that flushes, be it
      `ikcp_flush` or `ikcp_update`. */
  lemma {:induction false} AskIsAnswered(k: Kcb, data: Bytes, s: Segment, calls: seq<Call>, last: Call)
    requires Inv(k) && |data| >= OVERHEAD && s in Parse(k.cfg.conv, data).segs && s.cmd == CMD_WASK
    requires var k1 := Input(k, data).0;
             forall i :: 0 <= i < |calls| ==> !Flushing(AfterAll(k1, calls[..i]), calls[i])
    requires Flushing(AfterAll(Input(k, data).0, calls), last)
    ensures Tells(AfterAll(Input(k, data).0, calls), last)
  {
    hide Inv, Input, Flush, Parse, Flushing, After, FlushedBy, AfterAll, Emits, Decoded, Tells;
    var k1, k2 := Input(k, data).0, AfterAll(Input(k, data).0, calls);
    InputInv(k, data);
    InputProbe(k, data);
    CallsKeepInv(k1, calls);
    TellStays(k1, calls);
    TellsAlike(k2, last);
    FlushTells(FlushedBy(k2, last));
  }

  lemma {:induction false} TellsAlike(k: Kcb, c: Call)
    requires Inv(k) && Flushing(k, c)
    ensures var f := FlushedBy(k, c);
            && Inv(f) && f.clock.updated && f.probe == k.probe && (Tells(f, FlushCall) <==> Tells(k, c))
  {
    hide Inv, Flushing, FlushedBy, Emits, After, Decoded, Flush;
    FlushingIs(k, c);
  }

  lemma {:induction false} FlushTells(k: Kcb)
    requires Inv(k) && k.clock.updated && k.probe.tell
    ensures Tells(k, FlushCall)
  {
    hide Inv, Flush, ProbeDue;
    FlushOnWire(k);
    hide Decoded;
    var d, n := Decoded(k.cfg.conv, EncodeGroups(Flush(k).out)), |k.rcv.acks|;
    var m := n + (if k.probe.ask || ProbeDue(k) then 1 else 0);
    assert d[m] in d && d[m].cmd == CMD_WINS;
  }
}
