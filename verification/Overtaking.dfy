/** A run of one endpoint that leaves its congestion window and the fractional form of it out of step: with a
    fast-resend limit of 65600, a segment that is overtaken as often as that. */
module Overtaking {
  import opened Serial
  import opened Wire
  import opened Engine
  import opened Calls
  import opened Congestion

  const LIMIT: nat := 65600

  /** The largest MTU and that limit; congestion control is on. */
  function Settings(): (cfg: Config)
    ensures GoodConfig(cfg) && cfg.Mss() == 65511
  {
    Config(1, 65535, 32, 128, 100, 0, 100, LIMIT, 5, false, false, 20)
  }

  /** An acknowledgement of `sn` with a time stamp ahead of the clock. */
  function AckOf(sn: u32): Segment {
    Segment(1, CMD_ACK, 0, 128, 1, sn, 1, [], 0, 0, 0, 0)
  }

  /** A segment sent once, at time 0, and overtaken `n` times. */
  function SentOnce(sn: u32, n: u32): Segment {
    Segment(1, CMD_PUSH, 0, 128, 0, sn, 0, [], 225, 200, n, 1)
  }

  /** The endpoint at time 0 with the given sending half and congestion window. */
  function At(snd: Snd, cwnd: u32): Kcb {
    Create(Settings()).(snd := snd, cong := Cong(cwnd, 2, Wrap(cwnd * 65511)), clock := Clock(0, 100, true))
  }

  /** The first update opens the window. */
  lemma {:induction false} Opened()
    ensures After(Create(Settings()), UpdateCall(0)) == At(Snd(0, 0, [], []), 1)
  {
    var k := Create(Settings());
    var k1 := k.(clock := Clock(0, 100, true));
    assert Tick(k.clock, 0, 100) == (Clock(0, 100, true), true);
    FlushNew(k1, Snd(0, 0, [], []), []);
  }

  lemma {:induction false} NoneFated(p: Policy, buf: seq<Segment>, f: Fate)
    requires forall i :: 0 <= i < |buf| ==> FateOf(p, buf[i]) != f
    ensures Fated(p, buf, f) == 0
  {
    hide FateOf;
    if buf != [] {
      NoneFated(p, buf[..|buf| - 1], f);
    }
  }

  lemma {:induction false} NoneDead(p: Policy, buf: seq<Segment>, deadLink: u32)
    requires forall i :: 0 <= i < |buf| ==> Touch(p, buf[i]).xmit < deadLink
    ensures !AnyDead(Due(p, buf), deadLink)
  {
    hide FateOf, Touch;
    if buf != [] {
      NoneDead(p, buf[..|buf| - 1], deadLink);
    }
  }

  /** A flush that sends only new segments, while the peer has room and there is nothing to tell it. */
  lemma {:induction false} FlushNew(k: Kcb, snd: Snd, buf: seq<Segment>)
    requires k.clock.updated && k.rmtWnd != 0 && k.rcv.acks == [] && k.probe == Probe(false, false, 0, 0)
    requires k.cfg.deadLink > 1 && Admit(k.snd, SendWindow(k), StampOf(k)) == snd && |buf| == |snd.buf|
    requires forall i :: 0 <= i < |buf| ==> FateOf(PolicyOf(k), snd.buf[i]) == First
    requires forall i :: 0 <= i < |buf| ==> Touch(PolicyOf(k), snd.buf[i]) == buf[i] && buf[i].xmit == 1
    ensures Flush(k).k
         == k.(snd := snd.(buf := buf),
               cong := if k.cong.cwnd < 1 then Cong(1, k.cong.ssthresh, k.cfg.Mss()) else k.cong)
  {
    hide Admit, SendWindow, PolicyOf, StampOf, FateOf, Touch, Template, Control, Pack, AnyDead, Fated, Due, TouchAll,
         AfterFlush, Wrap, Flush;
    var p := PolicyOf(k);
    StampIs(k);
    NoneFated(p, snd.buf, Timeout);
    NoneFated(p, snd.buf, Fast);
    NoneDead(p, snd.buf, k.cfg.deadLink);
    TouchedAre(p, snd.buf, buf);
    assert k.rcv.(acks := []) == k.rcv;
    WrapIs(k.xmit, 0);
    FlushParts(k);
    QuietCong(k.cong, Wrap(snd.nxt - snd.una), SendWindow(k), p.resent, k.cfg.Mss());
  }

  lemma {:induction false} StampIs(k: Kcb)
    ensures PolicyOf(k).st == StampOf(k)
  {
  }

  lemma {:induction false} TouchedAre(p: Policy, buf: seq<Segment>, touched: seq<Segment>)
    requires |touched| == |buf| && forall i :: 0 <= i < |buf| ==> Touch(p, buf[i]) == touched[i]
    ensures TouchAll(p, buf) == touched && forall i :: 0 <= i < |buf| ==> Touch(p, buf[i]) in touched
  {
    hide Touch;
  }

  lemma {:induction false} QuietCong(c: Cong, inflight: u32, cwnd: u32, resent: u32, mss: u32)
    ensures AfterFlush(c, false, false, inflight, cwnd, resent, mss)
         == if c.cwnd < 1 then Cong(1, c.ssthresh, mss) else c
  {
  }

  /** A flush without a probe. */
  lemma {:induction false} FlushParts(k: Kcb)
    requires k.clock.updated && k.rmtWnd != 0 && k.probe == Probe(false, false, 0, 0)
    ensures var p, snd := PolicyOf(k), Admit(k.snd, SendWindow(k), PolicyOf(k).st);
            var lost, fast := Fated(p, snd.buf, Timeout), Fated(p, snd.buf, Fast);
            var cong := AfterFlush(k.cong, fast > 0, lost > 0, Wrap(snd.nxt - snd.una), SendWindow(k), p.resent,
                                   k.cfg.Mss());
            Flush(k).k == k.(snd := snd.(buf := TouchAll(p, snd.buf)), rcv := k.rcv.(acks := []), cong := cong,
                             xmit := Wrap(k.xmit + lost),
                             state := if AnyDead(Due(p, snd.buf), k.cfg.deadLink) then DEAD else k.state)
  {
    hide Admit, SendWindow, PolicyOf, StampOf, Template, Control, Pack, AnyDead, Fated, Due, TouchAll, AfterFlush, Wrap;
  }

  /** A datagram of one acknowledgement is taken as that acknowledgement. */
  lemma {:induction false} InputAck(k: Kcb, sn: u32)
    requires k.cfg.conv == 1
    ensures After(k, InputCall(Encode(AckOf(sn)))) == Settle(Step(k, AckOf(sn)), k.snd.una, AckScan(true, sn))
  {
    hide Parse, Encode, Step, Settle, Steps, ScanAcks, OnWire;
    var s := AckOf(sn);
    ParseOne(1, s, []);
    assert Encode(s) + [] == Encode(s) && [s] + [] == [s];
    AckAlone(k, sn);
  }

  lemma {:induction false} AckAlone(k: Kcb, sn: u32)
    ensures Parse(1, []) == Parsed([], 0) && OnWire(AckOf(sn)) == AckOf(sn)
    ensures Steps(k, [AckOf(sn)]) == Step(k, AckOf(sn)) && ScanAcks([AckOf(sn)]) == AckScan(true, sn)
    ensures k.cfg.conv == 1 ==> |Encode(AckOf(sn))| == 24
  {
    hide Step, Encode, DecodeHead;
    var s := AckOf(sn);
    assert [s][..0] == [] && Steps(k, []) == k && ScanAcks([]) == AckScan(false, 0);
  }

  lemma {:induction false} Queued(snd: Snd, cwnd: u32)
    ensures After(At(snd, cwnd), SendCall([])) == At(snd.(queue := snd.queue + [NewSegment(0, [])]), cwnd)
  {
    assert Cut([], 65511, 1, false) == [NewSegment(0, [])] + Cut([], 65511, 0, false);
  }

  lemma {:induction false} AdmitOne(una: u32, nxt: u32, queue: seq<Segment>, buf: seq<Segment>, cwnd: u32, st: Stamp)
    requires una <= nxt < una + cwnd < TWO31 && queue != []
    ensures Admit(Snd(una, nxt, queue, buf), cwnd, st)
         == Admit(Snd(una, nxt + 1, queue[1..], buf + [Numbered(queue[0], nxt, st)]), cwnd, st)
  {
    WrapIs(nxt + 1, 0);
    WrapIs(una + cwnd, 0);
    WrapIs(nxt - (una + cwnd), 1);
    assert TimeDiff(nxt, Wrap(una + cwnd)) < 0;
    hide Numbered, TimeDiff, Wrap;
  }

  /** What matters about these states. */
  lemma {:induction false} AtIs(snd: Snd, cwnd: u32)
    requires cwnd <= 2
    ensures var k := At(snd, cwnd);
            && k.clock.updated && k.rmtWnd == 128 && k.rcv.acks == [] && k.probe == Probe(false, false, 0, 0)
            && k.cfg.deadLink == 20 && k.snd == snd && k.cong.cwnd == cwnd && SendWindow(k) == cwnd
  {
  }

  /** A new segment is sent for the first time. */
  lemma {:induction false} NewSent(snd: Snd, cwnd: u32, sn: u32)
    ensures var k := At(snd, cwnd);
            var s := Numbered(NewSegment(0, []), sn, StampOf(k));
            FateOf(PolicyOf(k), s) == First && Touch(PolicyOf(k), s) == SentOnce(sn, 0) && SentOnce(sn, 0).xmit == 1
  {
  }

  lemma {:induction false} AdmitEnds(una: u32, nxt: u32, buf: seq<Segment>, cwnd: u32, st: Stamp)
    ensures Admit(Snd(una, nxt, [], buf), cwnd, st) == Snd(una, nxt, [], buf)
  {
  }

  /** The first segment is sent. */
  lemma {:induction false} SentFirst()
    ensures After(At(Snd(0, 0, [NewSegment(0, [])], []), 1), FlushCall) == At(Snd(0, 1, [], [SentOnce(0, 0)]), 1)
  {
    hide Numbered, StampOf, PolicyOf, FateOf, Touch, Admit, SendWindow, Flush, SentOnce, Settings;
    var snd := Snd(0, 0, [NewSegment(0, [])], []);
    var k := At(snd, 1);
    AtIs(snd, 1);
    var n0 := Numbered(NewSegment(0, []), 0, StampOf(k));
    NewSent(snd, 1, 0);
    AdmitOne(0, 0, snd.queue, [], 1, StampOf(k));
    assert snd.queue[1..] == [] && [] + [n0] == [n0];
    AdmitEnds(0, 1, [n0], 1, StampOf(k));
    FlushNew(k, Snd(0, 1, [], [n0]), [SentOnce(0, 0)]);
  }

  /** Its acknowledgement opens the window further. */
  lemma {:induction false} FirstAcked()
    ensures After(At(Snd(0, 1, [], [SentOnce(0, 0)]), 1), InputCall(Encode(AckOf(0)))) == At(Snd(1, 1, [], []), 2)
  {
    var k := At(Snd(0, 1, [], [SentOnce(0, 0)]), 1);
    InputAck(k, 0);
    assert DropAcked(k.snd.buf, 1) == [] by { assert k.snd.buf[1..] == []; }
    assert SndStep(k.snd, AckOf(0)) == Snd(1, 1, [], []);
  }

  /** Two more segments are sent. */
  lemma {:induction false} SentTwo()
    ensures After(At(Snd(1, 1, [NewSegment(0, []), NewSegment(0, [])], []), 2), FlushCall)
         == At(Snd(1, 3, [], [SentOnce(1, 0), SentOnce(2, 0)]), 2)
  {
    hide Numbered, StampOf, PolicyOf, FateOf, Touch, Admit, SendWindow, Flush, SentOnce, Settings, NewSegment;
    var e := NewSegment(0, []);
    var snd := Snd(1, 1, [e, e], []);
    var k := At(snd, 2);
    AtIs(snd, 2);
    var n1, n2 := Numbered(e, 1, StampOf(k)), Numbered(e, 2, StampOf(k));
    NewSent(snd, 2, 1);
    NewSent(snd, 2, 2);
    AdmitOne(1, 1, [e, e], [], 2, StampOf(k));
    assert [e, e][1..] == [e] && [] + [n1] == [n1];
    AdmitOne(1, 2, [e], [n1], 2, StampOf(k));
    assert [e][1..] == [] && [n1] + [n2] == [n1, n2];
    AdmitEnds(1, 3, [n1, n2], 2, StampOf(k));
    FlushNew(k, Snd(1, 3, [], [n1, n2]), [SentOnce(1, 0), SentOnce(2, 0)]);
  }

  /** The first acknowledgement of number 2 takes it out of `snd_buf` and counts for number 1. */
  lemma {:induction false} SecondAcked()
    ensures After(At(Snd(1, 3, [], [SentOnce(1, 0), SentOnce(2, 0)]), 2), InputCall(Encode(AckOf(2))))
         == At(Snd(1, 3, [], [SentOnce(1, 1)]), 2)
  {
    var k := At(Snd(1, 3, [], [SentOnce(1, 0), SentOnce(2, 0)]), 2);
    InputAck(k, 2);
    assert k.snd.buf[1..] == [SentOnce(2, 0)] && [SentOnce(2, 0)][1..] == [];
    assert RemoveSn([SentOnce(2, 0)], 2) == [];
    assert RemoveSn(k.snd.buf, 2) == [SentOnce(1, 0)] + [];
    assert SndStep(k.snd, AckOf(2)) == Snd(1, 3, [], [SentOnce(1, 0)]);
    Overtaken(0);
  }

  lemma {:induction false} Overtaken(n: u32)
    requires n < LIMIT
    ensures TakeFast(Snd(1, 3, [], [SentOnce(1, n)]), 2) == Snd(1, 3, [], [SentOnce(1, n + 1)])
  {
    var s := SentOnce(1, n);
    WrapIs(n + 1, 0);
    assert [s][1..] == [] && BumpFast([], 2) == [];
    assert BumpFast([s], 2) == [SentOnce(1, n + 1)] + [];
  }

  /** Every further one only counts. */
  lemma {:induction false} AckedAgain(n: u32)
    requires n < LIMIT
    ensures After(At(Snd(1, 3, [], [SentOnce(1, n)]), 2), InputCall(Encode(AckOf(2))))
            == At(Snd(1, 3, [], [SentOnce(1, n + 1)]), 2)
  {
    var k := At(Snd(1, 3, [], [SentOnce(1, n)]), 2);
    InputAck(k, 2);
    assert k.snd.buf[1..] == [];
    assert RemoveSn([], 2) == [];
    assert RemoveSn(k.snd.buf, 2) == [SentOnce(1, n)] + [];
    assert SndStep(k.snd, AckOf(2)) == k.snd;
    Overtaken(n);
  }

  /** The calls up to there. */
  function Prelude(): seq<Call> {
    [UpdateCall(0), SendCall([]), FlushCall, InputCall(Encode(AckOf(0))), SendCall([]), SendCall([]), FlushCall]
  }

  /** The run in which number 2 is then acknowledged `n` times. */
  function History(n: nat): seq<Call> {
    if n == 0 then Prelude() else History(n - 1) + [InputCall(Encode(AckOf(2)))]
  }

  lemma {:induction false} OneMore(k: Kcb, calls: seq<Call>, c: Call)
    ensures AfterAll(k, calls + [c]) == After(AfterAll(k, calls), c)
  {
    hide After;
    assert (calls + [c])[..|calls|] == calls;
  }

  lemma {:induction false} BeganFirst()
    ensures AfterAll(Create(Settings()), [UpdateCall(0), SendCall([]), FlushCall])
            == At(Snd(0, 1, [], [SentOnce(0, 0)]), 1)
  {
    hide Create, SentOnce, At, NewSegment, After, Settings, AfterAll;
    var k, e := Create(Settings()), NewSegment(0, []);
    NoCalls(k);
    OneMore(k, [], UpdateCall(0));
    Opened();
    assert [] + [UpdateCall(0)] == [UpdateCall(0)] && [] + [e] == [e];
    OneMore(k, [UpdateCall(0)], SendCall([]));
    Queued(Snd(0, 0, [], []), 1);
    assert [UpdateCall(0)] + [SendCall([])] == [UpdateCall(0), SendCall([])];
    OneMore(k, [UpdateCall(0), SendCall([])], FlushCall);
    SentFirst();
    assert [UpdateCall(0), SendCall([])] + [FlushCall] == [UpdateCall(0), SendCall([]), FlushCall];
  }

  lemma {:induction false} NoCalls(k: Kcb)
    ensures AfterAll(k, []) == k
  {
  }

  lemma {:induction false} Began()
    ensures AfterAll(Create(Settings()), Prelude()) == At(Snd(1, 3, [], [SentOnce(1, 0), SentOnce(2, 0)]), 2)
  {
    hide Create, Encode, SentOnce, At, NewSegment, After, Settings, AfterAll;
    var k, e, ack := Create(Settings()), NewSegment(0, []), InputCall(Encode(AckOf(0)));
    var c3, send := [UpdateCall(0), SendCall([]), FlushCall], SendCall([]);
    BeganFirst();
    OneMore(k, c3, ack);
    FirstAcked();
    OneMore(k, c3 + [ack], send);
    Queued(Snd(1, 1, [], []), 2);
    assert [] + [e] == [e];
    OneMore(k, c3 + [ack] + [send], send);
    Queued(Snd(1, 1, [e], []), 2);
    assert [e] + [e] == [e, e];
    OneMore(k, c3 + [ack] + [send] + [send], FlushCall);
    SentTwo();
    assert c3 + [ack] + [send] + [send] + [FlushCall] == Prelude();
  }

  lemma {:induction false} OvertakenBy(n: nat)
    requires 0 < n <= LIMIT
    ensures AfterAll(Create(Settings()), History(n)) == At(Snd(1, 3, [], [SentOnce(1, n)]), 2)
  {
    hide Encode, Settings, At, SentOnce, After, AfterAll, Prelude;
    OneMore(Create(Settings()), History(n - 1), InputCall(Encode(AckOf(2))));
    assert History(n) == History(n - 1) + [InputCall(Encode(AckOf(2)))] && History(0) == Prelude();
    if n == 1 {
      Began();
      SecondAcked();
    } else {
      OvertakenBy(n - 1);
      AckedAgain(n - 1);
    }
  }

  /** In that state the flush leaves the window and its fractional form apart; before it they were in step. */
  lemma {:induction false} LargeFastResendBreaks()
    ensures var k := AfterAll(Create(Settings()), History(LIMIT));
            && InStep(k.cong, k.cfg.Mss())
            && Flush(k).k.cong.cwnd == 65602 && !InStep(Flush(k).k.cong, k.cfg.Mss())
  {
    hide AfterAll, History, Flush, SentOnce;
    OvertakenBy(LIMIT);
    FlushOvertaken();
    LargeFastResend(Cong(2, 2, 131022));
  }

  lemma {:induction false} FlushOvertaken()
    ensures var k := At(Snd(1, 3, [], [SentOnce(1, LIMIT)]), 2);
            && k.cong == Cong(2, 2, 131022) && InStep(k.cong, 65511)
            && Flush(k).k.cong == AfterFlush(k.cong, true, false, 2, 2, LIMIT, 65511)
  {
    var s := SentOnce(1, LIMIT);
    var k := At(Snd(1, 3, [], [s]), 2);
    var p := PolicyOf(k);
    assert p.resent == LIMIT && FateOf(p, s) == Fast && SendWindow(k) == 2;
    assert Admit(k.snd, 2, StampOf(k)) == k.snd && Wrap(k.snd.nxt - k.snd.una) == 2;
    hide FateOf, PolicyOf, Flush, AfterFlush, StampOf, SentOnce, SendWindow, Admit;
    assert [s][..0] == [] && Fated(p, [], Timeout) == 0 && Fated(p, [], Fast) == 0;
    FlushCong(k);
  }

  lemma {:induction false} LargeFastResend(c: Cong)
    ensures var c' := AfterFlush(c, true, false, 2, 2, LIMIT, 65511);
            c'.cwnd == 65602 && !InStep(c', 65511)
  {
  }
}
