/** The invariant of one endpoint: it holds after setup and survives every call of the API,
    including `ikcp_input` on any bytes at all. */
module Invariant {
  import opened Serial
  import opened Wire
  import opened Engine
  import opened SenderWindow
  import opened Receiver

  /** Segments cut by `ikcp_send`: payload within `mss`, fragment number within its byte. */
  ghost predicate Small(segs: seq<Segment>, mss: int) {
    forall i :: 0 <= i < |segs| ==> |segs[i].data| <= mss && segs[i].frg < WND_RCV
  }

  /** Segments of `snd_buf` carry the session's number and the data command. */
  ghost predicate Stamped(segs: seq<Segment>, conv: u32) {
    forall i :: 0 <= i < |segs| ==> segs[i].conv == conv && segs[i].cmd == CMD_PUSH
  }

  ghost predicate SndInv(snd: Snd, cfg: Config) {
    Window(snd) && Small(snd.queue, cfg.Mss()) && Small(snd.buf, cfg.Mss()) && Stamped(snd.buf, cfg.conv)
  }

  ghost predicate RttInv(r: Rtt, cfg: Config) {
    cfg.minRto <= r.rto <= RTO_MAX && r.srtt >= 0
  }

  ghost predicate Inv(k: Kcb) {
    && GoodConfig(k.cfg)
    && SndInv(k.snd, k.cfg)
    && Good(k.rcv, k.cfg.rcvWnd)
    && k.rmtWnd <= SPAN
    && RttInv(k.rtt, k.cfg)
  }

  /** `snd_nxt` stays and `snd_una` has not moved back. */
  ghost predicate Advanced(snd: Snd, snd': Snd) {
    snd'.nxt == snd.nxt && Off(snd'.nxt, snd'.una) <= Off(snd.nxt, snd.una)
  }

  lemma {:induction false} CreateInv(cfg: Config)
    requires GoodConfig(cfg)
    ensures Inv(Create(cfg))
  {
  }

  /** Windows, timing and policy may be set while nothing has been received. */
  lemma {:induction false} ConfigInv(k: Kcb, cfg: Config)
    requires Inv(k) && GoodConfig(cfg) && cfg.conv == k.cfg.conv && cfg.mtu == k.cfg.mtu
    requires cfg.minRto == k.cfg.minRto || cfg.minRto <= k.rtt.rto
    requires cfg.rcvWnd == k.cfg.rcvWnd || (k.rcv.queue == [] && k.rcv.buf == [])
    ensures Inv(k.(cfg := cfg))
  {
    hide Off, Window;
  }

  /** The MTU may be set while nothing has been sent. */
  lemma {:induction false} MtuInv(k: Kcb, mtu: Mtu)
    requires Inv(k) && k.snd.queue == [] && k.snd.buf == []
    ensures Inv(k.(cfg := k.cfg.(mtu := mtu)))
  {
    hide Off, Good;
  }

  lemma {:induction false} WindowsInv(k: Kcb, sndwnd: i32, rcvwnd: i32)
    requires Inv(k) && k.rcv.queue == [] && k.rcv.buf == []
    ensures Inv(k.(cfg := WithWindows(k.cfg, sndwnd, rcvwnd)))
  {
    ConfigInv(k, WithWindows(k.cfg, sndwnd, rcvwnd));
  }

  lemma {:induction false} NoDelayInv(k: Kcb, nodelay: i32, interval: i32, resend: i32, nc: i32)
    requires Inv(k) && RTO_MIN <= k.rtt.rto
    ensures Inv(k.(cfg := WithNoDelay(k.cfg, nodelay, interval, resend, nc)))
  {
    ConfigInv(k, WithNoDelay(k.cfg, nodelay, interval, resend, nc));
  }

  // ---------- ikcp_send ----------

  lemma {:induction false} CutSmall(data: Bytes, mss: u32, count: nat, stream: bool)
    requires count < WND_RCV
    ensures |Cut(data, mss, count, stream)| == count && Small(Cut(data, mss, count, stream), mss)
  {
    if count > 0 {
      CutSmall(data[Min(|data|, mss)..], mss, count - 1, stream);
    }
  }

  lemma {:induction false} FillSmall(queue: seq<Segment>, mss: u32, data: Bytes, stream: bool)
    requires Small(queue, mss)
    ensures |Fill(queue, mss, data, stream)| == |queue| && Small(Fill(queue, mss, data, stream), mss)
  {
  }

  lemma {:induction false} EnqueueSmall(queue: seq<Segment>, mss: u32, data: Bytes, stream: bool)
    requires mss > 0 && Small(queue, mss)
    ensures Small(Enqueue(queue, mss, data, stream).0, mss)
  {
    FillSmall(queue, mss, data, stream);
    var rest := data[TopUp(queue, mss, |data|, stream)..];
    var count := FragCount(|rest|, mss);
    if count < WND_RCV {
      CutSmall(rest, mss, count, stream);
    }
    hide Fill, Cut, TopUp, FragCount;
  }

  lemma {:induction false} SendInv(k: Kcb, data: Bytes)
    requires Inv(k)
    ensures Inv(Engine.Send(k, data).0)
  {
    EnqueueSmall(k.snd.queue, k.cfg.Mss(), data, k.cfg.stream);
    hide Enqueue, Good, Off, Small, Stamped;
  }

  // ---------- ikcp_recv ----------

  lemma {:induction false} ReadGood(rcv: Rcv, wnd: u32, peek: bool)
    requires Good(rcv, wnd)
    ensures Good(Read(rcv, wnd, peek), wnd)
  {
    hide Drain, Ascending, MergeCount, DrainCount;
    DrainHas(if peek then rcv else rcv.(queue := rcv.queue[MergeCount(rcv.queue)..]), wnd, 0);
  }

  lemma {:induction false} RecvInv(k: Kcb, len: int)
    requires Inv(k)
    ensures Inv(Recv(k, len).k)
  {
    hide Read, SndInv, RttInv, GoodConfig, Good, RecvCode, Payload, MergeCount;
    ReadGood(k.rcv, k.cfg.rcvWnd, len < 0);
  }

  /** Peeking is free of effects. */
  lemma {:induction false} PeekIsPure(k: Kcb, len: int)
    requires Inv(k) && len < 0
    ensures Recv(k, len).k == k
  {
    hide Drain, SndInv, RecvCode, MergeCount, Payload, InWindow;
    DrainIdle(k.rcv, k.cfg.rcvWnd);
  }

  // ---------- ikcp_input ----------

  lemma {:induction false} SubSmall(segs: seq<Segment>, n: nat, mss: int, conv: u32)
    requires n <= |segs| && Small(segs, mss) && Stamped(segs, conv)
    ensures Small(segs[n..], mss) && Stamped(segs[n..], conv)
    ensures n < |segs| ==> Small(segs[..n] + segs[n + 1..], mss) && Stamped(segs[..n] + segs[n + 1..], conv)
  {
  }

  lemma {:induction false} SndStepInv(snd: Snd, cfg: Config, s: Segment)
    requires SndInv(snd, cfg)
    ensures SndInv(SndStep(snd, s), cfg) && Advanced(snd, SndStep(snd, s))
  {
    var snd1 := TakeUna(snd, s.una);
    assert snd1.nxt == snd.nxt && snd1.queue == snd.queue;
    var n := TakeUnaMeans(snd, s.una);
    SubSmall(snd.buf, n, cfg.Mss(), cfg.conv);
    assert TakeAck(snd1, s.sn).nxt == snd1.nxt && TakeAck(snd1, s.sn).queue == snd1.queue;
    hide TakeUna, TakeAck, Window, Small, Off;
    if s.cmd == CMD_ACK {
      var m := TakeAckMeans(snd1, s.sn);
      SubSmall(snd1.buf, m, cfg.Mss(), cfg.conv);
    }
  }

  lemma {:induction false} RcvStepGood(rcv: Rcv, wnd: u32, s: Segment)
    requires Good(rcv, wnd)
    ensures Good(RcvStep(rcv, wnd, s), wnd)
  {
    WrapIs(rcv.nxt, 0);
    hide TakePush, Good;
    var have := iset x: int | Has(rcv, rcv.nxt, x);
    var r := PushRefines(rcv, wnd, s, rcv.nxt, have, rcv.nxt - |rcv.queue|);
  }

  lemma {:induction false} UpdateRttInv(r: Rtt, cfg: Config, sample: i32)
    requires GoodConfig(cfg) && sample >= 0
    ensures RttInv(UpdateRtt(r, cfg, sample), cfg)
  {
    hide TruncDiv, Wrap;
    WrapIs(cfg.minRto, 0);
  }

  lemma {:induction false} StepInv(k: Kcb, s: Segment)
    requires Inv(k) && s.wnd <= SPAN
    ensures Inv(Step(k, s)) && Advanced(k.snd, Step(k, s).snd)
  {
    hide SndStep, RcvStep, SndInv, Good, UpdateRtt, RttInv;
    SndStepInv(k.snd, k.cfg, s);
    RcvStepGood(k.rcv, k.cfg.rcvWnd, s);
    if TimeDiff(k.clock.current, s.ts) >= 0 {
      UpdateRttInv(k.rtt, k.cfg, TimeDiff(k.clock.current, s.ts));
    }
  }

  lemma {:induction false} StepsInv(k: Kcb, segs: seq<Segment>)
    requires Inv(k) && forall s :: s in segs ==> s.wnd <= SPAN
    ensures Inv(Steps(k, segs)) && Advanced(k.snd, Steps(k, segs).snd)
  {
    if segs != [] {
      hide Inv, Step;
      var init := segs[..|segs| - 1];
      StepsInv(k, init);
      assert segs[|segs| - 1] in segs;
      StepInv(Steps(k, init), segs[|segs| - 1]);
    }
  }

  lemma {:induction false} SettleInv(k: Kcb, prevUna: u32, a: AckScan)
    requires Inv(k)
    ensures Inv(Settle(k, prevUna, a)) && Advanced(k.snd, Settle(k, prevUna, a).snd)
  {
    TakeFastKeeps(k.snd, a.maxack);
    hide Good, Window, TakeFast, Grow, Off;
  }

  /** Any bytes whatever: the invariant holds afterwards, `snd_nxt` stays and `snd_una` does not move
      back; with the window bound this makes every comparison on the sending side exact. */
  lemma {:induction false} InputInv(k: Kcb, data: Bytes)
    requires Inv(k)
    ensures Inv(Input(k, data).0) && Advanced(k.snd, Input(k, data).0.snd)
  {
    var p := Parse(k.cfg.conv, data);
    EncodeAllParse(k.cfg.conv, data);
    forall s | s in p.segs ensures s.wnd <= SPAN {
      assert OnWire(s) == s;
    }
    hide Inv, Parse, Settle;
    StepsInv(k, p.segs);
    SettleInv(Steps(k, p.segs), k.snd.una, ScanAcks(p.segs));
  }

  // ---------- ikcp_flush, ikcp_update ----------

  lemma {:induction false} NumberedSmall(queue: seq<Segment>, m: nat, sn: u32, st: Stamp, mss: int)
    requires m <= |queue| && Small(queue, mss)
    ensures Small(NumberedAll(queue[..m], sn, st), mss) && Stamped(NumberedAll(queue[..m], sn, st), st.conv)
    ensures Small(queue[m..], mss)
  {
    hide Wrap;
  }

  lemma {:induction false} SmallAppend(a: seq<Segment>, b: seq<Segment>, mss: int, conv: u32)
    requires Small(a, mss) && Small(b, mss) && Stamped(a, conv) && Stamped(b, conv)
    ensures Small(a + b, mss) && Stamped(a + b, conv)
  {
  }

  lemma {:induction false} AdmitInv(snd: Snd, cfg: Config, cwnd: u32, st: Stamp)
    requires SndInv(snd, cfg) && cwnd <= SPAN && st.conv == cfg.conv
    ensures SndInv(Admit(snd, cwnd, st), cfg)
  {
    AdmitKeeps(snd, cwnd, st);
    assert Off(snd.nxt, snd.una) <= SPAN;
    hide Admit, Window, Off, Small, Stamped, NumberedAll, Room;
    AdmitMeans(snd, cwnd, st);
    var m := Room(snd, cwnd);
    NumberedSmall(snd.queue, m, snd.nxt, st, cfg.Mss());
    SmallAppend(snd.buf, NumberedAll(snd.queue[..m], snd.nxt, st), cfg.Mss(), cfg.conv);
  }

  lemma {:induction false} TouchSame(p: Policy, buf: seq<Segment>)
    ensures SameCores(buf, TouchAll(p, buf))
  {
    hide BackOff, FateOf;
  }

  lemma {:induction false} TouchInv(snd: Snd, cfg: Config, p: Policy)
    requires SndInv(snd, cfg)
    ensures SndInv(snd.(buf := TouchAll(p, snd.buf)), cfg)
  {
    TouchSame(p, snd.buf);
    SameCoresKeep(snd, TouchAll(p, snd.buf));
    hide TouchAll, Window;
  }

  /** The parts of the control block a flush leaves alone, and what it makes of the rest. */
  lemma {:induction false} FlushShape(k: Kcb)
    requires k.clock.updated
    ensures var snd := Admit(k.snd, SendWindow(k), StampOf(k));
            var k' := Flush(k).k;
            && k'.snd == snd.(buf := TouchAll(PolicyOf(k), snd.buf)) && k'.rcv == k.rcv.(acks := [])
            && k'.cfg == k.cfg && k'.rmtWnd == k.rmtWnd && k'.rtt == k.rtt && k'.clock == k.clock
  {
    hide Admit, SendWindow, TouchAll, Due, Fated, AfterFlush, Pack, Control, ProbeTick, StampOf;
  }

  lemma {:induction false} FlushInv(k: Kcb)
    requires Inv(k)
    ensures Inv(Flush(k).k)
  {
    if k.clock.updated {
      FlushShape(k);
      assert SendWindow(k) <= SPAN && StampOf(k).conv == k.cfg.conv;
      assert Good(k.rcv.(acks := []), k.cfg.rcvWnd);
      hide Flush, SndInv, RttInv, GoodConfig, Good, Admit, TouchAll, SendWindow, StampOf, PolicyOf;
      AdmitInv(k.snd, k.cfg, SendWindow(k), StampOf(k));
      TouchInv(Admit(k.snd, SendWindow(k), StampOf(k)), k.cfg, PolicyOf(k));
    }
  }

  lemma {:induction false} ClockInv(k: Kcb, clock: Clock)
    requires Inv(k)
    ensures Inv(k.(clock := clock))
  {
    hide SndInv, Good;
  }

  lemma {:induction false} UpdateInv(k: Kcb, now: u32)
    requires Inv(k)
    ensures Inv(Update(k, now).k)
  {
    hide SndInv, Good, Flush;
    var (clock, due) := Tick(k.clock, now, k.cfg.interval);
    FlushInv(k.(clock := clock));
  }
}
