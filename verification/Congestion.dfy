/** Congestion control over whole runs: the window `cwnd` and its fractional form `incr` stay in step,
    the slow-start threshold stays at least two, and none of the 32-bit arithmetic wraps. */
module Congestion {
  import opened Serial
  import opened Wire
  import opened Engine
  import opened SenderWindow
  import opened Receiver
  import opened Invariant
  import opened Calls
  import opened Retransmission
  import opened Incoming

  const MSS_MAX: int := 65511

  /** `cwnd` is within `Bounds`, and `incr` is less than one segment away from `cwnd` segments. */
  ghost predicate Bounded(c: Cong, mss: int) {
    c.cwnd <= SPAN && THRESH_MIN <= c.ssthresh <= SPAN && InStep(c, mss)
  }

  predicate InStep(c: Cong, mss: int) {
    -mss < c.incr - c.cwnd * mss < mss
  }

  // ---------- growth ----------

  /** The growth of the window in arithmetic without bound; `incr` is never repaired. */
  function IdealGrow(cwnd: int, ssthresh: int, incr: int, rmtWnd: int, mss: int): (int, int)
    requires mss > 0 && incr >= 0
  {
    if cwnd >= rmtWnd then (cwnd, incr)
    else if cwnd < ssthresh then (cwnd + 1, incr + mss)
    else
      var incr' := Increased(incr, mss);
      if (cwnd + 1) * mss <= incr' then
        var cwnd' := (incr' + mss - 1) / mss;
        if cwnd' > rmtWnd then (rmtWnd, rmtWnd * mss) else (cwnd', incr')
      else (cwnd, incr')
  }

  function Increased(incr: int, mss: int): int {
    if incr == 0 then mss / 16 else incr + mss * mss / incr + mss / 16
  }

  lemma {:induction false} Products(cwnd: int, mss: int)
    ensures (cwnd - 1) * mss == cwnd * mss - mss && (cwnd + 1) * mss == cwnd * mss + mss
    ensures (cwnd + 2) * mss == cwnd * mss + 2 * mss
  {
  }

  lemma {:induction false} Order(a: int, b: int, mss: int)
    requires a <= b && mss > 0
    ensures a * mss <= b * mss
  {
    MulNonNegative(b - a, mss);
    assert (b - a) * mss == b * mss - a * mss;
  }

  lemma {:induction false} OrderBack(a: int, b: int, mss: int)
    requires a * mss < b * mss && mss > 0
    ensures a < b
  {
    if b <= a {
      Order(b, a, mss);
    }
  }

  lemma {:induction false} OrderStrict(a: int, b: int, mss: int)
    requires a * mss <= b * mss && mss > 0
    ensures a <= b
  {
    if b < a {
      Order(b + 1, a, mss);
      Products(b, mss);
    }
  }

  /** The quotient of the increment. */
  lemma {:induction false} Quotient(incr: int, mss: int)
    requires 0 < mss <= incr
    ensures 0 <= mss * mss / incr <= mss
    ensures incr >= 2 * mss ==> 2 * (mss * mss / incr) <= mss
  {
    var q := mss * mss / incr;
    assert 0 <= q && q * incr <= mss * mss by {
      MulNonNegative(mss, mss);
      Floor(mss * mss, incr);
    }
    Order(mss, incr, mss);
    OrderStrict(q, mss, incr);
    if incr >= 2 * mss {
      Order(2 * mss, incr, mss);
      assert (2 * q) * incr == 2 * (q * incr);
      OrderStrict(2 * q, mss, incr);
    }
  }

  lemma {:induction false} Floor(x: nat, d: int)
    requires d > 0
    ensures 0 <= x / d && x / d * d <= x
  {
  }

  /** One increase adds less than two segments to a window of at least two. */
  lemma {:induction false} IncreaseBound(cwnd: int, incr: int, mss: int)
    requires mss > 0 && cwnd >= THRESH_MIN && -mss < incr - cwnd * mss < mss
    ensures mss < incr <= Increased(incr, mss) < (cwnd + 2) * mss
  {
    Products(cwnd, mss);
    Order(2, cwnd, mss);
    Quotient(incr, mss);
  }

  lemma {:induction false} CeilDivIs(x: int, mss: int)
    requires mss > 0 && x >= 0
    ensures var q := (x + mss - 1) / mss; (q - 1) * mss < x <= q * mss
  {
    var q := (x + mss - 1) / mss;
    assert (q - 1) * mss == q * mss - mss;
  }

  /** One acknowledging input: the window stays in step, grows by at most two segments, and not
      beyond the window the peer advertises. */
  lemma {:induction false} IdealGrowKeeps(c: Cong, rmtWnd: u32, mss: int)
    requires 0 < mss && Bounded(c, mss) && rmtWnd <= SPAN
    ensures var (w, i) := IdealGrow(c.cwnd, c.ssthresh, c.incr, rmtWnd, mss);
            && c.cwnd <= w <= c.cwnd + 2 && (w == c.cwnd || w <= rmtWnd)
            && -mss < i - w * mss < mss && i >= 0
  {
    Products(c.cwnd, mss);
    if c.ssthresh <= c.cwnd < rmtWnd {
      IncreaseBound(c.cwnd, c.incr, mss);
      var incr := Increased(c.incr, mss);
      if (c.cwnd + 1) * mss <= incr {
        CeilDivIs(incr, mss);
        var q := (incr + mss - 1) / mss;
        assert (q - 1) * mss == q * mss - mss;
        OrderBack(c.cwnd, q, mss);
        OrderBack(q - 1, c.cwnd + 2, mss);
        MulNonNegative(rmtWnd, mss);
      }
    }
  }

  lemma {:induction false} Fits32(a: int, mss: int)
    requires 0 <= a <= SPAN && 0 < mss <= MSS_MAX
    ensures 0 <= a * mss <= 4293263385
  {
    Order(a, SPAN, mss);
    MulNonNegative(a, mss);
  }

  lemma {:induction false} SquareFits(mss: int)
    requires 0 < mss <= MSS_MAX
    ensures 0 <= mss * mss < TWO32
  {
    Fits32(mss, mss);
  }

  /** No step of the growth wraps and its repair of `incr` never fires. */
  lemma {:induction false} GrowIsIdeal(c: Cong, rmtWnd: u32, mss: u32)
    requires 0 < mss <= MSS_MAX && Bounded(c, mss) && rmtWnd <= SPAN
    ensures var (w, i) := IdealGrow(c.cwnd, c.ssthresh, c.incr, rmtWnd, mss);
            Grow(c, rmtWnd, mss).cwnd == w && Grow(c, rmtWnd, mss).incr == i
              && Grow(c, rmtWnd, mss).ssthresh == c.ssthresh
    ensures c.ssthresh <= c.cwnd ==> c.incr >= mss
  {
    Products(c.cwnd, mss);
    IdealGrowKeeps(c, rmtWnd, mss);
    if c.cwnd >= c.ssthresh {
      IncreaseBound(c.cwnd, c.incr, mss);
    }
    if c.cwnd < rmtWnd {
      Fits32(c.cwnd + 1, mss);
      Fits32(rmtWnd, mss);
      WrapIs(c.cwnd + 1, 0);
      if c.cwnd < c.ssthresh {
        WrapIs(c.incr + mss, 0);
      } else {
        GrowSlowly(c, rmtWnd, mss);
      }
    }
  }

  lemma {:induction false} MulIs(a: u32, b: u32)
    requires 0 <= a * b < TWO32
    ensures Mul(a, b) == a * b
  {
    WrapIs(a * b, 0);
  }

  lemma {:induction false} DivIs(a: u32, b: u32)
    requires b > 0
    ensures Div(a, b) == a / b
  {
  }

  /** Congestion avoidance, given the values of its products and quotients. */
  lemma {:induction false} Avoid(c: Cong, rmtWnd: u32, mss: u32, incr: u32, up: u32, q: u32, top: u32)
    requires 0 < mss <= c.incr && c.ssthresh <= c.cwnd < rmtWnd
    requires incr == Wrap(c.incr + Div(Mul(mss, mss), c.incr) + mss / 16)
    requires up == Mul(Wrap(c.cwnd + 1), mss) && q == Div(Wrap(incr + mss - 1), mss) && top == Mul(rmtWnd, mss)
    ensures Grow(c, rmtWnd, mss) == if up > incr then c.(incr := incr)
                                    else if q > rmtWnd then Cong(rmtWnd, c.ssthresh, top)
                                    else Cong(q, c.ssthresh, incr)
  {
    hide Wrap, Mul, Div;
  }

  lemma {:induction false} GrowSlowly(c: Cong, rmtWnd: u32, mss: u32)
    requires 0 < mss <= MSS_MAX && Bounded(c, mss) && c.ssthresh <= c.cwnd < rmtWnd <= SPAN
    ensures var (w, i) := IdealGrow(c.cwnd, c.ssthresh, c.incr, rmtWnd, mss);
            Grow(c, rmtWnd, mss).cwnd == w && Grow(c, rmtWnd, mss).incr == i
              && Grow(c, rmtWnd, mss).ssthresh == c.ssthresh
  {
    hide Wrap, Mul, Div, Grow, IdealGrow, Increased, Bounded;
    var cwnd: int, incr := c.cwnd, Increased(c.incr, mss);
    StepBounds(c, mss);
    var up, top := (cwnd + 1) * mss, rmtWnd * mss;
    Fits32(cwnd + 1, mss);
    WrapIs(cwnd + 1, 0);
    MulIs(cwnd + 1, mss);
    Fits32(rmtWnd, mss);
    MulIs(rmtWnd, mss);
    IncreaseFits(c.incr, mss);
    WrapIs(incr + mss - 1, 0);
    DivIs(incr + mss - 1, mss);
    Avoid(c, rmtWnd, mss, incr, up, (incr + mss - 1) / mss, top);
    IdealAvoids(cwnd, c.ssthresh, c.incr, rmtWnd, mss, incr, up, (incr + mss - 1) / mss, top);
  }

  lemma {:induction false} StepBounds(c: Cong, mss: u32)
    requires 0 < mss <= MSS_MAX && Bounded(c, mss) && c.ssthresh <= c.cwnd < SPAN
    ensures mss < c.incr <= Increased(c.incr, mss) && Increased(c.incr, mss) + mss - 1 < TWO32
  {
    hide Increased;
    IncreaseBound(c.cwnd, c.incr, mss);
    Products(c.cwnd, mss);
    Fits32(c.cwnd + 1, mss);
  }

  lemma {:induction false} IncreaseFits(incr: u32, mss: u32)
    requires 0 < mss <= MSS_MAX && mss < incr <= Increased(incr, mss) < TWO32
    ensures Wrap(incr + Div(Mul(mss, mss), incr) + mss / 16) == Increased(incr, mss)
  {
    hide Wrap, Mul, Div;
    SquareFits(mss);
    MulIs(mss, mss);
    DivIs(mss * mss, incr);
    WrapIs(Increased(incr, mss), 0);
  }

  lemma {:induction false} IdealAvoids(cwnd: int, ssthresh: int, incr: int, rmtWnd: int, mss: int, incr': int, up: int,
                                       q: int, top: int)
    requires mss > 0 && incr >= 0 && ssthresh <= cwnd < rmtWnd
    requires incr' == Increased(incr, mss) && up == (cwnd + 1) * mss && q == (incr' + mss - 1) / mss
             && top == rmtWnd * mss
    ensures IdealGrow(cwnd, ssthresh, incr, rmtWnd, mss) == if up > incr' then (cwnd, incr')
                                                            else if q > rmtWnd then (rmtWnd, top) else (q, incr')
  {
    hide Increased;
  }

  // ---------- flush ----------

  /** After a fast retransmission alone, the window and its fractional form are in step exactly when
      their product fits 32 bits. */
  lemma {:induction false} FastInStepIff(c: Cong, inflight: u32, cwnd: u32, resent: u32, mss: u32)
    requires mss > 0
    ensures var c', w := AfterFlush(c, true, false, inflight, cwnd, resent, mss),
            Wrap(Max(inflight / 2, THRESH_MIN) + resent);
            InStep(c', mss) <==> w * mss < TWO32
  {
    var w := Wrap(Max(inflight / 2, THRESH_MIN) + resent);
    if w > 0 {
      MulNonNegative(w, mss);
      var q := w * mss / TWO32;
      assert Mul(w, mss) == w * mss - q * TWO32;
      hide Wrap;
    }
  }

  /** A flush leaves the window open and in step; only without a `fastresend` limit may the sum of
      threshold and limit wrap, which then makes it one less than the threshold. */
  lemma {:induction false} AfterFlushKeeps(c: Cong, fast: bool, lost: bool, inflight: u32, cwnd: u32, resent: u32,
      mss: u32)
    requires 0 < mss <= MSS_MAX && Bounded(c, mss) && inflight <= SPAN && cwnd <= SPAN
    requires resent <= 32768 || resent == 0xffff_ffff
    ensures var c' := AfterFlush(c, fast, lost, inflight, cwnd, resent, mss);
            && Bounded(c', mss) && c'.cwnd >= 1
            && (lost ==> c'.cwnd == 1 && c'.ssthresh == Max(cwnd / 2, THRESH_MIN) && c'.incr == mss)
            && (fast && !lost ==> var ss := Max(inflight / 2, THRESH_MIN);
                                  var w := if resent <= 32768 then ss + resent else ss - 1;
                                  c'.cwnd == w && c'.ssthresh == ss && c'.incr == w * mss)
            && (!fast && !lost && c.cwnd >= 1 ==> c' == c)
  {
    var ss := Max(inflight / 2, THRESH_MIN);
    var w := if resent <= 32768 then ss + resent else ss - 1;
    WrapIs(ss + resent, if resent <= 32768 then 0 else -1);
    Fits32(w, mss);
    WrapIs(w * mss, 0);
    hide Wrap;
  }

  // ---------- whole runs ----------

  ghost predicate GoodCong(k: Kcb) {
    Bounded(k.cong, k.cfg.Mss())
  }

  predicate Modest(cfg: Config) {
    GoodConfig(cfg) && cfg.mtu <= 65535 && cfg.fastResend <= 32768
  }

  lemma {:induction false} StepsKeepCong(k: Kcb, segs: seq<Segment>)
    ensures Steps(k, segs).cong == k.cong
  {
    hide SndStep, RcvStep, RttStep;
    if segs != [] {
      StepsKeepCong(k, segs[..|segs| - 1]);
    }
  }

  lemma {:induction false} StepsWindow(k: Kcb, segs: seq<Segment>)
    requires k.rmtWnd <= SPAN && forall s :: s in segs ==> s.wnd <= SPAN
    ensures Steps(k, segs).rmtWnd <= SPAN
  {
    hide SndStep, RcvStep, RttStep;
    if segs != [] {
      assert segs[|segs| - 1] in segs;
    }
  }

  lemma {:induction false} InputCong(k: Kcb, data: Bytes)
    requires k.rmtWnd <= SPAN
    ensures var k' := Input(k, data).0;
            && k'.cfg == k.cfg && k'.rmtWnd <= SPAN
            && (k'.cong == k.cong || k'.cong == Grow(k.cong, k'.rmtWnd, k.cfg.Mss()))
  {
    ConfigStays(k, InputCall(data));
    if |data| >= OVERHEAD {
      var p := Parse(k.cfg.conv, data);
      EncodeAllParse(k.cfg.conv, data);
      forall s | s in p.segs ensures s.wnd <= SPAN {
        assert OnWire(s) == s;
      }
      hide Parse, Grow, TakeFast, ScanAcks, TimeDiff;
      StepsKeepCong(k, p.segs);
      StepsWindow(k, p.segs);
      hide Steps;
    }
  }

  /** One `ikcp_input`, on any bytes. */
  lemma {:induction false} InputGrowth(k: Kcb, data: Bytes)
    requires Modest(k.cfg) && Inv(k) && GoodCong(k)
    ensures var k' := Input(k, data).0;
            && GoodCong(k') && k'.cong.ssthresh == k.cong.ssthresh
            && k.cong.cwnd <= k'.cong.cwnd <= k.cong.cwnd + 2
            && (k'.cong.cwnd == k.cong.cwnd || k'.cong.cwnd <= k'.rmtWnd)
  {
    hide Good, SndInv, RttInv, Input, Grow;
    InputCong(k, data);
    var rmtWnd := Input(k, data).0.rmtWnd;
    GrowIsIdeal(k.cong, rmtWnd, k.cfg.Mss());
    IdealGrowKeeps(k.cong, rmtWnd, k.cfg.Mss());
    hide IdealGrow;
  }

  lemma {:induction false} SettleCong(k: Kcb, prev: u32, a: AckScan)
    ensures Settle(k, prev, a).cong
            == if TimeDiff(k.snd.una, prev) > 0 then Grow(k.cong, k.rmtWnd, k.cfg.Mss()) else k.cong
    ensures Settle(k, prev, a).snd.una == k.snd.una && Settle(k, prev, a).rmtWnd == k.rmtWnd
  {
    hide Grow, BumpFast, TimeDiff;
  }

  lemma {:induction false} MovedIff(una: u32, una': u32, nxt: u32)
    requires Off(una', una) + Off(nxt, una') == Off(nxt, una) <= SPAN
    ensures TimeDiff(una', una) > 0 <==> una' != una
  {
  }

  /** The window grows, by the growth without bound, exactly with a good datagram that moves `snd_una`; no other
      datagram touches the congestion state. */
  lemma {:induction false} InputGrows(k: Kcb, data: Bytes)
    requires Modest(k.cfg) && Inv(k) && GoodCong(k)
    ensures var k', c := Input(k, data).0, k.cong;
            if Input(k, data).1 == 0 && k'.snd.una != k.snd.una then
              k'.cong.ssthresh == c.ssthresh
              && (k'.cong.cwnd, k'.cong.incr) == IdealGrow(c.cwnd, c.ssthresh, c.incr, k'.rmtWnd, k.cfg.mtu - 24)
            else k'.cong == c
  {
    hide Good, RttInv, Input, Grow, IdealGrow, Steps, Settle, ScanAcks, SegsIn, Window, Small, Stamped, TimeDiff, Off,
         Bounded;
    var k1 := Steps(k, SegsIn(k, data));
    InputIs(k, data);
    StepsKeepCong(k, SegsIn(k, data));
    StepsConfig(k, SegsIn(k, data));
    StepsClear(k, SegsIn(k, data));
    WindowSpan(k.snd);
    MovedIff(k.snd.una, k1.snd.una, k.snd.nxt);
    SettleCong(k1, k.snd.una, ScanAcks(SegsIn(k, data)));
    InputCong(k, data);
    GrowIsIdeal(k.cong, Input(k, data).0.rmtWnd, k.cfg.Mss());
  }

  lemma {:induction false} StepsConfig(k: Kcb, segs: seq<Segment>)
    ensures Steps(k, segs).cfg == k.cfg
  {
    hide SndStep, RcvStep, RttStep;
  }

  lemma {:induction false} FlushCong(k: Kcb)
    requires k.clock.updated
    ensures var snd := Admit(k.snd, SendWindow(k), StampOf(k));
            var lost, fast := Fated(PolicyOf(k), snd.buf, Timeout), Fated(PolicyOf(k), snd.buf, Fast);
            Flush(k).k.cong == AfterFlush(k.cong, fast > 0, lost > 0, Wrap(snd.nxt - snd.una), SendWindow(k),
                                          PolicyOf(k).resent, k.cfg.Mss())
    ensures Flush(k).k.cfg == k.cfg
  {
    assert PolicyOf(k).st == StampOf(k);
    hide Admit, SendWindow, PolicyOf, StampOf, Fated, TouchAll, Due, ProbeTick, Template, Control, Pack, AnyDead,
         AfterFlush;
  }

  lemma {:induction false} FlushTerms(k: Kcb)
    requires Modest(k.cfg) && Inv(k)
    ensures SendWindow(k) <= SPAN && StampOf(k).conv == k.cfg.conv && 0 < k.cfg.Mss() <= MSS_MAX
    ensures PolicyOf(k).resent <= 32768 || PolicyOf(k).resent == 0xffff_ffff
    ensures SndInv(k.snd, k.cfg)
  {
    hide SndInv, Good, RttInv;
  }

  lemma {:induction false} Inflight(snd: Snd, cfg: Config)
    requires SndInv(snd, cfg)
    ensures Wrap(snd.nxt - snd.una) <= SPAN
  {
    hide Small, Stamped, Ascending;
  }

  lemma {:induction false} AfterFlushIs(c: Cong, fast: bool, lost: bool, inflight: u32, cwnd: u32, resent: u32,
      mss: u32)
    ensures var c', ss := AfterFlush(c, fast, lost, inflight, cwnd, resent, mss), Max(inflight / 2, 2);
            && (lost ==> c' == Cong(1, Max(cwnd / 2, 2), mss))
            && (!lost && fast ==>
                  var w := Wrap(ss + resent);
                  c' == if w == 0 then Cong(1, ss, mss) else Cong(w, ss, Wrap(w * mss)))
            && (!lost && !fast ==> c' == if c.cwnd == 0 then Cong(1, c.ssthresh, mss) else c)
  {
    hide Wrap;
  }

  /** What a flush makes of the congestion state. A timeout of any segment halves the send window `w` to the
      threshold and closes the window to one segment. Otherwise, if a segment was overtaken, half of what is
      outstanding becomes the threshold and the window lies above it by the limit. Otherwise the state stays,
      but a window of nothing is opened to one segment. */
  lemma {:induction false} FlushReacts(k: Kcb)
    requires Inv(k) && k.clock.updated
    ensures var k', mss := Flush(k).k, k.cfg.mtu - 24;
            var w := Min(Min(k.cfg.sndWnd, k.rmtWnd), if k.cfg.nocwnd then k.cfg.sndWnd else k.cong.cwnd);
            var half := Max(Off(k'.snd.nxt, k'.snd.una) / 2, 2);
            var fast := Wrap(half + SkipLimit(k.cfg));
            k'.cong == if RunOutAt(k) != {} then Cong(1, Max(w / 2, 2), mss)
                       else if OvertakenAt(k) != {} then
                         if fast == 0 then Cong(1, half, mss) else Cong(fast, half, Wrap(fast * mss))
                       else if k.cong.cwnd == 0 then Cong(1, k.cong.ssthresh, mss)
                       else k.cong
  {
    hide Inv, Flush, Admit, SendWindow, StampOf, PolicyOf, Fated, AfterFlush, RunOutAt, OvertakenAt, Wrap, SkipLimit,
         TouchAll, Min, Max;
    ReactionTerms(k);
    FlushCong(k);
    FatedAdmitted(k);
    AfterFlushIs(k.cong, |OvertakenAt(k)| > 0, |RunOutAt(k)| > 0, Off(Flush(k).k.snd.nxt, Flush(k).k.snd.una),
                 SendWindow(k), PolicyOf(k).resent, k.cfg.Mss());
  }

  lemma {:induction false} ReactionTerms(k: Kcb)
    requires Inv(k) && k.clock.updated
    ensures var snd, snd' := Admit(k.snd, SendWindow(k), StampOf(k)), Flush(k).k.snd;
            && Wrap(snd.nxt - snd.una) == Off(snd'.nxt, snd'.una) && PolicyOf(k).resent == SkipLimit(k.cfg)
            && k.cfg.Mss() == k.cfg.mtu - 24
            && SendWindow(k)
               == Min(Min(k.cfg.sndWnd, k.rmtWnd), if k.cfg.nocwnd then k.cfg.sndWnd else k.cong.cwnd)
  {
    hide Inv, Flush, Admit, StampOf, PolicyOf, Wrap, SkipLimit, TouchAll;
    PolicyIs(k);
    SendWindowIs(k);
    FlushShape(k);
  }

  /** For the usual settings nothing in this wraps, save one case: without a limit for overtaking the window is
      set to one below the threshold. */
  lemma {:induction false} FlushReactsExactly(k: Kcb)
    requires Modest(k.cfg) && Inv(k) && k.clock.updated && RunOutAt(k) == {} && OvertakenAt(k) != {}
    ensures var k', mss := Flush(k).k, k.cfg.mtu - 24;
            var half := Max((k'.snd.nxt - k'.snd.una) % 0x1_0000_0000 / 2, 2);
            var w := if k.cfg.fastResend > 0 then half + k.cfg.fastResend else half - 1;
            k'.cong.cwnd == w && k'.cong.ssthresh == half && k'.cong.incr == w * mss && w > 0
  {
    var snd', mss := Flush(k).k.snd, k.cfg.mtu - 24;
    FlushReacts(k);
    FlushInv(k);
    assert Off(snd'.nxt, snd'.una) <= SPAN;
    var half := Max(Off(snd'.nxt, snd'.una) / 2, 2);
    var w := if k.cfg.fastResend > 0 then half + k.cfg.fastResend else half - 1;
    hide Inv, Flush, RunOutAt, OvertakenAt;
    WrapIs(half + SkipLimit(k.cfg), if k.cfg.fastResend > 0 then 0 else -1);
    Fits32(w, mss);
    WrapIs(w * mss, 0);
    hide Wrap;
  }

  /** A flush opens the window. */
  lemma {:induction false} FlushKeepsCong(k: Kcb)
    requires Modest(k.cfg) && Inv(k) && GoodCong(k)
    ensures GoodCong(Flush(k).k) && (k.clock.updated ==> Flush(k).k.cong.cwnd >= 1)
    ensures k.cong.cwnd >= 1 ==> Flush(k).k.cong.cwnd >= 1
  {
    hide Inv, SndInv, Flush, Admit, SendWindow, PolicyOf, StampOf, AfterFlush, Fated, Bounded, Modest, Wrap;
    if k.clock.updated {
      FlushCong(k);
      FlushTerms(k);
      var cwnd, p, snd := SendWindow(k), PolicyOf(k), Admit(k.snd, SendWindow(k), StampOf(k));
      AdmitInv(k.snd, k.cfg, cwnd, StampOf(k));
      Inflight(snd, k.cfg);
      var lost, fast := Fated(p, snd.buf, Timeout), Fated(p, snd.buf, Fast);
      AfterFlushKeeps(k.cong, fast > 0, lost > 0, Wrap(snd.nxt - snd.una), cwnd, p.resent, k.cfg.Mss());
    } else {
      FlushIdle(k);
    }
  }

  lemma {:induction false} FlushIdle(k: Kcb)
    requires !k.clock.updated
    ensures Flush(k).k == k
  {
  }

  /** Congestion control over any calls, on any bytes. */
  lemma {:induction false} CallsKeepCong(cfg: Config, calls: seq<Call>)
    requires Modest(cfg)
    ensures GoodCong(AfterAll(Create(cfg), calls))
  {
    var k := Create(cfg);
    assert Bounded(k.cong, cfg.Mss());
    hide Bounded;
    if calls != [] {
      var before, c := calls[..|calls| - 1], calls[|calls| - 1];
      CallsKeepCong(cfg, before);
      EveryEndpoint(cfg, before);
      CreateInv(cfg);
      CallsKeepInv(k, before);
      CallKeepsCong(AfterAll(k, before), c);
    }
  }

  lemma {:induction false} CallKeepsCong(k: Kcb, c: Call)
    requires Modest(k.cfg) && Inv(k) && GoodCong(k)
    ensures GoodCong(After(k, c)) && (k.cong.cwnd >= 1 ==> After(k, c).cong.cwnd >= 1)
  {
    ConfigStays(k, c);
    hide Inv, GoodConfig, Bounded, Input, Flush, Enqueue, Receive, Tick;
    match c
    case InputCall(data) => InputGrowth(k, data);
    case UpdateCall(now) =>
      var k1 := k.(clock := Tick(k.clock, now, k.cfg.interval).0);
      ClockInv(k, k1.clock);
      FlushKeepsCong(k1);
    case FlushCall => FlushKeepsCong(k);
    case _ =>
  }
}
