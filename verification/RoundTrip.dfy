/** The round-trip estimator over any sequence of samples (after section 2 of RFC 6298), and the samples an
    endpoint takes from the acknowledgements it receives. */
module RoundTrip {
  import opened Serial
  import opened Wire
  import opened Engine
  import opened Calls

  /** The estimator after the samples, oldest first, from `r`. */
  function RttFrom(r: Rtt, cfg: Config, samples: seq<i32>): Rtt {
    if samples == [] then r
    else UpdateRtt(RttFrom(r, cfg, samples[..|samples| - 1]), cfg, samples[|samples| - 1])
  }

  /** The estimator of a new endpoint after the samples. */
  function RttAfter(cfg: Config, samples: seq<i32>): Rtt {
    RttFrom(Rtt(0, 0, RTO_DEF), cfg, samples)
  }

  ghost predicate Within(samples: seq<i32>, lo: int, hi: int) {
    forall i :: 0 <= i < |samples| ==> lo <= samples[i] <= hi
  }

  /** The estimator in arithmetic without bound: the variation is updated from the old mean, then the
      mean; a mean of zero counts as no measurement. */
  function Ideal(srtt: int, rttval: int, sample: int): (int, int)
    requires srtt >= 0 && rttval >= 0 && sample >= 0
  {
    if srtt == 0 then (sample, sample / 2)
    else (Max(1, (7 * srtt + sample) / 8),
          (3 * rttval + if sample >= srtt then sample - srtt else srtt - sample) / 4)
  }

  function Timeout(cfg: Config, srtt: int, rttval: int): int {
    Min(Max(cfg.minRto, srtt + Max(cfg.interval, 4 * rttval)), RTO_MAX)
  }

  lemma {:induction false} IdealBounds(srtt: int, rttval: int, sample: int, lo: int, hi: int)
    requires 0 <= lo <= sample <= hi && 0 <= rttval <= hi
    requires srtt == 0 || lo <= srtt <= hi || (lo == 0 && srtt == 1)
    ensures var (s, v) := Ideal(srtt, rttval, sample);
            (lo <= s <= hi || (lo == 0 && s == 1)) && 0 <= v <= hi
  {
    var q := (7 * srtt + sample) / 8;
    assert 8 * q <= 7 * srtt + sample < 8 * q + 8;
  }

  lemma {:induction false} TruncDivIs(a: int)
    requires a >= 0
    ensures TruncDiv(a, 2) == a / 2 && TruncDiv(a, 4) == a / 4 && TruncDiv(a, 8) == a / 8
  {
  }

  /** No intermediate value overflows while samples stay within `hi`. */
  lemma {:induction false} UpdateIsIdeal(r: Rtt, cfg: Config, sample: i32, hi: int)
    requires GoodConfig(cfg) && 0 <= sample <= hi && 8 * hi < TWO31
    requires 0 <= r.srtt <= Max(hi, 1) && 0 <= r.rttval <= hi
    ensures var (srtt, rttval) := Ideal(r.srtt, r.rttval, sample);
            var r' := UpdateRtt(r, cfg, sample);
            r'.srtt == srtt && r'.rttval == rttval && r'.rto == Timeout(cfg, srtt, rttval)
  {
    hide Wrap, TruncDiv, Ideal, Signed, UpdateRtt, Timeout, GoodConfig;
    var (srtt, rttval) := Ideal(r.srtt, r.rttval, sample);
    IdealBounds(r.srtt, r.rttval, sample, 0, Max(hi, 1));
    IdealBounds(r.srtt, r.rttval, sample, 0, hi);
    if r.srtt == 0 {
      FirstMean(r.rttval, sample);
    } else {
      LaterMean(r.srtt, r.rttval, sample, hi);
    }
    TimeoutFits(cfg, srtt, rttval, hi);
    UpdateParts(r, cfg, sample, srtt, rttval);
  }

  lemma {:induction false} FirstMean(rttval: int, sample: int)
    requires sample >= 0 && rttval >= 0
    ensures Ideal(0, rttval, sample) == (sample, TruncDiv(sample, 2))
  {
  }

  lemma {:induction false} LaterMean(srtt: int, rttval: int, sample: int, hi: int)
    requires 0 <= sample <= hi && 8 * hi < TWO31 && 0 < srtt <= Max(hi, 1) && 0 <= rttval <= hi
    ensures var delta := if sample - srtt < 0 then srtt - sample else sample - srtt;
            Ideal(srtt, rttval, sample) == (Max(1, TruncDiv(Signed(Wrap(7 * srtt + sample)), 8)),
                                            Signed(Wrap(TruncDiv(Signed(Wrap(3 * rttval)) + delta, 4))))
  {
    hide Wrap, TruncDiv;
    var delta := if sample - srtt < 0 then srtt - sample else sample - srtt;
    WrapIs(7 * srtt + sample, 0);
    WrapIs(3 * rttval, 0);
    TruncDivIs(7 * srtt + sample);
    TruncDivIs(3 * rttval + delta);
    WrapIs((3 * rttval + delta) / 4, 0);
  }

  lemma {:induction false} TimeoutFits(cfg: Config, srtt: int, rttval: int, hi: int)
    requires GoodConfig(cfg) && 0 <= srtt <= Max(hi, 1) && 0 <= rttval <= hi && 0 <= 8 * hi < TWO31
    ensures Wrap(4 * rttval) == 4 * rttval && Wrap(cfg.minRto) == cfg.minRto
    ensures var t := srtt + Max(cfg.interval, 4 * rttval); 0 <= t == Wrap(t)
  {
    hide Wrap;
    WrapIs(4 * rttval, 0);
    WrapIs(srtt + Max(cfg.interval, 4 * rttval), 0);
    WrapIs(cfg.minRto, 0);
  }

  lemma {:induction false} UpdateParts(r: Rtt, cfg: Config, sample: i32, srtt: i32, rttval: i32)
    requires GoodConfig(cfg) && Wrap(4 * rttval) == 4 * rttval && Wrap(cfg.minRto) == cfg.minRto
    requires var t := srtt + Max(cfg.interval, 4 * rttval); 0 <= t == Wrap(t)
    requires if r.srtt == 0 then srtt == sample && rttval == TruncDiv(sample, 2)
             else
               var delta := if sample - r.srtt < 0 then r.srtt - sample else sample - r.srtt;
               && srtt == Max(1, TruncDiv(Signed(Wrap(7 * r.srtt + sample)), 8))
               && rttval == Signed(Wrap(TruncDiv(Signed(Wrap(3 * r.rttval)) + delta, 4)))
    ensures UpdateRtt(r, cfg, sample) == Rtt(srtt, rttval, Timeout(cfg, srtt, rttval))
  {
    hide Wrap, TruncDiv;
  }

  /** Over any samples within `lo` and `hi`: the mean is within them, or at the clamp of one, the
      variation does not exceed `hi`, and the timeout is within its limits. */
  lemma {:induction false} EstimatorBounds(cfg: Config, samples: seq<i32>, lo: int, hi: int)
    requires GoodConfig(cfg) && samples != [] && Within(samples, lo, hi) && 0 <= lo && 8 * hi < TWO31
    ensures var r := RttAfter(cfg, samples);
            && (lo <= r.srtt <= hi || (lo == 0 && r.srtt == 1)) && 0 <= r.rttval <= hi
            && cfg.minRto <= r.rto <= RTO_MAX
            && r.rto == Timeout(cfg, r.srtt, r.rttval)
  {
    hide UpdateRtt, Ideal;
    var last := |samples| - 1;
    var r := RttAfter(cfg, samples[..last]);
    assert lo <= samples[last] <= hi;
    if last > 0 {
      EstimatorBounds(cfg, samples[..last], lo, hi);
    }
    UpdateIsIdeal(r, cfg, samples[last], hi);
    IdealBounds(r.srtt, r.rttval, samples[last], lo, hi);
  }

  lemma {:induction false} SteadyStep(delay: int, v: int, n: int)
    requires 1 <= delay && n >= 1 && 0 <= v <= Max(0, delay - n + 1)
    ensures Ideal(delay, v, delay) == (delay, 3 * v / 4) && 0 <= 3 * v / 4 <= Max(0, delay - n)
    ensures n == 1 ==> Ideal(0, 0, delay) == (delay, delay / 2) && 0 <= delay / 2 <= Max(0, delay - 1)
  {
  }

  /** On a path of constant delay the mean is exact at once and the variation dies out, so the
      timeout becomes the delay plus one interval. */
  lemma {:induction false} SettlesOnSteadyPath(cfg: Config, delay: i32, n: nat)
    requires GoodConfig(cfg) && 1 <= delay && 8 * delay < TWO31 && n >= 1
    ensures var r := RttAfter(cfg, seq(n, i => delay));
            && r.srtt == delay && 0 <= r.rttval <= Max(0, delay - n)
            && (n >= delay ==> r.rto == Min(Max(cfg.minRto, delay + cfg.interval), RTO_MAX))
  {
    hide UpdateRtt, Ideal;
    var samples: seq<i32> := seq(n, i => delay);
    var before := samples[..n - 1];
    assert before == seq(n - 1, i => delay);
    var r := RttAfter(cfg, before);
    if n > 1 {
      SettlesOnSteadyPath(cfg, delay, n - 1);
    }
    SteadyStep(delay, r.rttval, n);
    UpdateIsIdeal(r, cfg, delay, delay);
  }

  /** The new mean is the one of unbounded arithmetic exactly when the weighted sum fits a signed
      32-bit integer. */
  lemma {:induction false} MeanExactIff(r: Rtt, cfg: Config, sample: i32)
    requires r.srtt >= 1 && r.rttval >= 0 && sample >= 0
    ensures UpdateRtt(r, cfg, sample).srtt == Ideal(r.srtt, r.rttval, sample).0 <==> 7 * r.srtt + sample < TWO31
  {
    var x := 7 * r.srtt + sample;
    var y := Signed(Wrap(x));
    assert UpdateRtt(r, cfg, sample).srtt == Max(1, TruncDiv(y, 8)) by {
      hide Wrap, Max, Min;
    }
    WrapIs(x, if x < TWO32 then 0 else if x < 2 * TWO32 then -1 else if x < 3 * TWO32 then -2 else -3);
    hide UpdateRtt, Wrap;
    if y >= 0 {
      TruncDivIs(y);
    }
  }

  /** With large samples an intermediate value overflows: the mean of two equal samples is not theirs. */
  lemma {:induction false} LargeSampleWraps(cfg: Config)
    ensures RttAfter(cfg, [0x7fff_ffff]).srtt == 0x7fff_ffff
    ensures RttAfter(cfg, [0x7fff_ffff, 0x7fff_ffff]).srtt == 1
  {
    var r, one: seq<i32>, two: seq<i32> := Rtt(0, 0, RTO_DEF), [0x7fff_ffff], [0x7fff_ffff, 0x7fff_ffff];
    assert two[..1] == one && one[..0] == [];
    assert RttFrom(r, cfg, []) == r && RttFrom(r, cfg, one) == UpdateRtt(r, cfg, 0x7fff_ffff);
  }

  // ---------- the samples ----------

  /** The ages, at the time `now`, of the send times that the acknowledgements among `segs` echo; those that
      seem to lie ahead are skipped. */
  function Samples(now: u32, segs: seq<Segment>): seq<i32> {
    if segs == [] then []
    else
      var s := segs[|segs| - 1];
      Samples(now, segs[..|segs| - 1])
      + if s.cmd == CMD_ACK && TimeDiff(now, s.ts) >= 0 then [TimeDiff(now, s.ts)] else []
  }

  /** The samples in a datagram received by `k`. */
  function SamplesIn(k: Kcb, data: Bytes): seq<i32> {
    if |data| < OVERHEAD then [] else Samples(k.clock.current, Parse(k.cfg.conv, data).segs)
  }

  lemma {:induction false} RttFromAppend(r: Rtt, cfg: Config, a: seq<i32>, b: seq<i32>)
    ensures RttFrom(r, cfg, a + b) == RttFrom(RttFrom(r, cfg, a), cfg, b)
  {
    hide UpdateRtt;
    if b == [] {
      assert a + b == a;
    } else {
      assert (a + b)[..|a + b| - 1] == a + b[..|b| - 1];
      RttFromAppend(r, cfg, a, b[..|b| - 1]);
    }
  }

  lemma {:induction false} StepsSample(k: Kcb, segs: seq<Segment>)
    ensures Steps(k, segs).rtt == RttFrom(k.rtt, k.cfg, Samples(k.clock.current, segs))
  {
    hide SndStep, RcvStep, UpdateRtt, TimeDiff;
    if segs != [] {
      var init, s := segs[..|segs| - 1], segs[|segs| - 1];
      StepsSample(k, init);
      var before := Samples(k.clock.current, init);
      if s.cmd == CMD_ACK && TimeDiff(k.clock.current, s.ts) >= 0 {
        assert (before + [TimeDiff(k.clock.current, s.ts)])[..|before|] == before;
      } else {
        assert Samples(k.clock.current, segs) == before;
      }
    }
  }

  /** On any bytes `ikcp_input` updates the estimator by exactly these samples, in order. */
  lemma {:induction false} InputSamples(k: Kcb, data: Bytes)
    ensures Input(k, data).0.rtt == RttFrom(k.rtt, k.cfg, SamplesIn(k, data))
  {
    if |data| >= OVERHEAD {
      StepsSample(k, Parse(k.cfg.conv, data).segs);
      hide Parse, Steps, ScanAcks, TakeFast, Grow, TimeDiff, RttFrom, Samples;
    }
  }

  /** The samples an endpoint takes over a run of calls. */
  function SamplesOf(k: Kcb, calls: seq<Call>): seq<i32> {
    if calls == [] then []
    else
      var before, c := calls[..|calls| - 1], calls[|calls| - 1];
      SamplesOf(k, before) + if c.InputCall? then SamplesIn(AfterAll(k, before), c.data) else []
  }

  lemma {:induction false} RttStays(k: Kcb, c: Call)
    requires !c.InputCall?
    ensures After(k, c).rtt == k.rtt
  {
    hide Enqueue, Receive, Admit, TouchAll, Due, Fated, AfterFlush, Pack, Control, ProbeTick, AnyDead, Tick, SendWindow,
         PolicyOf, Template, StampOf;
  }

  /** After any calls, on any bytes, the estimator is where these samples lead it; nothing else moves it. */
  lemma {:induction false} RunSamples(k: Kcb, calls: seq<Call>)
    ensures AfterAll(k, calls).rtt == RttFrom(k.rtt, k.cfg, SamplesOf(k, calls)) && AfterAll(k, calls).cfg == k.cfg
  {
    hide After, Input, RttFrom, SamplesIn;
    if calls == [] {
      RttFromNone(k.rtt, k.cfg);
    } else {
      var before, c := calls[..|calls| - 1], calls[|calls| - 1];
      var k1 := AfterAll(k, before);
      RunSamples(k, before);
      ConfigStays(k1, c);
      if c.InputCall? {
        AfterInput(k1, c.data);
        InputSamples(k1, c.data);
        RttFromAppend(k.rtt, k.cfg, SamplesOf(k, before), SamplesIn(k1, c.data));
      } else {
        RttStays(k1, c);
        assert SamplesOf(k, calls) == SamplesOf(k, before);
      }
    }
  }

  lemma {:induction false} RttFromNone(r: Rtt, cfg: Config)
    ensures RttFrom(r, cfg, []) == r
  {
  }

  lemma {:induction false} AfterInput(k: Kcb, data: Bytes)
    ensures After(k, InputCall(data)) == Input(k, data).0
  {
    hide Input;
  }

  /** Mean and variation after the samples, oldest first, in arithmetic without bound. */
  function IdealAfter(samples: seq<nat>): (int, int)
    ensures IdealAfter(samples).0 >= 0 && IdealAfter(samples).1 >= 0
  {
    if samples == [] then (0, 0)
    else
      var (srtt, rttval) := IdealAfter(samples[..|samples| - 1]);
      Ideal(srtt, rttval, samples[|samples| - 1])
  }

  /** The estimator of an endpoint, over any calls on any bytes and as long as no acknowledgement echoes a time
      2^28 milliseconds ago or more, is the one of unbounded arithmetic on the samples; and once there is a sample
      the timeout is mean plus variation, within its limits. */
  lemma {:induction false} EndpointEstimates(cfg: Config, calls: seq<Call>, hi: int)
    requires GoodConfig(cfg) && Within(SamplesOf(Create(cfg), calls), 0, hi) && 8 * hi < TWO31
    ensures var r, samples := AfterAll(Create(cfg), calls).rtt, SamplesOf(Create(cfg), calls);
            && (r.srtt, r.rttval) == IdealAfter(samples)
            && r.rto == if samples == [] then RTO_DEF else Timeout(cfg, r.srtt, r.rttval)
  {
    hide AfterAll, SamplesOf, RttAfter, Timeout, IdealAfter;
    RunSamples(Create(cfg), calls);
    RttAfterIs(cfg, SamplesOf(Create(cfg), calls));
    AfterIsIdeal(cfg, SamplesOf(Create(cfg), calls), hi);
  }

  lemma {:induction false} RttAfterIs(cfg: Config, samples: seq<i32>)
    ensures RttFrom(Create(cfg).rtt, Create(cfg).cfg, samples) == RttAfter(cfg, samples)
  {
    hide RttFrom;
  }

  lemma {:induction false} AfterIsIdeal(cfg: Config, samples: seq<i32>, hi: int)
    requires GoodConfig(cfg) && Within(samples, 0, hi) && 8 * hi < TWO31
    ensures var r := RttAfter(cfg, samples);
            && (r.srtt, r.rttval) == IdealAfter(samples)
            && r.rto == if samples == [] then RTO_DEF else Timeout(cfg, r.srtt, r.rttval)
  {
    hide UpdateRtt, Ideal, Timeout;
    if samples != [] {
      var last := |samples| - 1;
      AfterIsIdeal(cfg, samples[..last], hi);
      if last > 0 {
        EstimatorBounds(cfg, samples[..last], 0, hi);
      }
      UpdateIsIdeal(RttAfter(cfg, samples[..last]), cfg, samples[last], hi);
    }
  }

  /** An endpoint whose acknowledgements all take the same time measures that time at once, and from the
      `delay`th on, at the latest, it resends after that time and one interval. */
  lemma {:induction false} EndpointSettles(cfg: Config, calls: seq<Call>, delay: i32)
    requires GoodConfig(cfg) && 1 <= delay && 8 * delay < TWO31
    requires SamplesOf(Create(cfg), calls) != [] && Within(SamplesOf(Create(cfg), calls), delay, delay)
    ensures var r, n := AfterAll(Create(cfg), calls).rtt, |SamplesOf(Create(cfg), calls)|;
            && r.srtt == delay && 0 <= r.rttval <= Max(0, delay - n)
            && (n >= delay ==> r.rto == Min(Max(cfg.minRto, delay + cfg.interval), RTO_MAX))
  {
    hide AfterAll, SamplesOf, RttAfter;
    var samples := SamplesOf(Create(cfg), calls);
    RunSamples(Create(cfg), calls);
    RttAfterIs(cfg, samples);
    assert samples == seq(|samples|, i => delay);
    SettlesOnSteadyPath(cfg, delay, |samples|);
  }
}
