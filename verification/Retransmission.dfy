/** Which segments a flush sends, and when it will send them again. */
module Retransmission {
  import opened Serial
  import opened Wire
  import opened Engine
  import opened SenderWindow
  import opened Receiver
  import opened Invariant
  import opened Emission

  // ---------- which ----------

  /** Never sent, timed out, or overtaken often enough without having been sent too often. */
  predicate Wanted(p: Policy, s: Segment) {
    || s.xmit == 0
    || TimeDiff(p.st.now, s.resendts) >= 0
    || (s.fastack >= p.resent && (Signed(s.xmit) <= p.fastLimit || p.fastLimit <= 0))
  }

  /** `at` lists the places of the wanted segments, in order. */
  ghost predicate Places(p: Policy, buf: seq<Segment>, at: seq<nat>) {
    && (forall k, l :: 0 <= k < l < |at| ==> at[k] < at[l])
    && (forall k :: 0 <= k < |at| ==> at[k] < |buf| && Wanted(p, buf[at[k]]))
    && (forall i: nat :: i < |buf| && Wanted(p, buf[i]) ==> i in at)
  }

  /** `due` are the segments at these places, as a flush leaves them. */
  ghost predicate TouchedAt(p: Policy, buf: seq<Segment>, at: seq<nat>, due: seq<Segment>) {
    && Places(p, buf, at) && |due| == |at|
    && (forall k :: 0 <= k < |at| ==> at[k] < |buf| && due[k] == Touch(p, buf[at[k]]))
  }

  lemma {:induction false} PlacesSnoc(p: Policy, buf: seq<Segment>, at: seq<nat>)
    requires buf != [] && Places(p, buf[..|buf| - 1], at)
    ensures Places(p, buf, if Wanted(p, buf[|buf| - 1]) then at + [|buf| - 1] else at)
  {
    hide Wanted;
    var last := |buf| - 1;
    var before, at' := buf[..last], if Wanted(p, buf[last]) then at + [last] else at;
    assert forall i :: 0 <= i < last ==> before[i] == buf[i];
    forall i: nat | i < |buf| && Wanted(p, buf[i]) ensures i in at' {
      if i == last {
        assert at'[|at|] == last;
      } else {
        var k :| 0 <= k < |at| && at[k] == i;
        assert at'[k] == i;
      }
    }
  }

  lemma {:induction false} WantedIsNotQuiet(p: Policy, s: Segment)
    ensures Wanted(p, s) <==> FateOf(p, s) != Quiet
  {
    hide TimeDiff;
  }

  lemma {:induction false} TouchedSnoc(p: Policy, buf: seq<Segment>, at: seq<nat>, due: seq<Segment>)
    requires buf != [] && TouchedAt(p, buf[..|buf| - 1], at, due)
    ensures var last := |buf| - 1;
            if Wanted(p, buf[last]) then TouchedAt(p, buf, at + [last], due + [Touch(p, buf[last])])
            else TouchedAt(p, buf, at, due)
  {
    hide Touch, Wanted, Places;
    PlacesSnoc(p, buf, at);
  }

  /** A flush sends exactly the wanted segments, each once, in the order of their numbers. */
  lemma {:induction false} DueIsWanted(p: Policy, buf: seq<Segment>) returns (at: seq<nat>)
    ensures TouchedAt(p, buf, at, Due(p, buf))
  {
    hide Touch, Wanted, FateOf, TouchedAt;
    if buf == [] {
      at := [];
      TouchedNone(p);
    } else {
      var last := |buf| - 1;
      at := DueIsWanted(p, buf[..last]);
      TouchedSnoc(p, buf, at, Due(p, buf[..last]));
      WantedIsNotQuiet(p, buf[last]);
      if Wanted(p, buf[last]) {
        at := at + [last];
      }
    }
  }

  lemma {:induction false} TouchedNone(p: Policy)
    ensures TouchedAt(p, [], [], [])
  {
  }

  /** Admission fills the window and no more: with `w` the least of the send window, the peer's window and,
      unless switched off, the congestion window, the numbers outstanding after a flush reach `w` as far as
      there are segments to send, and do not grow if they were beyond it. */
  lemma {:induction false} FlushFillsWindow(k: Kcb)
    requires Inv(k) && k.clock.updated
    ensures var w := Min(Min(k.cfg.sndWnd, k.rmtWnd), if k.cfg.nocwnd then k.cfg.sndWnd else k.cong.cwnd);
            var o, snd' := Off(k.snd.nxt, k.snd.una), Flush(k).k.snd;
            && snd'.una == k.snd.una
            && Off(snd'.nxt, snd'.una) == Max(o, Min(w, o + |k.snd.queue|))
            && snd'.queue == k.snd.queue[Off(snd'.nxt, snd'.una) - o..]
  {
    FlushShape(k);
    SendWindowIs(k);
    hide Flush, Inv, Admit, StampOf, TouchAll, Off, SendWindow;
    AdmitFills(k.snd, SendWindow(k), StampOf(k));
  }

  lemma {:induction false} SendWindowIs(k: Kcb)
    requires Inv(k)
    ensures SendWindow(k) == Min(Min(k.cfg.sndWnd, k.rmtWnd), if k.cfg.nocwnd then k.cfg.sndWnd else k.cong.cwnd)
    ensures SendWindow(k) <= SPAN && Off(k.snd.nxt, k.snd.una) <= SPAN
  {
    hide Good, RttInv, Small, Stamped, Off, Ascending;
  }

  lemma {:induction false} AdmitFills(snd: Snd, cwnd: u32, st: Stamp)
    requires Off(snd.nxt, snd.una) <= SPAN && cwnd <= SPAN
    ensures var o, a := Off(snd.nxt, snd.una), Admit(snd, cwnd, st);
            && a.una == snd.una && Off(a.nxt, a.una) == Max(o, Min(cwnd, o + |snd.queue|))
            && a.queue == snd.queue[Off(a.nxt, a.una) - o..]
  {
    var m := Room(snd, cwnd);
    hide Admit, NumberedAll, Off;
    AdmitMeans(snd, cwnd, st);
    OffMoved(snd.nxt, snd.una, m);
  }

  lemma {:induction false} OffMoved(nxt: u32, una: u32, m: nat)
    requires Off(nxt, una) + m < TWO32
    ensures Off(Wrap(nxt + m), una) == Off(nxt, una) + m
  {
    var n: int, b: int := nxt, una;
    OffOfWraps(n + m, b);
    WrapIs(b, 0);
    WrapAdd(n - b, m);
    WrapIs(Off(nxt, una) + m, 0);
  }

  /** The number that counts as acknowledged for fast retransmission is the highest of a datagram's ACKs,
      if these lie within 2^31 numbers. */
  lemma {:induction false} MaxAckIsHighest(segs: seq<Segment>, base: u32)
    requires forall s :: s in segs && s.cmd == CMD_ACK ==> Off(s.sn, base) < TWO31
    ensures var a := ScanAcks(segs);
            && (a.seen <==> exists s :: s in segs && s.cmd == CMD_ACK)
            && (a.seen ==> (exists s :: s in segs && s.cmd == CMD_ACK && s.sn == a.maxack)
                           && forall s :: s in segs && s.cmd == CMD_ACK ==> Off(s.sn, base) <= Off(a.maxack, base))
  {
    if segs != [] {
      var last := |segs| - 1;
      var before, s := segs[..last], segs[last];
      assert forall x :: x in segs <==> x in before || x == s;
      MaxAckIsHighest(before, base);
      var a := ScanAcks(before);
      if s.cmd == CMD_ACK && a.seen {
        TimeDiffByOff(s.sn, a.maxack, base);
      }
      hide Off, TimeDiff;
    }
  }

  // ---------- when ----------

  /** A timer set `d` ahead of the clock has not run out exactly if `d` is positive and at most 2^31. */
  lemma {:induction false} TimerArmedIff(now: u32, d: u32)
    ensures TimeDiff(now, Wrap(now + d)) < 0 <==> 0 < d <= TWO31
  {
    var n: int, e: int := now, d;
    WrapIs(n, 0);
    OffOfWraps(n, n + e);
    WrapIs(-e, if e == 0 then 0 else 1);
  }

  /** Sent before, and its timer has run out. */
  predicate RunOut(k: Kcb, s: Segment) {
    s.xmit != 0 && TimeDiff(k.clock.current, s.resendts) >= 0
  }

  /** Sent before, its timer still running, but overtaken often enough and not sent too often. */
  predicate Overtaken(k: Kcb, s: Segment) {
    && s.xmit != 0 && TimeDiff(k.clock.current, s.resendts) < 0
    && s.fastack >= SkipLimit(k.cfg) && (Signed(s.xmit) <= k.cfg.fastLimit || k.cfg.fastLimit <= 0)
  }

  function SkipLimit(cfg: Config): u32 {
    if cfg.fastResend > 0 then cfg.fastResend else 0xffff_ffff
  }

  /** A segment as it is put on the wire now: with the time, the free window and `rcv_nxt`. */
  function Dated(k: Kcb, s: Segment): Segment {
    s.(ts := k.clock.current, wnd := Max(0, k.cfg.rcvWnd - |k.rcv.queue|), una := k.rcv.nxt)
  }

  /** How long a segment waits after a timeout, in arithmetic without bound: at least twice as long, longer by
      one half of it (taken as a signed number), or longer by one half of the measured timeout. */
  function Longer(nodelay: u32, rto: u32, rx: int): int {
    if nodelay == 0 then rto + Max(rto, rx)
    else if nodelay == 1 then rto + (if rto < TWO31 then rto / 2 else -((TWO32 - rto) / 2))
    else rto + rx / 2
  }

  lemma {:induction false} BackOffIs(p: Policy, rto: u32)
    requires p.st.rto < TWO31
    ensures BackOff(p, rto) == Wrap(Longer(p.nodelay, rto, p.st.rto))
  {
    hide Wrap;
  }

  lemma {:induction false} FateIs(k: Kcb, s: Segment)
    ensures FateOf(PolicyOf(k), s) == if s.xmit == 0 then First
                                      else if RunOut(k, s) then Timeout
                                      else if Overtaken(k, s) then Fast else Quiet
  {
    hide TimeDiff, Signed;
    assert PolicyOf(k).st.now == k.clock.current && PolicyOf(k).resent == SkipLimit(k.cfg);
  }

  lemma {:induction false} PolicyIs(k: Kcb)
    requires Inv(k)
    ensures var p, rx := PolicyOf(k), k.rtt.rto;
            && p.st == Stamp(k.cfg.conv, k.clock.current, Max(0, k.cfg.rcvWnd - |k.rcv.queue|), k.rcv.nxt, rx)
            && p.st == StampOf(k) && 0 < rx <= RTO_MAX
            && p.rtomin == (if k.cfg.nodelay == 0 then rx / 8 else 0) && p.nodelay == k.cfg.nodelay
            && p.resent == SkipLimit(k.cfg)
  {
    hide SndInv, Good;
    WrapIs(k.rtt.rto, 0);
  }

  /** What a flush at time `current` makes of one segment of `snd_buf`. */
  ghost predicate Passed(k: Kcb, s: Segment, s': Segment)
    requires Inv(k)
  {
    var now, rx := k.clock.current, k.rtt.rto;
    var longer, again := Wrap(Longer(k.cfg.nodelay, s.rto, rx)), Dated(k, s).(xmit := Wrap(s.xmit + 1));
    && (s.xmit == 0 ==>
          s' == again.(rto := rx, resendts := Wrap(now + rx + if k.cfg.nodelay == 0 then rx / 8 else 0)))
    && (RunOut(k, s) ==> s' == again.(rto := longer, resendts := Wrap(now + longer)))
    && (Overtaken(k, s) ==> s' == again.(fastack := 0, resendts := Wrap(now + s.rto)))
    && (s.xmit != 0 && !RunOut(k, s) && !Overtaken(k, s) ==> s' == s)
  }

  lemma {:induction false} TouchPasses(k: Kcb, s: Segment)
    requires Inv(k)
    ensures Passed(k, s, Touch(PolicyOf(k), s))
  {
    hide Inv, PolicyOf, TimeDiff, Signed, Wrap, Longer, BackOff, RunOut, Overtaken, FateOf;
    PolicyIs(k);
    FateIs(k, s);
    BackOffIs(PolicyOf(k), s.rto);
    RunOutOrNot(k, s);
  }

  lemma {:induction false} RunOutOrNot(k: Kcb, s: Segment)
    ensures RunOut(k, s) ==> s.xmit != 0
    ensures Overtaken(k, s) ==> s.xmit != 0 && !RunOut(k, s)
  {
    hide TimeDiff, Signed;
  }

  /** A segment from `snd_queue` with the next number, sent for the first time. */
  function FirstSent(k: Kcb, s: Segment, sn: u32): Segment
    requires Inv(k)
  {
    var now, rx := k.clock.current, k.rtt.rto;
    Segment(k.cfg.conv, CMD_PUSH, s.frg, Max(0, k.cfg.rcvWnd - |k.rcv.queue|), now, sn, k.rcv.nxt, s.data,
            Wrap(now + rx + if k.cfg.nodelay == 0 then rx / 8 else 0), rx, 0, 1)
  }

  lemma {:induction false} NumberedPasses(k: Kcb, s: Segment, sn: u32)
    requires Inv(k)
    ensures Touch(PolicyOf(k), Numbered(s, sn, StampOf(k))) == FirstSent(k, s, sn)
  {
    hide Inv, PolicyOf, StampOf, TimeDiff, Signed, BackOff;
    PolicyIs(k);
    WrapIs(1, 0);
    hide Wrap;
  }

  lemma {:induction false} AdmittedIs(k: Kcb)
    requires Inv(k)
    ensures var b, q, c := k.snd.buf, k.snd.queue, Admit(k.snd, SendWindow(k), StampOf(k)).buf;
            && |b| <= |c| <= |b| + |q|
            && (forall i :: 0 <= i < |b| ==> c[i] == b[i])
            && (forall i :: |b| <= i < |c| ==> c[i] == Numbered(q[i - |b|], Wrap(k.snd.nxt + i - |b|), StampOf(k)))
  {
    SendWindowIs(k);
    hide Inv, SendWindow, StampOf, Admit, Off, Wrap, Numbered;
    AdmitMeans(k.snd, SendWindow(k), StampOf(k));
  }

  /** A flush, field by field. A segment never sent is sent with the measured timeout, and an eighth of grace
      unless in nodelay mode. One whose timer ran out is sent again and waits longer than before; one that
      was overtaken is sent again and waits as long as before. All others stay as they are. Behind them
      come segments from `snd_queue`, with the next numbers and sent for the first time. */
  lemma {:induction false} FlushSegments(k: Kcb)
    requires Inv(k) && k.clock.updated
    ensures var b, q, a := k.snd.buf, k.snd.queue, Flush(k).k.snd.buf;
            && |b| <= |a| <= |b| + |q|
            && (forall i :: 0 <= i < |b| ==> Passed(k, b[i], a[i]))
            && (forall i :: |b| <= i < |a| ==> a[i] == FirstSent(k, q[i - |b|], Wrap(k.snd.nxt + i - |b|)))
  {
    hide Inv, Flush, PolicyOf, SendWindow, StampOf, Admit, Passed, FirstSent, Touch, Numbered, Wrap;
    FlushTouches(k);
    AdmittedIs(k);
    var b, c := k.snd.buf, Admit(k.snd, SendWindow(k), StampOf(k)).buf;
    forall i | 0 <= i < |b| ensures Passed(k, b[i], Flush(k).k.snd.buf[i]) {
      TouchPasses(k, b[i]);
    }
    forall i | |b| <= i < |c|
      ensures Flush(k).k.snd.buf[i] == FirstSent(k, k.snd.queue[i - |b|], Wrap(k.snd.nxt + i - |b|))
    {
      NumberedPasses(k, k.snd.queue[i - |b|], Wrap(k.snd.nxt + i - |b|));
    }
  }

  lemma {:induction false} FlushTouches(k: Kcb)
    requires k.clock.updated
    ensures var c, a := Admit(k.snd, SendWindow(k), StampOf(k)).buf, Flush(k).k.snd.buf;
            |a| == |c| && forall i :: 0 <= i < |c| ==> a[i] == Touch(PolicyOf(k), c[i])
  {
    hide Flush, Admit, SendWindow, StampOf, PolicyOf, Touch;
    FlushShape(k);
  }

  lemma {:induction false} LongerMeans(nodelay: u32, rto: u32, rx: int)
    requires rto <= 0x4000_0000 && 0 <= rx <= RTO_MAX
    ensures var r := Longer(nodelay, rto, rx);
            && Wrap(r) == r && rto <= r <= 0x8000_0000
            && (nodelay == 0 ==> r == Max(2 * rto, rto + rx))
            && (nodelay == 1 ==> r == rto + rto / 2)
            && (nodelay >= 2 ==> r == rto + rx / 2)
  {
    WrapIs(Longer(nodelay, rto, rx), 0);
    hide Wrap;
  }

  /** The back-off after a timeout: it doubles at least, grows by one half, or grows by half the measured
      timeout; it does not wrap for timeouts up to 2^30. */
  lemma {:induction false} FlushBacksOff(k: Kcb, i: nat)
    requires Inv(k) && k.clock.updated && i < |k.snd.buf| && RunOut(k, k.snd.buf[i])
    requires k.snd.buf[i].rto <= 0x4000_0000
    ensures |k.snd.buf| <= |Flush(k).k.snd.buf|
    ensures var rto, s := k.snd.buf[i].rto, Flush(k).k.snd.buf[i];
            && (k.cfg.nodelay == 0 ==> s.rto == Max(2 * rto, rto + k.rtt.rto))
            && (k.cfg.nodelay == 1 ==> s.rto == rto + rto / 2)
            && (k.cfg.nodelay >= 2 ==> s.rto == rto + k.rtt.rto / 2)
            && rto <= s.rto <= 0x8000_0000 && s.resendts == Wrap(k.clock.current + s.rto)
            && s.xmit == Wrap(k.snd.buf[i].xmit + 1)
  {
    PolicyIs(k);
    hide Inv, Flush, RunOut, Overtaken, Longer, Wrap, FirstSent, PolicyOf, StampOf;
    FlushSegments(k);
    LongerMeans(k.cfg.nodelay, k.snd.buf[i].rto, k.rtt.rto);
  }

  lemma {:induction false} PassedArmsIff(k: Kcb, s: Segment, s': Segment)
    requires Inv(k) && Passed(k, s, s')
    ensures TimeDiff(k.clock.current, s'.resendts) < 0
            <==> !(RunOut(k, s) || Overtaken(k, s)) || 0 < s'.rto <= TWO31
  {
    PolicyIs(k);
    RunOutOrNot(k, s);
    var now := k.clock.current;
    assert s.xmit != 0 && !RunOut(k, s) ==> TimeDiff(now, s.resendts) < 0;
    hide Inv, TimeDiff, Wrap, Longer, RunOut, Overtaken, PolicyOf, StampOf;
    TimerArmedIff(now, s'.rto);
    if s.xmit == 0 {
      TimerArmedIff(now, k.rtt.rto + if k.cfg.nodelay == 0 then k.rtt.rto / 8 else 0);
    }
  }

  lemma {:induction false} FirstSentArmed(k: Kcb, s: Segment, sn: u32)
    requires Inv(k)
    ensures TimeDiff(k.clock.current, FirstSent(k, s, sn).resendts) < 0
  {
    PolicyIs(k);
    hide Inv, TimeDiff, Wrap, PolicyOf, StampOf;
    TimerArmedIff(k.clock.current, k.rtt.rto + if k.cfg.nodelay == 0 then k.rtt.rto / 8 else 0);
  }

  /** After a flush the timer of a segment is running, unless it was sent again with a timeout that was 0 or
      had grown beyond 2^31. */
  lemma {:induction false} FlushArmsIff(k: Kcb, i: nat)
    requires Inv(k) && k.clock.updated && i < |Flush(k).k.snd.buf|
    ensures var b, s := k.snd.buf, Flush(k).k.snd.buf[i];
            TimeDiff(k.clock.current, s.resendts) < 0
            <==> !(i < |b| && (RunOut(k, b[i]) || Overtaken(k, b[i]))) || 0 < s.rto <= TWO31
  {
    hide Inv, Flush, TimeDiff, Wrap, RunOut, Overtaken, Passed, FirstSent;
    FlushSegments(k);
    var b := k.snd.buf;
    if i < |b| {
      PassedArmsIff(k, b[i], Flush(k).k.snd.buf[i]);
    } else {
      FirstSentArmed(k, k.snd.queue[i - |b|], Wrap(k.snd.nxt + i - |b|));
    }
  }

  // ---------- what is counted ----------

  /** The places in `snd_buf` whose timers have run out. */
  function RunOutAt(k: Kcb): set<nat> {
    set i: nat | i < |k.snd.buf| && RunOut(k, k.snd.buf[i])
  }

  /** The places in `snd_buf` that were overtaken often enough. */
  function OvertakenAt(k: Kcb): set<nat> {
    set i: nat | i < |k.snd.buf| && Overtaken(k, k.snd.buf[i])
  }

  lemma {:induction false} FatedIs(p: Policy, buf: seq<Segment>, f: Fate, at: set<nat>)
    requires forall i: nat :: i in at <==> i < |buf| && FateOf(p, buf[i]) == f
    ensures Fated(p, buf, f) == |at|
  {
    hide FateOf;
    if buf == [] {
      assert at == {};
    } else {
      var last := |buf| - 1;
      FatedIs(p, buf[..last], f, at - {last});
    }
  }

  /** Segments numbered by this flush meet neither fate. */
  lemma {:induction false} FatedAdmitted(k: Kcb)
    requires Inv(k)
    ensures var p, c := PolicyOf(k), Admit(k.snd, SendWindow(k), StampOf(k)).buf;
            Fated(p, c, Timeout) == |RunOutAt(k)| && Fated(p, c, Fast) == |OvertakenAt(k)|
  {
    hide Inv, PolicyOf, SendWindow, StampOf, Admit, Wrap, FateOf, RunOut, Overtaken;
    AdmittedIs(k);
    var p, b, c := PolicyOf(k), k.snd.buf, Admit(k.snd, SendWindow(k), StampOf(k)).buf;
    forall i: nat | i < |c|
      ensures FateOf(p, c[i]) == Timeout <==> i in RunOutAt(k)
      ensures FateOf(p, c[i]) == Fast <==> i in OvertakenAt(k)
    {
      FateIs(k, c[i]);
      if i < |b| {
        RunOutOrNot(k, b[i]);
      }
    }
    FatedIs(p, c, Timeout, RunOutAt(k));
    FatedIs(p, c, Fast, OvertakenAt(k));
  }

  /** A flush sends the segment at place `i` of the new `snd_buf`. */
  predicate Sends(k: Kcb, i: nat) {
    i < |k.snd.buf| ==>
      k.snd.buf[i].xmit == 0 || RunOut(k, k.snd.buf[i]) || Overtaken(k, k.snd.buf[i])
  }

  lemma {:induction false} SendsIffWanted(k: Kcb, i: nat)
    requires Inv(k) && i < |Admit(k.snd, SendWindow(k), StampOf(k)).buf|
    ensures Wanted(PolicyOf(k), Admit(k.snd, SendWindow(k), StampOf(k)).buf[i]) <==> Sends(k, i)
  {
    hide Inv, PolicyOf, SendWindow, StampOf, Admit, Wrap, FateOf, RunOut, Overtaken, Wanted;
    AdmittedIs(k);
    var s := Admit(k.snd, SendWindow(k), StampOf(k)).buf[i];
    WantedIsNotQuiet(PolicyOf(k), s);
    FateIs(k, s);
  }

  /** The places of the segments a flush sends, in order. */
  ghost predicate SentPlaces(k: Kcb, at: seq<nat>) {
    && (forall j, l :: 0 <= j < l < |at| ==> at[j] < at[l])
    && (forall i: nat :: i in at <==> i < |Flush(k).k.snd.buf| && Sends(k, i))
  }

  lemma {:induction false} DuePlaces(k: Kcb) returns (at: seq<nat>)
    requires Inv(k) && k.clock.updated
    ensures var a, due := Flush(k).k.snd.buf, Due(PolicyOf(k), Admit(k.snd, SendWindow(k), StampOf(k)).buf);
            && SentPlaces(k, at) && |due| == |at|
            && forall j :: 0 <= j < |at| ==> at[j] in at && at[j] < |a| && due[j] == a[at[j]]
  {
    FlushShape(k);
    var c := Admit(k.snd, SendWindow(k), StampOf(k)).buf;
    hide Inv, Flush, PolicyOf, SendWindow, StampOf, Admit, Wanted, Sends, Touch, Due;
    at := DueIsWanted(PolicyOf(k), c);
    forall i: nat | i < |c| ensures Wanted(PolicyOf(k), c[i]) <==> Sends(k, i) {
      SendsIffWanted(k, i);
    }
    forall i: nat ensures i in at <==> i < |c| && Sends(k, i) {
      if i in at {
        var j :| 0 <= j < |at| && at[j] == i;
      }
    }
  }

  /** What goes out behind the control segments: each segment that was never sent, has run out or was overtaken,
      once, in the order of `snd_buf` and with its new fields. */
  lemma {:induction false} FlushTransmits(k: Kcb) returns (at: seq<nat>)
    requires Inv(k) && k.clock.updated
    ensures var a, d := Flush(k).k.snd.buf, Decoded(k.cfg.conv, EncodeGroups(Flush(k).out));
            && SentPlaces(k, at) && |at| <= |d|
            && (forall i :: 0 <= i < |d| - |at| ==> d[i].cmd != CMD_PUSH)
            && (forall j :: 0 <= j < |at| ==> at[j] < |a| && d[|d| - |at| + j] == OnWire(a[at[j]]))
  {
    hide Inv, Flush, Decoded, Control, Due, Admit, SendWindow, StampOf, PolicyOf, ProbeTick, Template, OnWire,
         SentPlaces;
    at := DuePlaces(k);
    FlushDecoded(k);
    ControlCommands(k);
  }

  lemma {:induction false} ControlCommands(k: Kcb)
    ensures var c := Control(Template(k), k.rcv.acks, ProbeTick(k.probe, k.rmtWnd, k.clock.current));
            forall i :: 0 <= i < |c| ==> OnWire(c[i]).cmd != CMD_PUSH
  {
    var c := Control(Template(k), k.rcv.acks, ProbeTick(k.probe, k.rmtWnd, k.clock.current));
    ControlShape(k, ProbeTick(k.probe, k.rmtWnd, k.clock.current));
    hide Control, Template, ProbeTick, WndUnused;
    forall i | 0 <= i < |c| ensures OnWire(c[i]).cmd != CMD_PUSH {
      assert c[i] in c;
    }
  }

  lemma {:induction false} DeadIs(k: Kcb, at: seq<nat>, a: seq<Segment>, due: seq<Segment>)
    requires |due| == |at| && forall i: nat :: i in at <==> i < |a| && Sends(k, i)
    requires forall j :: 0 <= j < |at| ==> at[j] in at && at[j] < |a| && due[j] == a[at[j]]
    ensures AnyDead(due, k.cfg.deadLink)
            <==> exists i: nat :: i < |a| && Sends(k, i) && a[i].xmit >= k.cfg.deadLink
  {
    hide Sends;
    if i: nat :| i < |a| && Sends(k, i) && a[i].xmit >= k.cfg.deadLink {
      var j :| 0 <= j < |at| && at[j] == i;
      assert due[j].xmit >= k.cfg.deadLink;
    }
  }

  /** `xmit` of the control block counts the timeouts, and the link is declared dead exactly if a segment
      sent now has been sent `dead_link` times or more. */
  lemma {:induction false} FlushCounts(k: Kcb)
    requires Inv(k) && k.clock.updated
    ensures var a, k' := Flush(k).k.snd.buf, Flush(k).k;
            && k'.xmit == Wrap(k.xmit + |RunOutAt(k)|)
            && k'.state == (if exists i: nat :: i < |a| && Sends(k, i) && a[i].xmit >= k.cfg.deadLink then DEAD
                            else k.state)
  {
    hide Inv, Flush, Due, Admit, SendWindow, StampOf, PolicyOf, Sends, RunOutAt, Fated, AnyDead, Wrap;
    FlushTally(k);
    FatedAdmitted(k);
    var at := DuePlaces(k);
    DeadIs(k, at, Flush(k).k.snd.buf, Due(PolicyOf(k), Admit(k.snd, SendWindow(k), StampOf(k)).buf));
  }

  lemma {:induction false} FlushTally(k: Kcb)
    requires k.clock.updated
    ensures var c := Admit(k.snd, SendWindow(k), StampOf(k)).buf;
            && Flush(k).k.xmit == Wrap(k.xmit + Fated(PolicyOf(k), c, Timeout))
            && Flush(k).k.state == (if AnyDead(Due(PolicyOf(k), c), k.cfg.deadLink) then DEAD else k.state)
  {
    hide Admit, SendWindow, StampOf, TouchAll, Due, Fated, AfterFlush, Pack, Control, ProbeTick, AnyDead, Template,
         Wrap;
    assert PolicyOf(k).st == StampOf(k);
  }
}
