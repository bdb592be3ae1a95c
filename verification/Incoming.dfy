/** What `ikcp_input` makes of each part of the control block, on any bytes. */
module Incoming {
  import opened Serial
  import opened Seqs
  import opened Wire
  import opened Engine
  import opened SenderWindow
  import opened Receiver
  import opened Invariant
  import opened Retransmission

  /** The segments `ikcp_input` goes through before it stops. */
  function SegsIn(k: Kcb, data: Bytes): seq<Segment> {
    if |data| < OVERHEAD then [] else Parse(k.cfg.conv, data).segs
  }

  // ---------- the sending half ----------

  /** The numbers that are waiting for an acknowledgement. */
  function Numbers(buf: seq<Segment>): set<u32> {
    set s | s in buf :: s.sn
  }

  /** A segment acknowledges the number `sn`: by its `una`, or as an ACK for it. */
  predicate Clears(s: Segment, sn: u32) {
    TimeDiff(s.una, sn) > 0 || (s.cmd == CMD_ACK && s.sn == sn)
  }

  ghost predicate Cleared(segs: seq<Segment>, sn: u32) {
    exists s :: s in segs && Clears(s, sn)
  }

  /** Compared as signed, `una` is on the same side of all numbers in flight: it does not lie 2^31 behind one
      of them and less behind another. */
  predicate OneSided(snd: Snd, una: u32) {
    Off(una, snd.una) < TWO31 || Off(una, snd.una) > TWO31 + Off(snd.nxt, snd.una)
  }

  lemma {:induction false} UnaAgainst(snd: Snd, una: u32, sn: u32)
    requires Off(snd.nxt, snd.una) <= SPAN && Off(sn, snd.una) < Off(snd.nxt, snd.una) && OneSided(snd, una)
    ensures TimeDiff(una, sn) > 0 <==> Off(sn, snd.una) < TimeDiff(una, snd.una)
  {
    var o: int, d: int := Off(una, snd.una), Off(sn, snd.una);
    OffTwice(una, sn, snd.una);
    if o < d {
      WrapIs(o - d, 1);
    } else {
      WrapIs(o - d, 0);
    }
    hide Wrap;
  }

  lemma {:induction false} OffTwice(x: u32, y: u32, base: u32)
    ensures Wrap(x - y) == Wrap(Off(x, base) - Off(y, base))
  {
    WrapOff(x, base);
    WrapOff(y, base);
    OffOfWraps(base + Off(x, base), base + Off(y, base));
  }

  lemma {:induction false} OneSidedLater(snd: Snd, snd': Snd, una: u32)
    requires OneSided(snd, una) && Off(snd.nxt, snd.una) <= SPAN && snd'.nxt == snd.nxt
    requires Off(snd'.una, snd.una) + Off(snd'.nxt, snd'.una) == Off(snd.nxt, snd.una)
    ensures OneSided(snd', una)
  {
    var o: int, d: int := Off(una, snd.una), Off(snd'.una, snd.una);
    OffTwice(una, snd'.una, snd.una);
    if o < d {
      WrapIs(o - d, 1);
    } else {
      WrapIs(o - d, 0);
    }
    hide Wrap;
  }

  /** The cumulative acknowledgement of one segment. */
  lemma {:induction false} UnaClears(snd: Snd, una: u32)
    requires Window(snd) && OneSided(snd, una)
    ensures Numbers(TakeUna(snd, una).buf) == set n | n in Numbers(snd.buf) && TimeDiff(una, n) <= 0
  {
    var n := TakeUnaMeans(snd, una);
    var b := snd.buf;
    hide TakeUna, TimeDiff, Off, OneSided;
    forall i | 0 <= i < |b| ensures i < n <==> TimeDiff(una, b[i].sn) > 0 {
      UnaAgainst(snd, una, b[i].sn);
    }
    assert forall s :: s in b[n..] <==> exists i :: n <= i < |b| && b[i] == s;
  }

  lemma {:induction false} NumbersWithout(b: seq<Segment>, m: nat)
    requires m < |b| && forall i :: 0 <= i < |b| && i != m ==> b[i].sn != b[m].sn
    ensures Numbers(b[..m] + b[m + 1..]) == Numbers(b) - {b[m].sn}
    ensures forall s :: s in b[..m] + b[m + 1..] ==> s in b
  {
    var c := b[..m] + b[m + 1..];
    forall i | 0 <= i < |b| && i != m ensures b[i] in c {
      assert b[i] == c[if i < m then i else i - 1];
    }
    forall s | s in c ensures s in b && s.sn != b[m].sn {
      var i :| 0 <= i < |c| && c[i] == s;
      assert s == b[if i < m then i else i + 1];
    }
  }

  lemma {:induction false} OthersDiffer(buf: seq<Segment>, base: u32, top: int, m: nat)
    requires Ascending(buf, base, top) && m < |buf|
    ensures forall i :: 0 <= i < |buf| && i != m ==> buf[i].sn != buf[m].sn
  {
    hide Off;
  }

  /** The selective acknowledgement of one segment. */
  lemma {:induction false} AckClears(snd: Snd, sn: u32)
    requires Window(snd)
    ensures Numbers(TakeAck(snd, sn).buf) == Numbers(snd.buf) - {sn}
    ensures forall s :: s in TakeAck(snd, sn).buf ==> s in snd.buf
  {
    var m := TakeAckMeans(snd, sn);
    hide TakeAck, Off, Ascending;
    if m < |snd.buf| {
      OthersDiffer(snd.buf, snd.una, Off(snd.nxt, snd.una), m);
      NumbersWithout(snd.buf, m);
    }
  }

  lemma {:induction false} SndStepIs(snd: Snd, s: Segment)
    ensures SndStep(snd, s) == if s.cmd == CMD_ACK then TakeAck(TakeUna(snd, s.una), s.sn) else TakeUna(snd, s.una)
    ensures TakeUna(snd, s.una).nxt == snd.nxt && SndStep(snd, s).nxt == snd.nxt
  {
    hide DropAcked, RemoveSn;
  }

  lemma {:induction false} StepAdvances(snd: Snd, s: Segment)
    requires Window(snd)
    ensures Window(TakeUna(snd, s.una)) && Window(SndStep(snd, s)) && SndStep(snd, s).nxt == snd.nxt
    ensures Off(SndStep(snd, s).una, snd.una) + Off(snd.nxt, SndStep(snd, s).una) == Off(snd.nxt, snd.una)
    ensures forall x :: x in SndStep(snd, s).buf ==> x in snd.buf
  {
    hide TakeUna, TakeAck, Window, Off, SndStep, Numbers;
    SndStepIs(snd, s);
    var snd1 := TakeUna(snd, s.una);
    var n := TakeUnaMeans(snd, s.una);
    if s.cmd == CMD_ACK {
      var m := TakeAckMeans(snd1, s.sn);
      AckClears(snd1, s.sn);
      AdvanceTwice(snd.una, snd1.una, TakeAck(snd1, s.sn).una, snd.nxt);
    }
  }

  lemma {:induction false} StepClears(snd: Snd, s: Segment)
    requires Window(snd) && OneSided(snd, s.una)
    ensures Numbers(SndStep(snd, s).buf) == set n | n in Numbers(snd.buf) && !Clears(s, n)
  {
    hide TakeUna, TakeAck, Window, Off, Numbers, TimeDiff, OneSided, SndStep;
    SndStepIs(snd, s);
    UnaClears(snd, s.una);
    StepAdvances(snd, s);
    if s.cmd == CMD_ACK {
      AckClears(TakeUna(snd, s.una), s.sn);
    }
  }

  lemma {:induction false} AdvanceTwice(a: u32, b: u32, c: u32, top: u32)
    requires Off(b, a) + Off(top, b) == Off(top, a) && Off(c, b) + Off(top, c) == Off(top, b)
    ensures Off(c, a) + Off(top, c) == Off(top, a)
  {
    var d, e := Off(b, a), Off(c, b);
    WrapOff(b, a);
    WrapOff(c, b);
    WrapAdd(a + d, e);
    OffAhead(a, d + e);
    hide Off, Wrap;
  }

  lemma {:induction false} StepsClear(k: Kcb, segs: seq<Segment>)
    requires Window(k.snd)
    ensures var snd := Steps(k, segs).snd;
            && Window(snd) && snd.nxt == k.snd.nxt
            && Off(snd.una, k.snd.una) + Off(snd.nxt, snd.una) == Off(k.snd.nxt, k.snd.una)
            && (forall x :: x in snd.buf ==> x in k.snd.buf)
            && ((forall s :: s in segs ==> OneSided(k.snd, s.una)) ==>
                  Numbers(snd.buf) == set n | n in Numbers(k.snd.buf) && !Cleared(segs, n))
  {
    hide SndStep, RcvStep, RttStep, Numbers, Clears, Window, OneSided, Off;
    if segs == [] {
      OffSelf(k.snd.una);
    } else {
      var init, s := segs[..|segs| - 1], segs[|segs| - 1];
      StepsClear(k, init);
      var snd1 := Steps(k, init).snd;
      StepAdvances(snd1, s);
      AdvanceTwice(k.snd.una, snd1.una, SndStep(snd1, s).una, k.snd.nxt);
      assert forall x :: x in segs <==> x in init || x == s;
      if forall x :: x in segs ==> OneSided(k.snd, x.una) {
        WindowSpan(k.snd);
        OneSidedLater(k.snd, snd1, s.una);
        StepClears(snd1, s);
        assert forall n :: Cleared(segs, n) <==> Cleared(init, n) || Clears(s, n);
      }
    }
  }

  lemma {:induction false} OffSelf(x: u32)
    ensures Off(x, x) == 0
  {
  }

  lemma {:induction false} WindowSpan(snd: Snd)
    requires Window(snd)
    ensures Off(snd.nxt, snd.una) <= SPAN
  {
    hide Off;
  }

  lemma {:induction false} InputIs(k: Kcb, data: Bytes)
    ensures var k1, k', ret := Steps(k, SegsIn(k, data)), Input(k, data).0, Input(k, data).1;
            && (ret != 0 ==> k' == k1)
            && (ret == 0 ==> k' == Settle(k1, k.snd.una, ScanAcks(SegsIn(k, data))))
            && (ret == 0 <==> |data| >= OVERHEAD && Parse(k.cfg.conv, data).ret == 0)
  {
    hide Parse, Settle, ScanAcks;
  }

  lemma {:induction false} SettleBuf(k: Kcb, prev: u32, a: AckScan)
    ensures Settle(k, prev, a).snd == if a.seen then TakeFast(k.snd, a.maxack) else k.snd
  {
    hide TakeFast, Grow;
  }

  lemma {:induction false} NumbersSame(a: seq<Segment>, b: seq<Segment>)
    requires SameCores(a, b)
    ensures Numbers(a) == Numbers(b)
  {
    forall s | s in a ensures s.sn in Numbers(b) {
      var i :| 0 <= i < |a| && a[i] == s;
      assert b[i] in b;
    }
    forall s | s in b ensures s.sn in Numbers(a) {
      var i :| 0 <= i < |b| && b[i] == s;
      assert a[i] in a;
    }
  }

  /** What waits for an acknowledgement after `ikcp_input`, on any bytes: exactly the numbers that waited before
      and that no segment of the datagram acknowledges, in whatever order and however often it does. */
  lemma {:induction false} InputClears(k: Kcb, data: Bytes)
    requires Inv(k) && forall s :: s in SegsIn(k, data) ==> OneSided(k.snd, s.una)
    ensures var snd := Input(k, data).0.snd;
            && Numbers(snd.buf) == (set n | n in Numbers(k.snd.buf) && !Cleared(SegsIn(k, data), n))
            && Window(snd) && snd.nxt == k.snd.nxt && snd.queue == k.snd.queue
  {
    hide SegsIn, Numbers, Cleared, Window, Input, Good, RttInv, Small, Stamped, Settle, OneSided, ScanAcks, TakeFast,
         Off;
    var segs := SegsIn(k, data);
    var k1, a := Steps(k, segs), ScanAcks(segs);
    InputIs(k, data);
    StepsClear(k, segs);
    SettleBuf(k1, k.snd.una, a);
    if Input(k, data).1 == 0 && a.seen {
      TakeFastKeeps(k1.snd, a.maxack);
      NumbersSame(k1.snd.buf, TakeFast(k1.snd, a.maxack).buf);
    }
  }

  // ---------- overtaken ----------

  lemma {:induction false} TimeDiffMinus(m: u32, sn: u32, base: u32)
    requires -TWO31 <= TimeDiff(m, base) - Off(sn, base) < TWO31
    ensures TimeDiff(m, sn) == TimeDiff(m, base) - Off(sn, base)
  {
    var t: int, o: int, b: int := TimeDiff(m, base), Off(sn, base), base;
    TimeDiffBack(m, base);
    WrapOff(sn, base);
    TimeDiffExactIff(b + t, b + o);
  }

  /** An acknowledged number somewhere below `snd_nxt`, or a little behind `snd_una`. */
  predicate Plausible(snd: Snd, sn: u32) {
    -0x4000_0000 <= TimeDiff(sn, snd.una) < Off(snd.nxt, snd.una)
  }

  lemma {:induction false} SkipsAt(snd: Snd, m: u32)
    requires Window(snd) && -0x4000_0000 - SPAN <= TimeDiff(m, snd.una) < Off(snd.nxt, snd.una)
    ensures |TakeFast(snd, m).buf| == |snd.buf|
    ensures forall i :: 0 <= i < |snd.buf| ==>
              TakeFast(snd, m).buf[i] == if TimeDiff(m, snd.buf[i].sn) > 0
                                         then snd.buf[i].(fastack := Wrap(snd.buf[i].fastack + 1)) else snd.buf[i]
  {
    WindowSpan(snd);
    InFlightIff(snd, m);
    SignedOff(m, snd.una);
    hide TimeDiff, Off, Wrap, InFlight;
    forall i | 0 <= i < |snd.buf|
      ensures TimeDiff(m, snd.buf[i].sn) == TimeDiff(m, snd.una) - Off(snd.buf[i].sn, snd.una)
    {
      TimeDiffMinus(m, snd.buf[i].sn, snd.una);
    }
    if InFlight(snd, m) {
      BumpFastAt(snd.buf, m, snd.una);
    }
  }

  lemma {:induction false} SignedOff(x: u32, base: u32)
    ensures TimeDiff(x, base) == if Off(x, base) < TWO31 then Off(x, base) else Off(x, base) - TWO32
  {
    hide Wrap;
  }

  lemma {:induction false} HighestPlausible(snd: Snd, segs: seq<Segment>)
    requires Off(snd.nxt, snd.una) <= SPAN
    requires forall s :: s in segs && s.cmd == CMD_ACK ==> Plausible(snd, s.sn)
    ensures var a := ScanAcks(segs);
            && (a.seen <==> exists s :: s in segs && s.cmd == CMD_ACK)
            && (a.seen ==> Plausible(snd, a.maxack) && exists s :: s in segs && s.cmd == CMD_ACK && s.sn == a.maxack)
            && forall s :: s in segs && s.cmd == CMD_ACK ==> TimeDiff(s.sn, snd.una) <= TimeDiff(a.maxack, snd.una)
  {
    hide Off, TimeDiff, ScanAcks;
    var base := Wrap(snd.una - 0x4000_0000);
    forall s | s in segs && s.cmd == CMD_ACK
      ensures Off(s.sn, base) == TimeDiff(s.sn, snd.una) + 0x4000_0000
    {
      OffBehind(s.sn, snd.una, 0x4000_0000);
    }
    MaxAckIsHighest(segs, base);
  }

  /** The number kept by the scan lies above another exactly if some acknowledged number does. */
  lemma {:induction false} HighestAbove(snd: Snd, segs: seq<Segment>, sn: u32)
    requires Off(sn, snd.una) < Off(snd.nxt, snd.una) <= SPAN
    requires forall s :: s in segs && s.cmd == CMD_ACK ==> Plausible(snd, s.sn)
    ensures (ScanAcks(segs).seen && TimeDiff(ScanAcks(segs).maxack, sn) > 0)
            <==> exists s :: s in segs && s.cmd == CMD_ACK && TimeDiff(s.sn, sn) > 0
  {
    hide Off, TimeDiff, ScanAcks;
    HighestPlausible(snd, segs);
    forall s | s in segs && s.cmd == CMD_ACK
      ensures TimeDiff(s.sn, sn) == TimeDiff(s.sn, snd.una) - Off(sn, snd.una)
    {
      TimeDiffMinus(s.sn, sn, snd.una);
    }
  }

  lemma {:induction false} OffBehind(x: u32, base: u32, d: nat)
    requires 0 <= TimeDiff(x, base) + d < TWO31 && d < TWO31
    ensures Off(x, Wrap(base - d)) == TimeDiff(x, base) + d
  {
    var t: int, b: int := TimeDiff(x, base), base;
    TimeDiffBack(x, base);
    OffOfLift(b + t, b - d);
  }

  /** The counters for fast retransmission after `ikcp_input`: a segment that stays is counted as overtaken, once,
      exactly if the datagram was good and acknowledges some number above it. */
  lemma {:induction false} InputSkips(k: Kcb, data: Bytes, x': Segment) returns (x: Segment)
    requires Inv(k) && x' in Input(k, data).0.snd.buf
    requires forall s :: s in SegsIn(k, data) && s.cmd == CMD_ACK ==> Plausible(k.snd, s.sn)
    ensures x in k.snd.buf
    ensures x' == if Input(k, data).1 == 0
                     && exists s :: s in SegsIn(k, data) && s.cmd == CMD_ACK && TimeDiff(s.sn, x.sn) > 0
                  then x.(fastack := Wrap(x.fastack + 1)) else x
  {
    hide SegsIn, Window, Input, Good, RttInv, Small, Stamped, Settle, ScanAcks, TakeFast, Off, TimeDiff, Plausible,
         Wrap, Steps;
    var segs := SegsIn(k, data);
    var k1, a := Steps(k, segs), ScanAcks(segs);
    InputIs(k, data);
    StepsClear(k, segs);
    SettleBuf(k1, k.snd.una, a);
    if Input(k, data).1 == 0 {
      x := SkippedOnce(k.snd, k1.snd, segs, x');
    } else {
      x := x';
    }
  }

  lemma {:induction false} NumberInWindow(snd: Snd, x: Segment)
    requires Window(snd) && x in snd.buf
    ensures Off(x.sn, snd.una) < Off(snd.nxt, snd.una) <= SPAN
  {
    hide Off;
  }

  lemma {:induction false} SkippedOnce(snd: Snd, snd1: Snd, segs: seq<Segment>, x': Segment) returns (x: Segment)
    requires Window(snd) && Window(snd1) && snd1.nxt == snd.nxt && (forall s :: s in snd1.buf ==> s in snd.buf)
    requires Off(snd1.una, snd.una) + Off(snd1.nxt, snd1.una) == Off(snd.nxt, snd.una)
    requires forall s :: s in segs && s.cmd == CMD_ACK ==> Plausible(snd, s.sn)
    requires x' in (if ScanAcks(segs).seen then TakeFast(snd1, ScanAcks(segs).maxack) else snd1).buf
    ensures x in snd.buf
    ensures x' == if exists s :: s in segs && s.cmd == CMD_ACK && TimeDiff(s.sn, x.sn) > 0
                  then x.(fastack := Wrap(x.fastack + 1)) else x
  {
    hide ScanAcks, TakeFast, Off, TimeDiff, Wrap, Window;
    WindowSpan(snd);
    WindowSpan(snd1);
    var a := ScanAcks(segs);
    x := x';
    if a.seen {
      HighestPlausible(snd, segs);
      TimeDiffMinus(a.maxack, snd1.una, snd.una);
      SkipsAt(snd1, a.maxack);
      var i :| 0 <= i < |snd1.buf| && TakeFast(snd1, a.maxack).buf[i] == x';
      x := snd1.buf[i];
      NumberInWindow(snd, x);
      HighestAbove(snd, segs, x.sn);
    } else {
      NumberInWindow(snd, x);
      HighestAbove(snd, segs, x.sn);
    }
  }

  // ---------- the rest, segment by segment ----------

  /** The parts of the control block that only the segments move, one after another. */
  ghost predicate Alike(k: Kcb, j: Kcb) {
    && k.cfg == j.cfg && k.clock == j.clock
    && k.rcv == j.rcv && k.rtt == j.rtt && k.probe == j.probe && k.rmtWnd == j.rmtWnd
  }

  lemma {:induction false} StepsAlike(k: Kcb, j: Kcb, segs: seq<Segment>)
    requires Alike(k, j)
    ensures Alike(Steps(k, segs), Steps(j, segs))
  {
    hide SndStep, RcvStep, RttStep;
    if segs != [] {
      StepsAlike(k, j, segs[..|segs| - 1]);
    }
  }

  lemma {:induction false} StepsAppend(k: Kcb, a: seq<Segment>, b: seq<Segment>)
    ensures Steps(k, a + b) == Steps(Steps(k, a), b)
  {
    hide Step;
    if b == [] {
      assert a + b == a;
    } else {
      var last := |b| - 1;
      assert (a + b)[..|a + b| - 1] == a + b[..last] && (a + b)[|a + b| - 1] == b[last];
      StepsAppend(k, a, b[..last]);
    }
  }

  lemma {:induction false} SettleAlike(k: Kcb, prev: u32, a: AckScan)
    ensures Alike(Settle(k, prev, a), k)
  {
    hide TakeFast, Grow;
  }

  lemma {:induction false} InputAlike(k: Kcb, data: Bytes)
    ensures Alike(Input(k, data).0, Steps(k, SegsIn(k, data)))
  {
    hide Input, Steps, Settle, SegsIn, ScanAcks;
    InputIs(k, data);
    SettleAlike(Steps(k, SegsIn(k, data)), k.snd.una, ScanAcks(SegsIn(k, data)));
  }

  lemma {:induction false} SegsInEncoded(k: Kcb, segs: seq<Segment>)
    requires forall s :: s in segs ==> Sendable(k.cfg.conv, s) && OnWire(s) == s
    ensures SegsIn(k, EncodeAll(segs)) == segs
  {
    if segs == [] {
      assert EncodeAll(segs) == [];
    } else {
      assert |EncodeAll(segs)| >= 24;
      hide Parse, EncodeAll, OnWire;
      ParseEncodeAll(k.cfg.conv, segs);
      forall i | 0 <= i < |segs| ensures OnWire(segs[i]) == segs[i] {
        assert segs[i] in segs;
      }
      assert AllOnWire(segs) == segs;
    }
  }

  lemma {:induction false} SegsAre(k: Kcb, data: Bytes)
    ensures EncodeAll(SegsIn(k, data)) <= data
    ensures forall s :: s in SegsIn(k, data) ==> Sendable(k.cfg.conv, s) && OnWire(s) == s
  {
    hide Parse, Encode, OnWire, Sendable;
    EncodeAllParse(k.cfg.conv, data);
  }

  lemma {:induction false} StepsSplit(k: Kcb, a: seq<Segment>, s: Segment)
    requires forall x :: x in a ==> Sendable(k.cfg.conv, x) && OnWire(x) == x
    requires Sendable(k.cfg.conv, s) && OnWire(s) == s
    ensures Alike(Steps(k, a + [s]), Input(Input(k, EncodeAll(a)).0, Encode(s)).0)
  {
    hide SegsIn, EncodeAll, Encode, Input, Steps, OnWire, Sendable;
    var k1 := Input(k, EncodeAll(a)).0;
    StepsAppend(k, a, [s]);
    InputAlike(k, EncodeAll(a));
    SegsInEncoded(k, a);
    StepsAlike(k1, Steps(k, a), [s]);
    InputAlike(k1, Encode(s));
    EncodeAllOne(s);
    SegsInEncoded(k1, [s]);
  }

  /** Bytes that cannot be decoded do nothing, and a datagram does to these parts of the control block what its
      segments do, each sent in a datagram of its own. With the lemmas on single segments this gives the effect
      of any bytes. */
  lemma {:induction false} InputSplits(k: Kcb, data: Bytes)
    ensures SegsIn(k, data) == [] ==> Input(k, data).0 == k
    ensures SegsIn(k, data) != [] ==>
            var segs := SegsIn(k, data);
            var last := |segs| - 1;
            && EncodeAll(segs) <= data && Sendable(k.cfg.conv, segs[last]) && OnWire(segs[last]) == segs[last]
            && Alike(Input(k, data).0, Input(Input(k, EncodeAll(segs[..last])).0, Encode(segs[last])).0)
  {
    hide SegsIn, EncodeAll, Encode, Input, Steps, OnWire, Sendable;
    var segs := SegsIn(k, data);
    if segs == [] {
      InputNothing(k, data);
    } else {
      var init, s := segs[..|segs| - 1], segs[|segs| - 1];
      SegsAre(k, data);
      assert s in segs && forall x :: x in init ==> x in segs;
      assert segs == init + [s];
      InputAlike(k, data);
      StepsSplit(k, init, s);
    }
  }

  lemma {:induction false} InputNothing(k: Kcb, data: Bytes)
    requires SegsIn(k, data) == []
    ensures Input(k, data).0 == k
  {
    OffSelf(k.snd.una);
    assert TimeDiff(k.snd.una, k.snd.una) == 0;
    hide Grow, DecodeHead;
  }

  /** What one segment does to what is known of the peer's window. */
  lemma {:induction false} InputAnnounces(k: Kcb, s: Segment)
    requires Sendable(k.cfg.conv, s) && OnWire(s) == s
    ensures Input(k, Encode(s)).0.rmtWnd == s.wnd && Input(k, Encode(s)).1 == 0
    ensures s.cmd != CMD_PUSH ==> Input(k, Encode(s)).0.rcv == k.rcv
  {
    OneStep(k, s);
    hide SndStep, TakePush, RttStep, Sendable, OnWire, Encode, Input;
  }

  lemma {:induction false} OneStep(k: Kcb, s: Segment)
    requires Sendable(k.cfg.conv, s) && OnWire(s) == s
    ensures Alike(Input(k, Encode(s)).0, Step(k, s)) && Input(k, Encode(s)).1 == 0
  {
    InputIs(k, Encode(s));
    hide Parse, Encode, Input, Step, OnWire, Sendable;
    InputAlike(k, Encode(s));
    EncodeAllOne(s);
    SegsInEncoded(k, [s]);
    ParseEncodeAll(k.cfg.conv, [s]);
    assert [s][..0] == [] && Steps(k, []) == k;
  }

  /** What one data segment does to the receiving half, whose set of received numbers is `have`: its number joins
      the set exactly if it lies in the window; it is acknowledged, with the time it carries, exactly if it lies
      below the end of the window by no more than 2^31; otherwise nothing changes. */
  lemma {:induction false} InputPush(k: Kcb, s: Segment, r: int, have: iset<int>, read: int) returns (r': int)
    requires Sendable(k.cfg.conv, s) && OnWire(s) == s && s.cmd == CMD_PUSH
    requires Models(k.rcv, k.cfg.rcvWnd, r, have, read)
    ensures var rcv, wnd, n := Input(k, Encode(s)).0.rcv, k.cfg.rcvWnd, r + TimeDiff(s.sn, k.rcv.nxt);
            && Models(rcv, wnd, r', if r <= n < r + wnd then have + iset{n} else have, read)
            && rcv.acks == (if r + wnd - TWO31 <= n < r + wnd then k.rcv.acks + [Ack(s.sn, s.ts)] else k.rcv.acks)
            && (n < r + wnd - TWO31 || r + wnd <= n ==> rcv == k.rcv)
            && k.rcv.queue <= rcv.queue
  {
    hide Input, Models, TakePush, SndStep, RttStep, Sendable, OnWire, Encode, TimeDiff;
    OneStep(k, s);
    r' := PushRefines(k.rcv, k.cfg.rcvWnd, s, r, have, read);
  }

  /** The return code of `ikcp_input`: -1 for less than a header at the start, and otherwise what stopped the
      decoder. */
  lemma {:induction false} InputReturns(k: Kcb, data: Bytes)
    ensures EncodeAll(SegsIn(k, data)) <= data
    ensures var rest, ret := data[|EncodeAll(SegsIn(k, data))|..], Input(k, data).1;
            && ret == (if |data| < 24 then -1
                       else if |rest| < 24 then 0
                       else if Value(rest[0..4]) != k.cfg.conv then -1
                       else if Value(rest[20..24]) > |rest| - 24 || Value(rest[20..24]) >= TWO31 then -2
                       else -3)
            && (ret == -3 ==> rest[4] != 81 && rest[4] != 82 && rest[4] != 83 && rest[4] != 84)
  {
    ParseStops(k.cfg.conv, data);
    RetIs(k, data);
    hide Input, Parse, Value;
    if |data| < OVERHEAD {
      assert EncodeAll([]) == [];
    }
  }

  lemma {:induction false} RetIs(k: Kcb, data: Bytes)
    ensures Input(k, data).1 == if |data| < OVERHEAD then -1 else Parse(k.cfg.conv, data).ret
  {
    hide Parse, Settle, Steps, ScanAcks;
  }
}
