/** One direction of a session: what ties the sender's numbered fragments to the receiver's buffers
    when their low 32 bits travel over a network that loses, repeats and reorders datagrams.
    Numbers without bound live only here; the two endpoints compute on their low 32 bits. */
module Delivery {
  import opened Serial
  import opened Seqs
  import opened Wire
  import opened Engine
  import opened SenderWindow
  import opened Receiver
  import opened Messages

  /** Segment `s` carries the fragment with number `n`. */
  ghost predicate Carries(s: Segment, n: int, sent: seq<Frag>) {
    0 <= n < |sent| && Frag(s.frg, s.data) == sent[n]
  }

  /** The number of a segment of `snd_buf`, when `total` numbers have been given out. */
  function Number(snd: Snd, total: int, sn: u32): int {
    total - Off(snd.nxt, snd.una) + Off(sn, snd.una)
  }

  ghost predicate SndOk(snd: Snd, sent: seq<Frag>) {
    && Window(snd)
    && snd.nxt == Wrap(|sent|)
    && Off(snd.nxt, snd.una) <= |sent|
    && forall i :: 0 <= i < |snd.buf| ==> Carries(snd.buf[i], Number(snd, |sent|, snd.buf[i].sn), sent)
  }

  /** The fragments passed to the receiving queue so far: `read` ones were taken from it. */
  function Got(rcv: Rcv, read: seq<Frag>): seq<Frag> {
    read + Frags(rcv.queue)
  }

  ghost predicate Buffers(rcv: Rcv, sent: seq<Frag>, r: int) {
    forall i :: 0 <= i < |rcv.buf| ==> Carries(rcv.buf[i], r + Off(rcv.buf[i].sn, rcv.nxt), sent)
  }

  ghost predicate RcvOk(rcv: Rcv, wnd: u32, sent: seq<Frag>, read: seq<Frag>) {
    && Good(rcv, wnd)
    && rcv.nxt == Wrap(|Got(rcv, read)|)
    && Got(rcv, read) <= sent
    && Buffers(rcv, sent, |Got(rcv, read)|)
  }

  ghost predicate Outstanding(snd: Snd, total: int, n: int) {
    exists i :: 0 <= i < |snd.buf| && Number(snd, total, snd.buf[i].sn) == n
  }

  /** Acknowledgement soundness: a number the sender no longer keeps has been received. */
  ghost predicate Covered(snd: Snd, total: int, rcv: Rcv, r: int) {
    forall n :: 0 <= n < total ==> Outstanding(snd, total, n) || Has(rcv, r, n)
  }

  /** The 32-bit number `sn` acknowledges stands for a received number that is at least `floor`. */
  ghost predicate AckTrue(sn: u32, floor: int, total: int, rcv: Rcv, r: int) {
    exists n :: floor <= n < total && Wrap(n) == sn && Has(rcv, r, n)
  }

  ghost predicate AcksTrue(acks: seq<Ack>, floor: int, total: int, rcv: Rcv, r: int) {
    forall i :: 0 <= i < |acks| ==> AckTrue(acks[i].sn, floor, total, rcv, r)
  }

  /** The receiver did not forget any number. */
  ghost predicate Remembers(rcv: Rcv, r: int, rcv': Rcv, r': int) {
    forall n :: Has(rcv, r, n) ==> Has(rcv', r', n)
  }

  lemma {:induction false} AckTrueKept(sn: u32, floor: int, floor': int, total: int, total': int, rcv: Rcv, r: int,
      rcv': Rcv, r': int)
    requires AckTrue(sn, floor, total, rcv, r) && floor' <= floor && total <= total' && Remembers(rcv, r, rcv', r')
    ensures AckTrue(sn, floor', total', rcv', r')
  {
    var n :| floor <= n < total && Wrap(n) == sn && Has(rcv, r, n);
    assert Has(rcv', r', n);
  }

  // ---------- acknowledgements at the sender ----------

  lemma {:induction false} UnaIsBase(snd: Snd, total: int)
    requires snd.nxt == Wrap(total)
    ensures snd.una == Wrap(total - Off(snd.nxt, snd.una))
  {
    var o: int, una: int := Off(snd.nxt, snd.una), snd.una;
    WrapOff(snd.nxt, snd.una);
    assert Wrap(Wrap(una + o) - o) == una by {
      WrapAdd(una + o, -o);
      WrapIs(una, 0);
    }
    WrapAdd(total, -o);
  }

  /** The cumulative acknowledgement of `v`, as the sender reads it. */
  lemma {:induction false} ReadUna(snd: Snd, total: int, v: int)
    requires snd.nxt == Wrap(total) && Off(snd.nxt, snd.una) <= SPAN && v <= total <= v + TWO31
    ensures TimeDiff(Wrap(v), snd.una) == v - (total - Off(snd.nxt, snd.una))
  {
    UnaIsBase(snd, total);
    TimeDiffExactIff(v, total - Off(snd.nxt, snd.una));
  }

  /** Deleting segments whose numbers were received keeps the direction in order. */
  lemma {:induction false} ShrinkOk(snd: Snd, sent: seq<Frag>, buf: seq<Segment>, rcv: Rcv, r: int)
    requires SndOk(snd, sent) && Covered(snd, |sent|, rcv, r)
    requires Ascending(buf, snd.una, Off(snd.nxt, snd.una))
    requires forall s :: s in buf ==> s in snd.buf
    requires forall s :: s in snd.buf && s !in buf ==> Has(rcv, r, Number(snd, |sent|, s.sn))
    ensures var snd' := Shrink(snd.(buf := buf));
            SndOk(snd', sent) && Covered(snd', |sent|, rcv, r)
  {
    var snd' := Shrink(snd.(buf := buf));
    var total := |sent|;
    ShrinkKeeps(snd, buf);
    ShrinkNumbers(snd, buf);
    hide Off, Window, Ascending, Has, Shrink;
    forall i | 0 <= i < |buf|
      ensures Number(snd', total, buf[i].sn) == Number(snd, total, buf[i].sn)
      ensures Carries(buf[i], Number(snd', total, buf[i].sn), sent)
    {
      assert buf[i] in snd.buf;
    }
    forall n | 0 <= n < total ensures Outstanding(snd', total, n) || Has(rcv, r, n) {
      if Outstanding(snd, total, n) {
        var i :| 0 <= i < |snd.buf| && Number(snd, total, snd.buf[i].sn) == n;
        if snd.buf[i] in buf {
          var j :| 0 <= j < |buf| && buf[j] == snd.buf[i];
          assert Number(snd', total, buf[j].sn) == n;
        }
      }
    }
  }

  lemma {:induction false} UnaOk(snd: Snd, sent: seq<Frag>, una: u32, v: int, rcv: Rcv, r: int)
    requires SndOk(snd, sent) && Covered(snd, |sent|, rcv, r)
    requires una == Wrap(v) && v <= r <= |sent| <= v + TWO31
    ensures SndOk(TakeUna(snd, una), sent) && Covered(TakeUna(snd, una), |sent|, rcv, r)
  {
    var k := TakeUnaMeans(snd, una);
    ReadUna(snd, |sent|, v);
    var buf := snd.buf[k..];
    assert TakeUna(snd, una) == Shrink(snd.(buf := buf));
    hide TakeUna, Off, TimeDiff, Shrink;
    DropAscending(snd.buf, k, snd.una, Off(snd.nxt, snd.una));
    forall s | s in snd.buf && s !in buf ensures Has(rcv, r, Number(snd, |sent|, s.sn)) {
      var i :| 0 <= i < |snd.buf| && snd.buf[i] == s;
      NotInDrop(snd.buf, k, i);
    }
    ShrinkOk(snd, sent, buf, rcv, r);
  }

  lemma {:induction false} DropAscending(buf: seq<Segment>, k: nat, base: u32, top: int)
    requires k <= |buf| && Ascending(buf, base, top)
    ensures Ascending(buf[k..], base, top)
  {
    hide Off;
    assert forall i :: 0 <= i < |buf| - k ==> buf[k..][i] == buf[k + i];
  }

  lemma {:induction false} AckOk(snd: Snd, sent: seq<Frag>, sn: u32, floor: int, rcv: Rcv, r: int)
    requires SndOk(snd, sent) && Covered(snd, |sent|, rcv, r)
    requires AckTrue(sn, floor, |sent|, rcv, r) && |sent| <= floor + TWO31
    ensures SndOk(TakeAck(snd, sn), sent) && Covered(TakeAck(snd, sn), |sent|, rcv, r)
  {
    var k := TakeAckMeans(snd, sn);
    var buf := if k < |snd.buf| then snd.buf[..k] + snd.buf[k + 1..] else snd.buf;
    assert TakeAck(snd, sn) == Shrink(snd.(buf := buf));
    if k < |snd.buf| {
      AscendingSplice(snd.buf, k, snd.una, Off(snd.nxt, snd.una));
      AckNumber(snd, sent, k, floor, rcv, r);
    }
    hide TakeAck, Off, TimeDiff, Shrink;
    forall s | s in snd.buf && s !in buf ensures Has(rcv, r, Number(snd, |sent|, s.sn)) {
      var i :| 0 <= i < |snd.buf| && snd.buf[i] == s;
      if k < |snd.buf| {
        NotInSplice(snd.buf, k, i);
      }
    }
    ShrinkOk(snd, sent, buf, rcv, r);
  }

  /** A segment in flight whose low 32 bits are acknowledged is the one that was received. */
  lemma {:induction false} AckNumber(snd: Snd, sent: seq<Frag>, k: nat, floor: int, rcv: Rcv, r: int)
    requires SndOk(snd, sent) && k < |snd.buf|
    requires AckTrue(snd.buf[k].sn, floor, |sent|, rcv, r) && |sent| <= floor + TWO31
    ensures Has(rcv, r, Number(snd, |sent|, snd.buf[k].sn))
  {
    var sn, total := snd.buf[k].sn, |sent|;
    var n :| floor <= n < total && Wrap(n) == sn && Has(rcv, r, n);
    var m := Number(snd, total, sn);
    UnaIsBase(snd, total);
    WrapOff(sn, snd.una);
    WrapAdd(total - Off(snd.nxt, snd.una), Off(sn, snd.una));
    assert Wrap(m) == sn;
    assert total - SPAN <= m < total;
    WrapSame(n, m);
  }

  /** One decoded segment at the sender, from a datagram that is not too old. */
  lemma {:induction false} SndStepOk(snd: Snd, sent: seq<Frag>, s: Segment, v: int, floor: int, rcv: Rcv, r: int)
    requires SndOk(snd, sent) && Covered(snd, |sent|, rcv, r)
    requires s.una == Wrap(v) && floor <= v <= r <= |sent| <= floor + TWO31
    requires s.cmd == CMD_ACK ==> AckTrue(s.sn, floor, |sent|, rcv, r)
    ensures SndOk(SndStep(snd, s), sent) && Covered(SndStep(snd, s), |sent|, rcv, r)
  {
    hide SndOk, Covered, TakeUna, TakeAck, AckTrue;
    UnaOk(snd, sent, s.una, v, rcv, r);
    if s.cmd == CMD_ACK {
      AckOk(TakeUna(snd, s.una), sent, s.sn, floor, rcv, r);
    }
  }

  /** Changing only what delivery does not depend on. */
  lemma {:induction false} CoresOk(snd: Snd, buf: seq<Segment>, sent: seq<Frag>, rcv: Rcv, r: int)
    requires SndOk(snd, sent) && Covered(snd, |sent|, rcv, r) && SameCores(snd.buf, buf)
    ensures SndOk(snd.(buf := buf), sent) && Covered(snd.(buf := buf), |sent|, rcv, r)
  {
    SameCoresKeep(snd, buf);
    var snd' := snd.(buf := buf);
    hide Window, Off, Has;
    forall n | 0 <= n < |sent| && Outstanding(snd, |sent|, n) ensures Outstanding(snd', |sent|, n) {
      var i :| 0 <= i < |snd.buf| && Number(snd, |sent|, snd.buf[i].sn) == n;
      assert Number(snd', |sent|, snd'.buf[i].sn) == n;
    }
  }

  // ---------- data at the receiver ----------

  /** The sender is never further ahead of the receiver than both windows together. */
  lemma {:induction false} SpanBound(snd: Snd, sent: seq<Frag>, rcv: Rcv, wnd: u32, r: int)
    requires SndOk(snd, sent) && Covered(snd, |sent|, rcv, r) && InWindow(rcv, wnd) && r >= 0
    ensures |sent| <= r + wnd + SPAN
  {
    if |sent| > r + wnd {
      var n := r + wnd;
      assert !Has(rcv, r, n);
      assert Outstanding(snd, |sent|, n);
    }
  }

  /** How the receiver reads the low 32 bits of number `n`. */
  lemma {:induction false} ReadNumber(rcv: Rcv, wnd: u32, n: int, r: int)
    requires 0 < wnd < TWO31 && rcv.nxt == Wrap(r) && r - TWO31 <= n < r + wnd + SPAN
    ensures Off(Wrap(n), rcv.nxt) < wnd <==> r <= n < r + wnd
    ensures r <= n ==> Off(Wrap(n), rcv.nxt) == n - r
    ensures BelowWindowEnd(rcv, wnd, Wrap(n)) ==> n < r + wnd
  {
    hide BelowWindowEnd, TimeDiff, Off, Wrap;
    WindowTests(rcv, wnd, Wrap(n));
    OffOfWraps(n, r);
    WrapIs(n - r, if n < r then 1 else 0);
  }

  lemma {:induction false} DrainOk(rcv: Rcv, wnd: u32, sent: seq<Frag>, read: seq<Frag>)
    requires InWindow(rcv, wnd) && rcv.nxt == Wrap(|Got(rcv, read)|)
    requires Got(rcv, read) <= sent && Buffers(rcv, sent, |Got(rcv, read)|)
    ensures RcvOk(Drain(rcv, wnd), wnd, sent, read)
    ensures Remembers(rcv, |Got(rcv, read)|, Drain(rcv, wnd), |Got(Drain(rcv, wnd), read)|)
  {
    hide Good, Has, Off, Wrap, Ascending, DrainCount, Carries;
    var r, m, d := |Got(rcv, read)|, DrainCount(rcv.nxt, |rcv.queue|, rcv.buf, wnd), Drain(rcv, wnd);
    DrainHas(rcv, wnd, r);
    RunOffsets(rcv.buf, rcv.nxt, wnd, m);
    FragsAppend(rcv.queue, rcv.buf[..m]);
    Assoc(read, Frags(rcv.queue), Frags(rcv.buf[..m]));
    assert Got(d, read) == Got(rcv, read) + Frags(rcv.buf[..m]);
    hide Got, Frags;
    DrainedPrefix(Got(rcv, read), rcv.buf, m, sent, rcv.nxt);
    WrapAdd(r, m);
    DrainedBuffers(rcv, d, sent, r, m);
  }

  lemma {:induction false} DrainedBuffers(rcv: Rcv, d: Rcv, sent: seq<Frag>, r: int, m: nat)
    requires m <= |rcv.buf| && d.buf == rcv.buf[m..] && Buffers(rcv, sent, r)
    requires forall i :: m <= i < |rcv.buf| ==> Off(rcv.buf[i].sn, d.nxt) == Off(rcv.buf[i].sn, rcv.nxt) - m
    ensures Buffers(d, sent, r + m)
  {
    hide Off, Carries;
    forall i | 0 <= i < |d.buf| ensures Carries(d.buf[i], r + m + Off(d.buf[i].sn, d.nxt), sent) {
      assert d.buf[i] == rcv.buf[m + i];
    }
  }

  lemma {:induction false} DrainedPrefix(got: seq<Frag>, buf: seq<Segment>, m: nat, sent: seq<Frag>, nxt: u32)
    requires got <= sent && m <= |buf|
    requires forall i :: 0 <= i < |buf| ==> Carries(buf[i], |got| + Off(buf[i].sn, nxt), sent)
    requires forall i :: 0 <= i < m ==> Off(buf[i].sn, nxt) == i
    ensures got + Frags(buf[..m]) <= sent
  {
    hide Off;
    var g := got + Frags(buf[..m]);
    forall i | 0 <= i < |g| ensures i < |sent| && g[i] == sent[i] {
      if i >= |got| {
        assert Carries(buf[i - |got|], |got| + Off(buf[i - |got|].sn, nxt), sent);
      }
    }
    if m > 0 {
      assert Carries(buf[m - 1], |got| + Off(buf[m - 1].sn, nxt), sent);
    }
  }

  lemma {:induction false} InsertOk(rcv: Rcv, wnd: u32, s: Segment, sent: seq<Frag>, r: int)
    requires InWindow(rcv, wnd) && Buffers(rcv, sent, r)
    requires Off(s.sn, rcv.nxt) < wnd && Carries(s, r + Off(s.sn, rcv.nxt), sent)
    ensures Buffers(rcv.(buf := Insert(rcv.buf, s)), sent, r)
  {
    hide Off, Insert, Ascending, Carries, Buffered;
    var i := InsertMeans(rcv.buf, s, rcv.nxt, wnd);
    if !Buffered(rcv.buf, s.sn) {
      SpliceBuffers(rcv, i, s, sent, r);
    }
  }

  lemma {:induction false} SpliceBuffers(rcv: Rcv, i: nat, s: Segment, sent: seq<Frag>, r: int)
    requires i <= |rcv.buf| && Buffers(rcv, sent, r) && Carries(s, r + Off(s.sn, rcv.nxt), sent)
    ensures Buffers(rcv.(buf := rcv.buf[..i] + [s] + rcv.buf[i..]), sent, r)
  {
    hide Off, Carries, Buffers;
    InsertIndex(rcv.buf, i, s);
    SplicedBuffers(rcv, i, s, rcv.buf[..i] + [s] + rcv.buf[i..], sent, r);
  }

  lemma {:induction false} SplicedBuffers(rcv: Rcv, i: nat, s: Segment, b: seq<Segment>, sent: seq<Frag>, r: int)
    requires Spliced(rcv.buf, s, i, b) && Buffers(rcv, sent, r) && Carries(s, r + Off(s.sn, rcv.nxt), sent)
    ensures Buffers(rcv.(buf := b), sent, r)
  {
    hide Off, Carries;
  }

  lemma {:induction false} PushIs(rcv: Rcv, wnd: u32, s: Segment)
    requires Good(rcv, wnd)
    ensures var acked := rcv.(acks := rcv.acks + [Ack(s.sn, s.ts)]);
            TakePush(rcv, wnd, s) == if Off(s.sn, rcv.nxt) < wnd then Drain(acked.(buf := Insert(rcv.buf, s)), wnd)
                                     else if BelowWindowEnd(rcv, wnd, s.sn) then acked else rcv
  {
    WindowTests(rcv, wnd, s.sn);
    hide Insert, Drain, Off, BelowWindowEnd;
  }

  /** A fragment in the window is put where its number belongs. */
  lemma {:induction false} PushTaken(rcv: Rcv, wnd: u32, s: Segment, n: int, sent: seq<Frag>, read: seq<Frag>)
    requires RcvOk(rcv, wnd, sent, read) && Carries(s, n, sent)
    requires Off(s.sn, rcv.nxt) < wnd && |Got(rcv, read)| + Off(s.sn, rcv.nxt) == n
    ensures var d := Drain(rcv.(acks := rcv.acks + [Ack(s.sn, s.ts)], buf := Insert(rcv.buf, s)), wnd);
            && RcvOk(d, wnd, sent, read) && Remembers(rcv, |Got(rcv, read)|, d, |Got(d, read)|)
            && d.acks == rcv.acks + [Ack(s.sn, s.ts)] && Has(d, |Got(d, read)|, n)
  {
    hide Insert, Drain, Off, Ascending, Wrap, Has, Carries, Drained;
    var r, acked := |Got(rcv, read)|, rcv.(acks := rcv.acks + [Ack(s.sn, s.ts)]);
    var i := acked.(buf := Insert(rcv.buf, s));
    AcksApart(rcv, acked.acks, sent, read);
    InsertHas(acked, wnd, s, r);
    InsertOk(acked, wnd, s, sent, r);
    GotApart(rcv, i, read);
    DrainOk(i, wnd, sent, read);
    assert Has(i, r, n);
    DrainAcks(i, wnd);
  }

  lemma {:induction false} GotApart(rcv: Rcv, rcv': Rcv, read: seq<Frag>)
    requires rcv'.queue == rcv.queue
    ensures Got(rcv', read) == Got(rcv, read)
  {
  }

  /** An acknowledgement more changes nothing else. */
  lemma {:induction false} AcksApart(rcv: Rcv, acks: seq<Ack>, sent: seq<Frag>, read: seq<Frag>)
    ensures var acked := rcv.(acks := acks);
            && Remembers(rcv, |Got(rcv, read)|, acked, |Got(acked, read)|) && Got(acked, read) == Got(rcv, read)
            && (forall x :: Has(acked, |Got(rcv, read)|, x) <==> Has(rcv, |Got(rcv, read)|, x))
            && (forall wnd :: RcvOk(rcv, wnd, sent, read) ==> RcvOk(acked, wnd, sent, read))
  {
    hide Off, Wrap, Carries;
  }

  /** A data segment at the receiver, from a datagram that is not too old: in order or not, first
      or repeated, it is put where its number belongs, and what is acknowledged was received. */
  lemma {:induction false} PushOk(rcv: Rcv, wnd: u32, s: Segment, n: int, sent: seq<Frag>, read: seq<Frag>)
    requires RcvOk(rcv, wnd, sent, read)
    requires s.sn == Wrap(n) && Carries(s, n, sent)
    requires |sent| <= n + TWO31 && |sent| <= |Got(rcv, read)| + wnd + SPAN
    ensures var d := TakePush(rcv, wnd, s);
            && RcvOk(d, wnd, sent, read)
            && Remembers(rcv, |Got(rcv, read)|, d, |Got(d, read)|)
            && (d.acks == rcv.acks || (d.acks == rcv.acks + [Ack(s.sn, s.ts)] && Has(d, |Got(d, read)|, n)))
  {
    hide TakePush, Insert, Drain, Off, Wrap, BelowWindowEnd, Has, Got, Buffers, Remembers;
    var r := |Got(rcv, read)|;
    CarriesBelow(s, n, sent);
    ReadNumber(rcv, wnd, n, r);
    hide Carries, Good;
    PushIs(rcv, wnd, s);
    if Off(s.sn, rcv.nxt) < wnd {
      PushTaken(rcv, wnd, s, n, sent, read);
    } else {
      AcksApart(rcv, rcv.acks + [Ack(s.sn, s.ts)], sent, read);
      AcksApart(rcv, rcv.acks, sent, read);
      if n < r {
        HasBelow(rcv.(acks := rcv.acks + [Ack(s.sn, s.ts)]), r, n);
      }
    }
  }

  lemma {:induction false} HasBelow(rcv: Rcv, r: int, n: int)
    requires n < r
    ensures Has(rcv, r, n)
  {
  }

  lemma {:induction false} CarriesBelow(s: Segment, n: int, sent: seq<Frag>)
    requires Carries(s, n, sent)
    ensures 0 <= n < |sent|
  {
  }

  /** Reading from the queue. */
  lemma {:induction false} TakeOk(rcv: Rcv, wnd: u32, c: nat, sent: seq<Frag>, read: seq<Frag>)
    requires RcvOk(rcv, wnd, sent, read) && c <= |rcv.queue|
    ensures var d, read' := Drain(rcv.(queue := rcv.queue[c..]), wnd), read + Frags(rcv.queue[..c]);
            && RcvOk(d, wnd, sent, read')
            && Remembers(rcv, |Got(rcv, read)|, d, |Got(d, read')|)
            && d.acks == rcv.acks
  {
    var kept, read' := rcv.(queue := rcv.queue[c..]), read + Frags(rcv.queue[..c]);
    assert Frags(rcv.queue[..c]) + Frags(rcv.queue[c..]) == Frags(rcv.queue);
    Assoc(read, Frags(rcv.queue[..c]), Frags(rcv.queue[c..]));
    assert Got(kept, read') == Got(rcv, read);
    assert Remembers(rcv, |Got(rcv, read)|, kept, |Got(rcv, read)|);
    DrainAcks(kept, wnd);
    hide Drain, Has, Off, Ascending;
    DrainOk(kept, wnd, sent, read');
  }

  // ---------- admission at the sender ----------

  /** Numbering queued segments extends the numbered fragments by exactly theirs, in order. */
  lemma {:induction false} AdmitOk(snd: Snd, sent: seq<Frag>, cwnd: u32, st: Stamp, rcv: Rcv, r: int)
    requires SndOk(snd, sent) && Covered(snd, |sent|, rcv, r) && cwnd <= SPAN
    ensures var m, snd' := Room(snd, cwnd), Admit(snd, cwnd, st);
            && m <= |snd.queue| && snd'.queue == snd.queue[m..]
            && SndOk(snd', sent + Frags(snd.queue[..m])) && Covered(snd', |sent| + m, rcv, r)
            && |sent| + m - Off(snd'.nxt, snd'.una) == |sent| - Off(snd.nxt, snd.una) && snd'.una == snd.una
  {
    hide Window, Off, Admit, Wrap, NumberedAll, Has, Carries;
    WindowSpan(snd);
    AdmitMeans(snd, cwnd, st);
    AdmitKeeps(snd, cwnd, st);
    var m, snd', total := Room(snd, cwnd), Admit(snd, cwnd, st), |sent|;
    var q := snd.queue[..m];
    var more := NumberedAll(q, snd.nxt, st);
    NumberedOffsets(snd, q, st);
    WrapAdd(total, m);
    NumberedCarry(snd, q, sent, st);
    hide Room;
    forall i | 0 <= i < |snd.buf|
      ensures Carries(snd.buf[i], Number(snd', total + m, snd.buf[i].sn), sent + Frags(q))
    {
      CarriesMore(snd.buf[i], Number(snd, total, snd.buf[i].sn), sent, Frags(q));
    }
    AppendCovered(snd, snd', total, m, more, rcv, r);
  }

  lemma {:induction false} WindowSpan(snd: Snd)
    requires Window(snd)
    ensures Off(snd.nxt, snd.una) <= SPAN
  {
  }

  lemma {:induction false} CarriesMore(s: Segment, n: int, sent: seq<Frag>, more: seq<Frag>)
    requires Carries(s, n, sent)
    ensures Carries(s, n, sent + more)
  {
  }

  lemma {:induction false} NumberedCarry(snd: Snd, queue: seq<Segment>, sent: seq<Frag>, st: Stamp)
    ensures var more := NumberedAll(queue, snd.nxt, st);
            forall j :: 0 <= j < |more| ==> Carries(more[j], |sent| + j, sent + Frags(queue))
  {
    hide Wrap;
  }

  lemma {:induction false} AppendCovered(snd: Snd, snd': Snd, total: int, m: int, more: seq<Segment>, rcv: Rcv, r: int)
    requires snd'.buf == snd.buf + more && snd'.una == snd.una && |more| == m
    requires Off(snd'.nxt, snd.una) == Off(snd.nxt, snd.una) + m
    requires forall j :: 0 <= j < m ==> Off(more[j].sn, snd.una) == Off(snd.nxt, snd.una) + j
    requires Covered(snd, total, rcv, r)
    ensures Covered(snd', total + m, rcv, r)
  {
    hide Off, Has;
    forall n | 0 <= n < total + m ensures Outstanding(snd', total + m, n) || Has(rcv, r, n) {
      if n >= total {
        assert snd'.buf[|snd.buf| + (n - total)] == more[n - total];
        assert Number(snd', total + m, snd'.buf[|snd.buf| + (n - total)].sn) == n;
      } else if Outstanding(snd, total, n) {
        var i :| 0 <= i < |snd.buf| && Number(snd, total, snd.buf[i].sn) == n;
        assert snd'.buf[i] == snd.buf[i];
        assert Number(snd', total + m, snd'.buf[i].sn) == n;
      }
    }
  }
}
