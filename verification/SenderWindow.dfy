/** The send window: `snd_buf` is strictly increasing in serial order inside [snd_una, snd_nxt),
    `snd_una` is its head, and at most 65535 numbers are outstanding, whatever bytes arrive. */
module SenderWindow {
  import Seqs
  import opened Serial
  import opened Wire
  import opened Engine

  const SPAN: int := 65535

  /** Strictly increasing distances from `base`, all below `top`. */
  ghost predicate Ascending(buf: seq<Segment>, base: u32, top: int) {
    && (forall i, j :: 0 <= i < j < |buf| ==> Off(buf[i].sn, base) < Off(buf[j].sn, base))
    && (forall i :: 0 <= i < |buf| ==> Off(buf[i].sn, base) < top)
  }

  ghost predicate Window(snd: Snd) {
    && Off(snd.nxt, snd.una) <= SPAN
    && Ascending(snd.buf, snd.una, Off(snd.nxt, snd.una))
    && (if snd.buf == [] then snd.una == snd.nxt else snd.buf[0].sn == snd.una)
  }

  /** Inside a window every comparison the send side makes is exact. */
  lemma {:induction false} WindowCompares(snd: Snd, x: u32, y: u32)
    requires Off(snd.nxt, snd.una) <= SPAN
    requires Off(x, snd.una) <= Off(snd.nxt, snd.una) && Off(y, snd.una) <= Off(snd.nxt, snd.una)
    ensures TimeDiff(x, y) == Off(x, snd.una) - Off(y, snd.una)
  {
    TimeDiffByOff(x, y, snd.una);
  }

  lemma {:induction false} InFlightIff(snd: Snd, sn: u32)
    requires Off(snd.nxt, snd.una) <= SPAN
    ensures InFlight(snd, sn) <==> Off(sn, snd.una) < Off(snd.nxt, snd.una)
  {
    if Off(sn, snd.una) < TWO31 {
      TimeDiffByOff(sn, snd.nxt, snd.una);
    }
    assert TimeDiff(sn, snd.una) == Signed(Off(sn, snd.una));
  }

  /** `ikcp_shrink_buf` after some segments were deleted: the window holds again, and `snd_una`
      moved up, never past `snd_nxt`. */
  lemma {:induction false} ShrinkKeeps(snd: Snd, buf: seq<Segment>)
    requires Off(snd.nxt, snd.una) <= SPAN && Ascending(buf, snd.una, Off(snd.nxt, snd.una))
    ensures var s := Shrink(snd.(buf := buf));
            && Window(s)
            && Off(s.una, snd.una) + Off(s.nxt, s.una) == Off(snd.nxt, snd.una)
  {
    var s := Shrink(snd.(buf := buf));
    OffRebase(snd.nxt, snd.una, s.una);
    forall i | 0 <= i < |buf| ensures Off(buf[i].sn, s.una) == Off(buf[i].sn, snd.una) - Off(s.una, snd.una) {
      OffRebase(buf[i].sn, snd.una, s.una);
    }
  }

  /** Shrinking does not change how far below `snd_nxt` a remaining segment lies. */
  lemma {:induction false} ShrinkNumbers(snd: Snd, buf: seq<Segment>)
    requires Off(snd.nxt, snd.una) <= SPAN && Ascending(buf, snd.una, Off(snd.nxt, snd.una))
    ensures var s := Shrink(snd.(buf := buf));
            forall i :: 0 <= i < |buf| ==>
              Off(s.nxt, s.una) - Off(buf[i].sn, s.una) == Off(snd.nxt, snd.una) - Off(buf[i].sn, snd.una)
  {
    var s := Shrink(snd.(buf := buf));
    hide Off;
    OffRebase(snd.nxt, snd.una, s.una);
    forall i | 0 <= i < |buf|
      ensures Off(s.nxt, s.una) - Off(buf[i].sn, s.una) == Off(snd.nxt, snd.una) - Off(buf[i].sn, snd.una)
    {
      AscendingFirst(buf, snd.una, Off(snd.nxt, snd.una));
      OffRebase(buf[i].sn, snd.una, s.una);
    }
  }

  /** A cumulative acknowledgement of the number `d > 0` above the base deletes exactly the segments
      whose number is below it. */
  lemma {:induction false} DropAckedAt(buf: seq<Segment>, una: u32, base: u32) returns (n: nat)
    requires Ascending(buf, base, SPAN) && 0 < Off(una, base) < TWO31
    ensures n <= |buf| && DropAcked(buf, una) == buf[n..]
    ensures forall i :: 0 <= i < |buf| ==> (i < n <==> Off(buf[i].sn, base) < Off(una, base))
  {
    hide Off, TimeDiff;
    n := 0;
    if buf != [] {
      TimeDiffByOff(una, buf[0].sn, base);
      if Off(buf[0].sn, base) < Off(una, base) {
        var m := DropAckedAt(buf[1..], una, base);
        n := m + 1;
        assert buf[1..][m..] == buf[n..];
        forall i | 0 <= i < |buf| ensures i < n <==> Off(buf[i].sn, base) < Off(una, base) {
          assert i > 0 ==> buf[i] == buf[1..][i - 1];
        }
      }
    }
  }

  /** `ikcp_parse_una` and `ikcp_shrink_buf` on any 32-bit `una`. */
  lemma {:induction false} TakeUnaMeans(snd: Snd, una: u32) returns (n: nat)
    requires Window(snd)
    ensures n <= |snd.buf| && TakeUna(snd, una).buf == snd.buf[n..]
    ensures forall i :: 0 <= i < |snd.buf| ==> (i < n <==> Off(snd.buf[i].sn, snd.una) < TimeDiff(una, snd.una))
    ensures Window(TakeUna(snd, una))
    ensures Off(TakeUna(snd, una).una, snd.una) + Off(snd.nxt, TakeUna(snd, una).una) == Off(snd.nxt, snd.una)
  {
    n := 0;
    if snd.buf != [] && TimeDiff(una, snd.una) > 0 {
      n := DropAckedAt(snd.buf, una, snd.una);
    }
    ShrinkKeeps(snd, snd.buf[n..]);
  }

  /** Where the loop of `ikcp_parse_ack` finds the number; the length of `buf` if nowhere. */
  function FindSn(buf: seq<Segment>, sn: u32): (n: nat)
    ensures n <= |buf|
    ensures n < |buf| ==> buf[n].sn == sn
    ensures n == |buf| ==> forall i :: 0 <= i < |buf| ==> buf[i].sn != sn
  {
    if buf == [] || buf[0].sn == sn then 0
    else
      assert forall i :: 0 < i < |buf| ==> buf[i] == buf[1..][i - 1];
      1 + FindSn(buf[1..], sn)
  }

  lemma {:induction false} AscendingFirst(buf: seq<Segment>, base: u32, top: int)
    requires Ascending(buf, base, top)
    ensures forall i :: 0 <= i < |buf| ==> Off(buf[0].sn, base) <= Off(buf[i].sn, base)
  {
  }

  /** A selective acknowledgement of a number in flight deletes exactly the segment that carries it,
      if there is one. */
  lemma {:induction false} RemoveSnAt(buf: seq<Segment>, sn: u32, base: u32)
    requires Ascending(buf, base, SPAN) && Off(sn, base) < SPAN
    ensures var n := FindSn(buf, sn);
            RemoveSn(buf, sn) == if n < |buf| then buf[..n] + buf[n + 1..] else buf
  {
    if buf != [] && sn != buf[0].sn {
      TimeDiffByOff(sn, buf[0].sn, base);
      var n := FindSn(buf, sn);
      if Off(sn, base) < Off(buf[0].sn, base) {
        AscendingFirst(buf, base, SPAN);
      } else {
        assert RemoveSn(buf, sn) == [buf[0]] + RemoveSn(buf[1..], sn);
        RemoveSnAt(buf[1..], sn, base);
        hide Ascending, Off, TimeDiff, RemoveSn;
        if n < |buf| {
          Seqs.SpliceTail(buf, n);
        } else {
          Seqs.ConsTail(buf);
        }
      }
    }
  }

  lemma {:induction false} AscendingSplice(buf: seq<Segment>, n: nat, base: u32, top: int)
    requires n < |buf| && Ascending(buf, base, top)
    ensures Ascending(buf[..n] + buf[n + 1..], base, top)
  {
    var b := buf[..n] + buf[n + 1..];
    assert forall i :: 0 <= i < |b| ==> b[i] == if i < n then buf[i] else buf[i + 1];
  }

  /** `ikcp_parse_ack` and `ikcp_shrink_buf` on any 32-bit number. */
  lemma {:induction false} TakeAckMeans(snd: Snd, sn: u32) returns (n: nat)
    requires Window(snd)
    ensures n <= |snd.buf|
    ensures n < |snd.buf| ==> snd.buf[n].sn == sn && TakeAck(snd, sn).buf == snd.buf[..n] + snd.buf[n + 1..]
    ensures n == |snd.buf| ==> TakeAck(snd, sn).buf == snd.buf && forall i :: 0 <= i < |snd.buf| ==> snd.buf[i].sn != sn
    ensures Window(TakeAck(snd, sn))
    ensures Off(TakeAck(snd, sn).una, snd.una) + Off(snd.nxt, TakeAck(snd, sn).una) == Off(snd.nxt, snd.una)
  {
    InFlightIff(snd, sn);
    n := |snd.buf|;
    if InFlight(snd, sn) {
      n := FindSn(snd.buf, sn);
      RemoveSnAt(snd.buf, sn, snd.una);
    }
    if n < |snd.buf| {
      AscendingSplice(snd.buf, n, snd.una, Off(snd.nxt, snd.una));
      ShrinkKeeps(snd, snd.buf[..n] + snd.buf[n + 1..]);
    } else {
      ShrinkKeeps(snd, snd.buf);
    }
  }

  /** Nothing about a segment that matters for delivery differs. */
  ghost predicate SameCore(a: Segment, b: Segment) {
    a.sn == b.sn && a.frg == b.frg && a.data == b.data && a.conv == b.conv && a.cmd == b.cmd
  }

  ghost predicate SameCores(a: seq<Segment>, b: seq<Segment>) {
    |a| == |b| && forall i :: 0 <= i < |a| ==> SameCore(a[i], b[i])
  }

  lemma {:induction false} SameCoresKeep(snd: Snd, buf: seq<Segment>)
    requires Window(snd) && SameCores(snd.buf, buf)
    ensures Window(snd.(buf := buf))
  {
  }

  /** The fast-acknowledge counters: exactly the segments below `sn` are counted up. */
  lemma {:induction false} BumpFastAt(buf: seq<Segment>, sn: u32, base: u32)
    requires Ascending(buf, base, SPAN) && Off(sn, base) < SPAN
    ensures |BumpFast(buf, sn)| == |buf|
    ensures forall i :: 0 <= i < |buf| ==>
              BumpFast(buf, sn)[i] == if Off(buf[i].sn, base) < Off(sn, base)
                                      then buf[i].(fastack := Wrap(buf[i].fastack + 1)) else buf[i]
  {
    if buf != [] {
      TimeDiffByOff(sn, buf[0].sn, base);
      assert sn == buf[0].sn <==> Off(sn, base) == Off(buf[0].sn, base) by {
        WrapOff(sn, base);
        WrapOff(buf[0].sn, base);
      }
      BumpFastAt(buf[1..], sn, base);
      forall i | 0 <= i < |buf|
        ensures BumpFast(buf, sn)[i] == if Off(buf[i].sn, base) < Off(sn, base)
                                        then buf[i].(fastack := Wrap(buf[i].fastack + 1)) else buf[i]
      {
        assert i > 0 ==> buf[i] == buf[1..][i - 1];
      }
    }
  }

  lemma {:induction false} TakeFastKeeps(snd: Snd, sn: u32)
    requires Window(snd)
    ensures Window(TakeFast(snd, sn)) && SameCores(snd.buf, TakeFast(snd, sn).buf)
    ensures TakeFast(snd, sn) == snd.(buf := TakeFast(snd, sn).buf)
  {
    InFlightIff(snd, sn);
    if InFlight(snd, sn) {
      BumpFastAt(snd.buf, sn, snd.una);
    }
  }

  function NumberedAll(queue: seq<Segment>, sn: u32, st: Stamp): seq<Segment> {
    seq(|queue|, i requires 0 <= i < |queue| => Numbered(queue[i], Wrap(sn + i), st))
  }

  /** How many segments the admission loop moves. */
  function Room(snd: Snd, cwnd: u32): nat {
    Min(|snd.queue|, Max(0, cwnd - Off(snd.nxt, snd.una)))
  }

  /** The admission loop moves as many segments as fit under the window, in order, and gives them
      consecutive numbers. */
  lemma {:induction false} AdmitMeans(snd: Snd, cwnd: u32, st: Stamp)
    requires Off(snd.nxt, snd.una) <= SPAN && cwnd <= SPAN
    ensures var m := Room(snd, cwnd);
            Admit(snd, cwnd, st) == Snd(snd.una, Wrap(snd.nxt + m), snd.queue[m..],
                                        snd.buf + NumberedAll(snd.queue[..m], snd.nxt, st))
    decreases |snd.queue|
  {
    hide Numbered, NumberedAll, Off, Wrap, TimeDiff;
    AdmitGuard(snd, cwnd);
    var m, q := Room(snd, cwnd), snd.queue;
    if m > 0 {
      var snd1 := Snd(snd.una, Wrap(snd.nxt + 1), q[1..], snd.buf + [Numbered(q[0], snd.nxt, st)]);
      AdmitOne(snd, cwnd);
      assert Admit(snd, cwnd, st) == Admit(snd1, cwnd, st);
      hide Admit;
      AdmitMeans(snd1, cwnd, st);
      NumberedAllCons(q[..m], snd.nxt, st);
      Seqs.SliceTail(q, m);
      WrapAdd(snd.nxt + 1, m - 1);
      Seqs.Assoc(snd.buf, [Numbered(q[0], snd.nxt, st)], NumberedAll(q[1..][..m - 1], snd1.nxt, st));
    } else {
      NumberedNone(snd, st);
    }
  }

  lemma {:induction false} NumberedNone(snd: Snd, st: Stamp)
    ensures Snd(snd.una, Wrap(snd.nxt + 0), snd.queue[0..], snd.buf + NumberedAll(snd.queue[..0], snd.nxt, st)) == snd
  {
    assert NumberedAll(snd.queue[..0], snd.nxt, st) == [];
  }

  lemma {:induction false} AdmitOne(snd: Snd, cwnd: u32)
    requires Off(snd.nxt, snd.una) <= SPAN && cwnd <= SPAN && Room(snd, cwnd) > 0
    ensures Off(Wrap(snd.nxt + 1), snd.una) == Off(snd.nxt, snd.una) + 1 <= SPAN
    ensures Min(|snd.queue| - 1, Max(0, cwnd - Off(Wrap(snd.nxt + 1), snd.una))) == Room(snd, cwnd) - 1
  {
    AdmittedOffset(snd, 1);
    hide Off, Wrap;
  }

  lemma {:induction false} AdmitGuard(snd: Snd, cwnd: u32)
    requires Off(snd.nxt, snd.una) <= SPAN && cwnd <= SPAN
    ensures TimeDiff(snd.nxt, Wrap(snd.una + cwnd)) == Off(snd.nxt, snd.una) - cwnd
  {
    assert Off(Wrap(snd.una + cwnd), snd.una) == cwnd;
    TimeDiffByOff(snd.nxt, Wrap(snd.una + cwnd), snd.una);
  }

  lemma {:induction false} NumberedAllCons(queue: seq<Segment>, sn: u32, st: Stamp)
    requires queue != []
    ensures NumberedAll(queue, sn, st) == [Numbered(queue[0], sn, st)] + NumberedAll(queue[1..], Wrap(sn + 1), st)
  {
    var a, b := NumberedAll(queue, sn, st), NumberedAll(queue[1..], Wrap(sn + 1), st);
    forall i | 0 < i < |a| ensures a[i] == b[i - 1] {
      WrapAdd(sn + 1, i - 1);
    }
  }

  lemma {:induction false} AdmittedOffset(snd: Snd, i: nat)
    requires Off(snd.nxt, snd.una) + i < TWO32
    ensures Off(Wrap(snd.nxt + i), snd.una) == Off(snd.nxt, snd.una) + i
  {
  }

  lemma {:induction false} AscendingAppend(buf: seq<Segment>, more: seq<Segment>, base: u32, top: nat)
    requires Ascending(buf, base, top)
    requires forall j :: 0 <= j < |more| ==> Off(more[j].sn, base) == top + j
    ensures Ascending(buf + more, base, top + |more|)
  {
    hide Off;
    var b := buf + more;
    assert forall i :: 0 <= i < |b| ==> b[i] == if i < |buf| then buf[i] else more[i - |buf|];
  }

  lemma {:induction false} NumberedOffsets(snd: Snd, queue: seq<Segment>, st: Stamp)
    requires Off(snd.nxt, snd.una) + |queue| < TWO32
    ensures var more := NumberedAll(queue, snd.nxt, st);
            && |more| == |queue|
            && forall j :: 0 <= j < |more| ==> Off(more[j].sn, snd.una) == Off(snd.nxt, snd.una) + j
  {
    var more := NumberedAll(queue, snd.nxt, st);
    forall j | 0 <= j < |more| ensures Off(more[j].sn, snd.una) == Off(snd.nxt, snd.una) + j {
      AdmittedOffset(snd, j);
    }
  }

  lemma {:induction false} AdmitKeeps(snd: Snd, cwnd: u32, st: Stamp)
    requires Window(snd) && cwnd <= SPAN
    ensures Window(Admit(snd, cwnd, st))
    ensures Off(Admit(snd, cwnd, st).nxt, snd.una) == Off(snd.nxt, snd.una) + Room(snd, cwnd)
  {
    hide Off, Admit, Wrap, NumberedAll;
    AdmitMeans(snd, cwnd, st);
    var m := Room(snd, cwnd);
    NumberedOffsets(snd, snd.queue[..m], st);
    AdmittedOffset(snd, m);
    AscendingAppend(snd.buf, NumberedAll(snd.queue[..m], snd.nxt, st), snd.una, Off(snd.nxt, snd.una));
    if snd.buf == [] {
      FirstNumber(snd, st);
    }
  }

  lemma {:induction false} FirstNumber(snd: Snd, st: Stamp)
    requires snd.una == snd.nxt
    ensures Wrap(snd.nxt + 0) == snd.una
    ensures forall m :: 0 < m <= |snd.queue| ==> NumberedAll(snd.queue[..m], snd.nxt, st)[0].sn == snd.una
  {
  }
}
