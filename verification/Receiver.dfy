/** The receive window: `rcv_buf` is sorted, free of duplicates and inside
    [rcv_nxt, rcv_nxt + rcv_wnd); `rcv_queue` holds at most `rcv_wnd` segments; and the move from
    one to the other always goes as far as it can. Together they refine a set of received numbers. */
module Receiver {
  import opened Serial
  import opened Wire
  import opened Engine
  import opened SenderWindow
  import Seqs

  ghost predicate InWindow(rcv: Rcv, wnd: u32) {
    && 0 < wnd < TWO31
    && |rcv.queue| <= wnd
    && Ascending(rcv.buf, rcv.nxt, wnd)
  }

  /** The drain stopped for a reason: nothing buffered, a gap at `rcv_nxt`, or a full queue. */
  ghost predicate Drained(rcv: Rcv, wnd: u32) {
    rcv.buf == [] || rcv.buf[0].sn != rcv.nxt || |rcv.queue| >= wnd
  }

  ghost predicate Good(rcv: Rcv, wnd: u32) {
    InWindow(rcv, wnd) && Drained(rcv, wnd)
  }

  /** The drain moves a run of consecutive numbers that starts at `rcv_nxt`. */
  lemma {:induction false} DrainRun(nxt: u32, q: nat, buf: seq<Segment>, wnd: u32)
    ensures forall i {:trigger buf[i]} :: 0 <= i < DrainCount(nxt, q, buf, wnd) ==> buf[i].sn == Wrap(nxt + i)
    decreases |buf|
  {
    var m := DrainCount(nxt, q, buf, wnd);
    if m > 0 {
      DrainRun(Wrap(nxt + 1), q + 1, buf[1..], wnd);
      assert m == 1 + DrainCount(Wrap(nxt + 1), q + 1, buf[1..], wnd);
      WrapIs(nxt + 0, 0);
      hide DrainCount, Wrap;
      forall i | 0 < i < m ensures buf[i].sn == Wrap(nxt + i) {
        assert buf[i] == buf[1..][i - 1];
        WrapAdd(nxt + 1, i - 1);
      }
    }
  }

  /** Distances on both sides of a run of `m` consecutive numbers. */
  lemma {:induction false} RunOffsets(buf: seq<Segment>, base: u32, top: nat, m: nat)
    requires Ascending(buf, base, top) && top < TWO31 && m <= |buf|
    requires forall i {:trigger buf[i]} :: 0 <= i < m ==> buf[i].sn == Wrap(base + i)
    ensures forall i :: 0 <= i < m ==> Off(buf[i].sn, base) == i
    ensures forall i :: m <= i < |buf| ==>
              Off(buf[i].sn, base) >= m && Off(buf[i].sn, Wrap(base + m)) == Off(buf[i].sn, base) - m
  {
    AscendingCounts(buf, base, top);
    assert m <= top;
    forall i | 0 <= i < |buf| && i < m ensures Off(buf[i].sn, base) == i {
      OffAbove(base, i);
    }
    OffAbove(base, m);
    forall i | m <= i < |buf|
      ensures Off(buf[i].sn, base) >= m && Off(buf[i].sn, Wrap(base + m)) == Off(buf[i].sn, base) - m
    {
      OffRebase(buf[i].sn, base, Wrap(base + m));
    }
  }

  lemma {:induction false} OffAbove(base: u32, d: nat)
    requires d < TWO32
    ensures Off(Wrap(base + d), base) == d
  {
  }

  /** Strictly increasing distances leave no room for more than `top` segments. */
  lemma {:induction false} AscendingCounts(buf: seq<Segment>, base: u32, top: nat)
    requires Ascending(buf, base, top)
    ensures |buf| <= top
    ensures forall i :: 0 <= i < |buf| ==> Off(buf[i].sn, base) >= i
  {
    if buf != [] {
      var l := |buf| - 1;
      hide Off;
      AscendingCounts(buf[..l], base, Off(buf[l].sn, base));
    }
  }

  /** The run is maximal. */
  lemma {:induction false} DrainStops(nxt: u32, q: nat, buf: seq<Segment>, wnd: u32)
    ensures var m := DrainCount(nxt, q, buf, wnd);
            m < |buf| && q + m < wnd ==> buf[m].sn != Wrap(nxt + m)
    decreases |buf|
  {
    var m := DrainCount(nxt, q, buf, wnd);
    WrapIs(nxt + 0, 0);
    if m > 0 {
      DrainStops(Wrap(nxt + 1), q + 1, buf[1..], wnd);
      WrapAdd(nxt + 1, m - 1);
    }
  }

  lemma {:induction false} DroppedAscending(buf: seq<Segment>, base: u32, base': u32, top: nat, m: nat)
    requires Ascending(buf, base, top) && m <= |buf|
    requires forall i :: m <= i < |buf| ==> Off(buf[i].sn, base') == Off(buf[i].sn, base) - m
    ensures Ascending(buf[m..], base', top)
  {
    hide Off;
    assert forall i :: 0 <= i < |buf| - m ==> buf[m..][i] == buf[m + i];
  }

  /** The backward scan stops just above the last number that is not greater. */
  lemma {:induction false} ScanBackMeans(buf: seq<Segment>, sn: u32, base: u32, top: nat)
    requires top < TWO31 && Ascending(buf, base, top) && Off(sn, base) < top
    ensures var i := ScanBack(buf, sn);
            && (forall j :: 0 <= j < i ==> Off(buf[j].sn, base) <= Off(sn, base))
            && (forall j :: i <= j < |buf| ==> Off(buf[j].sn, base) > Off(sn, base))
            && (forall j :: 0 <= j < |buf| && buf[j].sn == sn ==> j == i - 1)
  {
    hide Off, TimeDiff;
    if buf != [] {
      var l := |buf| - 1;
      TimeDiffByOff(sn, buf[l].sn, base);
      if Off(buf[l].sn, base) > Off(sn, base) {
        ScanBackMeans(buf[..l], sn, base, top);
      } else if Off(buf[l].sn, base) == Off(sn, base) {
        SameOffSame(buf[l].sn, sn, base);
      }
    }
  }

  lemma {:induction false} SameOffSame(x: u32, y: u32, base: u32)
    requires Off(x, base) == Off(y, base)
    ensures x == y
  {
    WrapOff(x, base);
    WrapOff(y, base);
  }

  lemma {:induction false} AscendingInsert(buf: seq<Segment>, s: Segment, i: nat, base: u32, top: nat)
    requires i <= |buf| && Ascending(buf, base, top) && Off(s.sn, base) < top
    requires forall j :: 0 <= j < i ==> Off(buf[j].sn, base) < Off(s.sn, base)
    requires forall j :: i <= j < |buf| ==> Off(buf[j].sn, base) > Off(s.sn, base)
    ensures Ascending(buf[..i] + [s] + buf[i..], base, top)
  {
    hide Ascending, Off;
    Seqs.InsertIndex(buf, i, s);
    InsertedAscending(buf, s, i, buf[..i] + [s] + buf[i..], base, top);
  }

  /** `b` is `buf` with `s` put in at `i`. */
  ghost predicate Spliced(buf: seq<Segment>, s: Segment, i: nat, b: seq<Segment>) {
    && i <= |buf| && |b| == |buf| + 1 && b[i] == s
    && (forall j :: 0 <= j < i ==> b[j] == buf[j])
    && (forall j :: i < j < |b| ==> b[j] == buf[j - 1])
  }

  lemma {:induction false} InsertedAscending(buf: seq<Segment>, s: Segment, i: nat, b: seq<Segment>, base: u32,
                                             top: nat)
    requires Spliced(buf, s, i, b) && Ascending(buf, base, top) && Off(s.sn, base) < top
    requires forall j :: 0 <= j < i ==> Off(buf[j].sn, base) < Off(s.sn, base)
    requires forall j :: i <= j < |buf| ==> Off(buf[j].sn, base) > Off(s.sn, base)
    ensures Ascending(b, base, top)
  {
    hide Off;
  }

  ghost predicate Buffered(buf: seq<Segment>, sn: u32) {
    exists j :: 0 <= j < |buf| && buf[j].sn == sn
  }

  /** Insertion keeps the buffer sorted and adds the segment exactly if its number is new. */
  lemma {:induction false} InsertMeans(buf: seq<Segment>, s: Segment, base: u32, top: nat) returns (i: nat)
    requires top < TWO31 && Ascending(buf, base, top) && Off(s.sn, base) < top
    ensures i <= |buf| && Ascending(Insert(buf, s), base, top)
    ensures Insert(buf, s) == if Buffered(buf, s.sn) then buf else buf[..i] + [s] + buf[i..]
  {
    i := ScanBack(buf, s.sn);
    ScanBackMeans(buf, s.sn, base, top);
    hide Off, Ascending, ScanBack;
    if !Buffered(buf, s.sn) {
      forall j | 0 <= j < i ensures Off(buf[j].sn, base) < Off(s.sn, base) {
        if Off(buf[j].sn, base) == Off(s.sn, base) {
          SameOffSame(buf[j].sn, s.sn, base);
        }
      }
      AscendingInsert(buf, s, i, base, top);
    }
  }

  /** Which numbers the receiver reads as acceptable, and which as worth acknowledging, given the
      distance of the 32-bit number above `rcv_nxt`. */
  lemma {:induction false} WindowTests(rcv: Rcv, wnd: u32, sn: u32)
    requires 0 < wnd < TWO31
    ensures BelowWindowEnd(rcv, wnd, sn) && TimeDiff(sn, rcv.nxt) >= 0 <==> Off(sn, rcv.nxt) < wnd
    ensures BelowWindowEnd(rcv, wnd, sn) <==> Off(sn, rcv.nxt) < wnd || Off(sn, rcv.nxt) >= wnd + TWO31
  {
    var o := Off(sn, rcv.nxt);
    WrapMinus(sn, rcv.nxt, wnd);
    assert TimeDiff(sn, rcv.nxt) == Signed(o);
    assert BelowWindowEnd(rcv, wnd, sn) <==> Signed(Wrap(o - wnd)) < 0;
    hide Off, TimeDiff, BelowWindowEnd, Wrap;
    WrapIs(o - wnd, if o < wnd then 1 else 0);
  }

  /** Number `x` has been received, when `r` numbers have been passed on: it is one of those, or it
      is buffered. */
  ghost predicate Has(rcv: Rcv, r: int, x: int) {
    x < r || exists i :: 0 <= i < |rcv.buf| && r + Off(rcv.buf[i].sn, rcv.nxt) == x
  }

  lemma {:induction false} DropHasOne(rcv: Rcv, d: Rcv, m: nat, r: int, x: int)
    requires m <= |rcv.buf| && d.buf == rcv.buf[m..]
    requires forall i :: 0 <= i < m ==> Off(rcv.buf[i].sn, rcv.nxt) == i
    requires forall i :: m <= i < |rcv.buf| ==>
              Off(rcv.buf[i].sn, rcv.nxt) >= m && Off(rcv.buf[i].sn, d.nxt) == Off(rcv.buf[i].sn, rcv.nxt) - m
    ensures Has(d, r + m, x) <==> Has(rcv, r, x)
  {
    hide Off;
    if r <= x < r + m {
      assert r + Off(rcv.buf[x - r].sn, rcv.nxt) == x;
    } else if x >= r + m {
      if i: nat :| i < |rcv.buf| && r + Off(rcv.buf[i].sn, rcv.nxt) == x {
        assert d.buf[i - m] == rcv.buf[i];
        assert r + m + Off(d.buf[i - m].sn, d.nxt) == x;
      }
      if i: nat :| i < |d.buf| && r + m + Off(d.buf[i].sn, d.nxt) == x {
        assert d.buf[i] == rcv.buf[i + m];
        assert r + Off(rcv.buf[i + m].sn, rcv.nxt) == x;
      }
    }
  }

  lemma {:induction false} DropHas(rcv: Rcv, d: Rcv, wnd: u32, m: nat, r: int)
    requires InWindow(rcv, wnd) && m <= |rcv.buf| && d.buf == rcv.buf[m..] && d.nxt == Wrap(rcv.nxt + m)
    requires forall i {:trigger rcv.buf[i]} :: 0 <= i < m ==> rcv.buf[i].sn == Wrap(rcv.nxt + i)
    ensures forall x :: Has(d, r + m, x) <==> Has(rcv, r, x)
    ensures Ascending(d.buf, d.nxt, wnd)
  {
    hide Has, Off, Wrap, Ascending;
    RunOffsets(rcv.buf, rcv.nxt, wnd, m);
    forall x ensures Has(d, r + m, x) <==> Has(rcv, r, x) {
      DropHasOne(rcv, d, m, r, x);
    }
    DroppedAscending(rcv.buf, rcv.nxt, d.nxt, wnd, m);
  }

  /** The drain passes on a run of consecutive numbers that starts at `rcv_nxt`, goes as far as it
      can, and forgets nothing. */
  lemma {:induction false} DrainHas(rcv: Rcv, wnd: u32, r: int)
    requires InWindow(rcv, wnd)
    ensures var m := DrainCount(rcv.nxt, |rcv.queue|, rcv.buf, wnd);
            && (forall i {:trigger rcv.buf[i]} :: 0 <= i < m ==> rcv.buf[i].sn == Wrap(rcv.nxt + i))
            && (forall x :: Has(Drain(rcv, wnd), r + m, x) <==> Has(rcv, r, x))
    ensures Good(Drain(rcv, wnd), wnd)
  {
    hide DrainCount, Has, Off, Wrap, Ascending;
    DrainRun(rcv.nxt, |rcv.queue|, rcv.buf, wnd);
    DrainStops(rcv.nxt, |rcv.queue|, rcv.buf, wnd);
    DropHas(rcv, Drain(rcv, wnd), wnd, DrainCount(rcv.nxt, |rcv.queue|, rcv.buf, wnd), r);
  }

  lemma {:induction false} InsertHas(rcv: Rcv, wnd: u32, s: Segment, r: int)
    requires InWindow(rcv, wnd) && Off(s.sn, rcv.nxt) < wnd
    ensures InWindow(rcv.(buf := Insert(rcv.buf, s)), wnd)
    ensures forall x :: Has(rcv.(buf := Insert(rcv.buf, s)), r, x) <==> Has(rcv, r, x) || x == r + Off(s.sn, rcv.nxt)
  {
    var i := InsertMeans(rcv.buf, s, rcv.nxt, wnd);
    hide Off, Insert, Ascending;
    if Buffered(rcv.buf, s.sn) {
      var j :| 0 <= j < |rcv.buf| && rcv.buf[j].sn == s.sn;
      assert r + Off(rcv.buf[j].sn, rcv.nxt) == r + Off(s.sn, rcv.nxt);
    } else {
      SpliceHas(rcv, i, s, r);
    }
  }

  lemma {:induction false} SpliceHas(rcv: Rcv, i: nat, s: Segment, r: int)
    requires i <= |rcv.buf|
    ensures var d := rcv.(buf := rcv.buf[..i] + [s] + rcv.buf[i..]);
            forall x :: Has(d, r, x) <==> Has(rcv, r, x) || x == r + Off(s.sn, rcv.nxt)
  {
    hide Off, Has;
    Seqs.InsertIndex(rcv.buf, i, s);
    SplicedHas(rcv, i, s, rcv.buf[..i] + [s] + rcv.buf[i..], r);
  }

  lemma {:induction false} SplicedHas(rcv: Rcv, i: nat, s: Segment, b: seq<Segment>, r: int)
    requires Spliced(rcv.buf, s, i, b)
    ensures forall x :: Has(rcv.(buf := b), r, x) <==> Has(rcv, r, x) || x == r + Off(s.sn, rcv.nxt)
  {
    hide Off;
    var buf, d := rcv.buf, rcv.(buf := b);
    forall x | Has(rcv, r, x) ensures Has(d, r, x) {
      if x >= r {
        var j :| 0 <= j < |buf| && r + Off(buf[j].sn, rcv.nxt) == x;
        assert b[if j < i then j else j + 1] == buf[j];
      }
    }
    assert r + Off(b[i].sn, d.nxt) == r + Off(s.sn, rcv.nxt);
    forall x | Has(d, r, x) ensures Has(rcv, r, x) || x == r + Off(s.sn, rcv.nxt) {
      if x >= r {
        var j :| 0 <= j < |b| && r + Off(b[j].sn, rcv.nxt) == x;
        assert j != i ==> b[j] == buf[if j < i then j else j - 1];
      }
    }
  }

  /** The set model of the receiver: the numbers received so far and how many the reader took. */
  ghost predicate Models(rcv: Rcv, wnd: u32, r: int, have: iset<int>, read: int) {
    && Good(rcv, wnd)
    && rcv.nxt == Wrap(r)
    && r == read + |rcv.queue|
    && (forall x :: x in have <==> Has(rcv, r, x))
  }

  /** In the set model `rcv_nxt` is determined: it is the first number missing, unless the reader is
      a whole window behind. */
  lemma {:induction false} FrontierDetermined(rcv: Rcv, wnd: u32, r: int, have: iset<int>, read: int)
    requires Models(rcv, wnd, r, have, read)
    ensures forall x :: x < r ==> x in have
    ensures r <= read + wnd
    ensures r !in have || r == read + wnd
  {
    if r in have {
      var i :| 0 <= i < |rcv.buf| && r + Off(rcv.buf[i].sn, rcv.nxt) == r;
      WrapOff(rcv.buf[i].sn, rcv.nxt);
      AscendingCounts(rcv.buf, rcv.nxt, wnd);
    }
  }

  /** Any data segment, from any bytes: its number, read relative to `rcv_nxt`, joins the set exactly
      if it lies in the window, and it is acknowledged exactly if it lies below the window's end;
      nothing else changes. */
  lemma {:induction false} PushRefines(rcv: Rcv, wnd: u32, s: Segment, r: int, have: iset<int>,
      read: int) returns (r': int)
    requires Models(rcv, wnd, r, have, read)
    ensures var n := r + TimeDiff(s.sn, rcv.nxt);
            var d := TakePush(rcv, wnd, s);
            && Models(d, wnd, r', if r <= n < r + wnd then have + iset{n} else have, read)
            && d.acks == (if r + wnd - TWO31 <= n < r + wnd then rcv.acks + [Ack(s.sn, s.ts)] else rcv.acks)
            && (n < r + wnd - TWO31 || r + wnd <= n ==> d == rcv)
            && rcv.queue <= d.queue
  {
    var o, n := Off(s.sn, rcv.nxt), r + TimeDiff(s.sn, rcv.nxt);
    WindowTests(rcv, wnd, s.sn);
    assert n - r == Signed(o);
    hide Off, TimeDiff, Drain, Insert, BelowWindowEnd;
    r' := r;
    if o < wnd {
      r' := AcceptRefines(rcv, wnd, s, r, have, read);
    } else {
      var acked := rcv.(acks := rcv.acks + [Ack(s.sn, s.ts)]);
      assert forall x :: Has(acked, r, x) <==> Has(rcv, r, x);
      assert TakePush(rcv, wnd, s) == if BelowWindowEnd(rcv, wnd, s.sn) then acked else rcv;
    }
  }

  lemma {:induction false} DrainModels(rcv: Rcv, wnd: u32, r: int, have: iset<int>, read: int) returns (r': int)
    requires InWindow(rcv, wnd) && rcv.nxt == Wrap(r) && r == read + |rcv.queue|
    requires forall x :: x in have <==> Has(rcv, r, x)
    ensures Models(Drain(rcv, wnd), wnd, r', have, read)
    ensures rcv.queue <= Drain(rcv, wnd).queue && Drain(rcv, wnd).acks == rcv.acks
  {
    hide DrainCount, Off, Wrap, Good, Has;
    DrainHas(rcv, wnd, r);
    var m := DrainCount(rcv.nxt, |rcv.queue|, rcv.buf, wnd);
    r' := r + m;
    WrapAdd(r, m);
  }

  lemma {:induction false} AcceptRefines(rcv: Rcv, wnd: u32, s: Segment, r: int, have: iset<int>,
      read: int) returns (r': int)
    requires Models(rcv, wnd, r, have, read) && Off(s.sn, rcv.nxt) < wnd
    ensures Models(TakePush(rcv, wnd, s), wnd, r', have + iset{r + Off(s.sn, rcv.nxt)}, read)
    ensures TakePush(rcv, wnd, s).acks == rcv.acks + [Ack(s.sn, s.ts)] && rcv.queue <= TakePush(rcv, wnd, s).queue
  {
    hide TakePush, Insert, Drain, Off, Ascending, Wrap, Has, Drained, Models, BelowWindowEnd, TimeDiff;
    var acked := rcv.(acks := rcv.acks + [Ack(s.sn, s.ts)]);
    var i := acked.(buf := Insert(rcv.buf, s));
    ModelsParts(rcv, wnd, r, have, read);
    TakenIs(rcv, wnd, s);
    AcksHave(rcv, acked.acks, r);
    InsertHas(acked, wnd, s, r);
    var have' := have + iset{r + Off(s.sn, rcv.nxt)};
    assert forall x :: x in have' <==> Has(i, r, x);
    r' := DrainModels(i, wnd, r, have', read);
  }

  lemma {:induction false} ModelsParts(rcv: Rcv, wnd: u32, r: int, have: iset<int>, read: int)
    requires Models(rcv, wnd, r, have, read)
    ensures InWindow(rcv, wnd) && rcv.nxt == Wrap(r) && r == read + |rcv.queue|
    ensures forall x :: x in have <==> Has(rcv, r, x)
  {
    hide Has, Wrap, Off;
  }

  lemma {:induction false} AcksHave(rcv: Rcv, acks: seq<Ack>, r: int)
    ensures forall x :: Has(rcv.(acks := acks), r, x) <==> Has(rcv, r, x)
    ensures forall wnd :: InWindow(rcv, wnd) ==> InWindow(rcv.(acks := acks), wnd)
  {
    hide Off;
  }

  lemma {:induction false} TakenIs(rcv: Rcv, wnd: u32, s: Segment)
    requires 0 < wnd < TWO31 && Off(s.sn, rcv.nxt) < wnd
    ensures TakePush(rcv, wnd, s)
         == Drain(rcv.(acks := rcv.acks + [Ack(s.sn, s.ts)], buf := Insert(rcv.buf, s)), wnd)
  {
    WindowTests(rcv, wnd, s.sn);
    hide Drain, Insert, Off;
  }

  /** Taking `c` segments from the queue and draining again. */
  lemma {:induction false} ReadRefines(rcv: Rcv, wnd: u32, c: nat, r: int, have: iset<int>, read: int) returns (r': int)
    requires Models(rcv, wnd, r, have, read) && c <= |rcv.queue|
    ensures Models(Drain(rcv.(queue := rcv.queue[c..]), wnd), wnd, r', have, read + c)
  {
    var kept := rcv.(queue := rcv.queue[c..]);
    assert forall x :: Has(kept, r, x) <==> Has(rcv, r, x);
    hide Drain, Has;
    r' := DrainModels(kept, wnd, r, have, read + c);
  }

  lemma {:induction false} DrainAcks(rcv: Rcv, wnd: u32)
    ensures Drain(rcv, wnd) == Drain(rcv.(acks := []), wnd).(acks := rcv.acks)
  {
  }

  /** Moving one segment by hand leaves the rest of the drain as it was. */
  lemma {:induction false} DrainStep(rcv: Rcv, wnd: u32)
    requires rcv.buf != [] && rcv.buf[0].sn == rcv.nxt && |rcv.queue| < wnd
    ensures Drain(rcv, wnd) == Drain(Rcv(Wrap(rcv.nxt + 1), rcv.queue + [rcv.buf[0]], rcv.buf[1..], rcv.acks), wnd)
  {
    var m := DrainCount(rcv.nxt, |rcv.queue|, rcv.buf, wnd);
    assert m == 1 + DrainCount(Wrap(rcv.nxt + 1), |rcv.queue| + 1, rcv.buf[1..], wnd);
    hide DrainCount, Wrap;
    Seqs.SliceTail(rcv.buf, m);
    Seqs.Assoc(rcv.queue, [rcv.buf[0]], rcv.buf[1..][..m - 1]);
    Seqs.ConsTail(rcv.buf[..m]);
    WrapAdd(rcv.nxt + 1, m - 1);
  }

  /** The queue is already drained, so draining again does nothing. */
  lemma {:induction false} DrainIdle(rcv: Rcv, wnd: u32)
    requires Drained(rcv, wnd)
    ensures Drain(rcv, wnd) == rcv
  {
  }
}
