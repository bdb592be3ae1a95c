/** No deadlock: from every state of every run of two endpoints whose receive windows fit the 16-bit field
    they are announced in, some continuation delivers everything that was sent, in both directions. */
module Progress {
  import opened Serial
  import opened Seqs
  import opened Wire
  import opened Engine
  import opened SenderWindow
  import opened Receiver
  import opened Invariant
  import opened Messages
  import opened Delivery
  import opened Emission
  import opened Network
  import opened Safety
  import Probing
  import Congestion

  // ---------- continuations ----------

  ghost predicate Path(ws: seq<World>) {
    ws != [] && forall i :: 0 <= i < |ws| - 1 ==> Transition(ws[i], ws[i + 1])
  }

  ghost predicate Reaches(w: World, w': World) {
    exists ws :: Path(ws) && ws[0] == w && ws[|ws| - 1] == w'
  }

  /** How many fragments `x` took in that have not come to `y` in order. */
  function Missing(x: Node, y: Node): int {
    |x.sent| + |x.k.snd.queue| - |y.Received()|
  }

  ghost predicate Kept(n: Node, n': Node) {
    && n'.k.cfg == n.k.cfg && n'.accepted == n.accepted && |n.sent| <= |n'.sent|
    && |n'.sent| + |n'.k.snd.queue| == |n.sent| + |n.k.snd.queue|
  }

  /** A state on a continuation in which nothing more is sent. */
  ghost predicate Later(w: World, w': World) {
    && Reaches(w, w') && FullInv(w') && Kept(w.a, w'.a) && Kept(w.b, w'.b)
    && Missing(w'.a, w'.b) <= Missing(w.a, w.b) && Missing(w'.b, w'.a) <= Missing(w.b, w.a)
    && w.ab <= w'.ab && w.ba <= w'.ba
  }

  lemma {:induction false} LaterSelf(w: World)
    requires FullInv(w)
    ensures Later(w, w)
  {
    hide FullInv;
    assert Path([w]) && [w][0] == w;
  }

  lemma {:induction false} LaterLater(u: World, v: World, w: World)
    requires Later(u, v) && Later(v, w)
    ensures Later(u, w)
  {
    hide FullInv, Path;
    ReachesReaches(u, v, w);
  }

  lemma {:induction false} ReachesReaches(u: World, v: World, w: World)
    requires Reaches(u, v) && Reaches(v, w)
    ensures Reaches(u, w)
  {
    hide Transition;
    var a :| Path(a) && a[0] == u && a[|a| - 1] == v;
    var b :| Path(b) && b[0] == v && b[|b| - 1] == w;
    var c := a + b[1..];
    forall i | 0 <= i < |c| - 1 ensures Transition(c[i], c[i + 1]) {
      if i < |a| - 1 {
        assert c[i] == a[i] && c[i + 1] == a[i + 1];
      } else {
        var j := i - |a| + 1;
        assert c[i] == b[j] && c[i + 1] == b[j + 1];
        assert Transition(b[j], b[j + 1]);
      }
    }
    assert Path(c) && c[0] == u && c[|c| - 1] == w;
  }

  // ---------- single steps ----------

  /** The datagrams from the first to the second of `Ends(w, back)`. */
  function Net(w: World, back: bool): set<Packet> {
    if back then w.ba else w.ab
  }

  /** A call at the first of the two ends, other than `ikcp_send`. */
  lemma {:induction false} Call(w: World, back: bool, e: Event) returns (w': World)
    requires FullInv(w) && !e.DoSend?
    requires e.Deliver? ==> e.p in Net(w, !back) && Timely(e.p, Ends(w, back).1, Ends(w, back).0)
    ensures Later(w, w')
    ensures Ends(w', back) == (Act(Ends(w, back).0, e).0, Ends(w, back).1)
    ensures Net(w', back) == Net(w, back) + Act(Ends(w, back).0, e).1 && Net(w', !back) == Net(w, !back)
  {
    var (x, y) := Ends(w, back);
    var (x', new') := Act(x, e);
    hide Act, Timely, FullInv;
    w' := if back then World(w.a, x', w.ab, w.ba + new') else World(x', w.b, w.ab + new', w.ba);
    assert if back then StepAtB(w, e, w') else StepAtA(w, e, w');
    assert Transition(w, w');
    StepKeepsFullInv(w, w');
    assert Inv(x.k) by { BothInv(w); }
    assert Path([w, w']) && [w, w'][0] == w && [w, w'][1] == w';
    CallKeeps(x, y, e);
  }

  lemma {:induction false} BothInv(w: World)
    requires FullInv(w)
    ensures Inv(w.a.k) && Inv(w.b.k)
  {
    hide Inv, Readable, Direction, Conveys;
  }

  lemma {:induction false} CallKeeps(x: Node, y: Node, e: Event)
    requires Inv(x.k) && !e.DoSend?
    ensures var x' := Act(x, e).0;
            && Kept(x, x') && Missing(x', y) <= Missing(x, y) && Missing(y, x') <= Missing(y, x)
  {
    hide Inv, Engine.Flush, Engine.Update, Engine.Input;
    match e
    case DoRecv(len) => RecvMissing(x, y, len);
    case DoUpdate(now) =>
      UpdateTakes(x.k, now);
      UpdateRcv(x.k, now);
      FlushMissing(x, y, Engine.Update(x.k, now));
    case DoFlush =>
      FlushTakes(x.k);
      FlushRcv(x.k);
      FlushMissing(x, y, Engine.Flush(x.k));
    case Deliver(p) =>
      InputQueue(x.k, p.bytes);
      InputRcv(x, p.bytes);
    case DoSend(data) =>
  }

  lemma {:induction false} RecvMissing(x: Node, y: Node, len: int)
    ensures var x' := AfterRecv(x, len);
            Kept(x, x') && Missing(x', y) == Missing(x, y) && Missing(y, x') <= Missing(y, x)
  {
    hide DrainCount, MergeCount, PeekSize, Payload;
  }

  lemma {:induction false} FlushRcv(k: Kcb)
    ensures Engine.Flush(k).k.rcv.queue == k.rcv.queue
  {
    if k.clock.updated {
      FlushShape(k);
    }
    hide Admit, TouchAll, SendWindow, PolicyOf, ProbeTick, Due, Fated, AfterFlush, Pack, Control, Template, AnyDead;
  }

  lemma {:induction false} UpdateRcv(k: Kcb, now: u32)
    ensures Engine.Update(k, now).k.rcv.queue == k.rcv.queue
  {
    hide Engine.Flush, Tick;
    FlushRcv(k.(clock := Tick(k.clock, now, k.cfg.interval).0));
  }

  lemma {:induction false} FlushMissing(x: Node, y: Node, f: Flushed)
    requires f.k.cfg == x.k.cfg && f.k.rcv.queue == x.k.rcv.queue && |f.k.snd.queue| <= |x.k.snd.queue|
    ensures var x' := AfterFlushing(x, f).0;
            Kept(x, x') && Missing(x', y) == Missing(x, y) && Missing(y, x') == Missing(y, x)
  {
  }

  lemma {:induction false} InputRcv(x: Node, data: Bytes)
    ensures |x.k.rcv.queue| <= |Engine.Input(x.k, data).0.rcv.queue|
  {
    if |data| >= OVERHEAD {
      var segs := Parse(x.k.cfg.conv, data).segs;
      StepsHalves(x.k, segs);
      RcvStepsGrow(x.k.rcv, x.k.cfg.rcvWnd, segs);
    }
    hide Parse, Steps, RcvSteps, SndSteps, ScanAcks, TakeFast, Grow, TimeDiff;
  }

  lemma {:induction false} RcvStepsGrow(rcv: Rcv, wnd: u32, segs: seq<Segment>)
    ensures |rcv.queue| <= |RcvSteps(rcv, wnd, segs).queue|
  {
    hide TakePush;
    if segs != [] {
      var n := |segs| - 1;
      RcvStepsGrow(rcv, wnd, segs[..n]);
      QueueGrows(RcvSteps(rcv, wnd, segs[..n]), wnd, segs[n]);
    }
  }

  lemma {:induction false} LaterFull(w: World, w': World)
    requires Later(w, w')
    ensures FullInv(w')
  {
    hide FullInv, Reaches;
  }

  lemma {:induction false} FloorBelow(w: World, back: bool)
    requires FullInv(w)
    ensures Ends(w, back).0.floor <= |Ends(w, back).0.Received()|
  {
    hide Inv, Readable, SndOk, RcvOk, Covered, AcksTrue, FwdOk, BwdOk, Conveys;
  }

  /** An update that is not due sets the clock. */
  lemma {:induction false} IdleUpdate(x: Node, now: u32)
    requires !Tick(x.k.clock, now, x.k.cfg.interval).1 && x.floor <= |x.Received()|
    ensures var (x', new') := Act(x, DoUpdate(now));
            && x' == x.(k := x.k.(clock := Tick(x.k.clock, now, x.k.cfg.interval).0), floor := x'.floor)
            && x.floor <= x'.floor <= |x.Received()| && new' == {}
  {
    hide Tick;
    assert x.k.snd.queue[..0] == [] && x.sent + Frags([]) == x.sent;
  }

  /** An update that is due flushes. */
  lemma {:induction false} DueUpdate(x: Node, now: u32)
    requires Tick(x.k.clock, now, x.k.cfg.interval).1
    ensures var x1 := x.(k := x.k.(clock := Tick(x.k.clock, now, x.k.cfg.interval).0));
            Act(x, DoUpdate(now)) == AfterFlushing(x1, Engine.Flush(x1.k))
  {
    hide Tick, Engine.Flush;
  }

  lemma {:induction false} FlushAct(x: Node)
    ensures Act(x, DoFlush) == AfterFlushing(x, Engine.Flush(x.k))
  {
  }

  lemma {:induction false} ReceivedApart(n: Node, n': Node)
    requires n'.k.rcv == n.k.rcv && n'.read == n.read
    ensures n'.Received() == n.Received()
  {
  }

  lemma {:induction false} TickSets(c: Clock, now: u32, interval: u32)
    ensures Tick(c, now, interval).0.current == now && Tick(c, now, interval).0.updated
  {
  }

  /** A flush at a chosen time, by `ikcp_update` or by `ikcp_flush` after it. */
  lemma {:induction false} FlushAt(w: World, back: bool, now: u32) returns (w': World, x1: Node)
    requires FullInv(w)
    ensures var x := Ends(w, back).0;
            && x1 == x.(k := x.k.(clock := x1.k.clock), floor := x1.floor) && x.floor <= x1.floor <= |x.Received()|
            && x1.k.clock.current == now && x1.k.clock.updated && Inv(x1.k) && x1.Received() == x.Received()
    ensures Later(w, w')
    ensures Ends(w', back) == (AfterFlushing(x1, Engine.Flush(x1.k)).0, Ends(w, back).1)
    ensures Net(w', back) == Net(w, back) + AfterFlushing(x1, Engine.Flush(x1.k)).1 && Net(w', !back) == Net(w, !back)
  {
    hide FullInv, Tick, Inv, Engine.Flush, Later, Act, AfterFlushing, Node.Received;
    var (x, y) := Ends(w, back);
    BothInv(w);
    FloorBelow(w, back);
    var (clock, due) := Tick(x.k.clock, now, x.k.cfg.interval);
    TickSets(x.k.clock, now, x.k.cfg.interval);
    ClockInv(x.k, clock);
    x1 := x.(k := x.k.(clock := clock));
    ReceivedApart(x, x1);
    w' := Call(w, back, DoUpdate(now));
    if due {
      DueUpdate(x, now);
    } else {
      IdleUpdate(x, now);
      LaterFull(w, w');
      x1 := Ends(w', back).0;
      ReceivedApart(x, x1);
      var w'' := Call(w', back, DoFlush);
      assert Act(x1, DoFlush) == AfterFlushing(x1, Engine.Flush(x1.k)) by { FlushAct(x1); }
      LaterLater(w, w', w'');
      w' := w'';
    }
  }

  // ---------- sending one more message ----------

  /** One end sends a message of one byte. */
  lemma {:induction false} OneSent(w: World, back: bool, b: u8) returns (w': World)
    requires FullInv(w) && !Ends(w, back).0.k.cfg.stream
    ensures FullInv(w') && Reaches(w, w') && w'.ab == w.ab && w'.ba == w.ba && Ends(w', back).1 == Ends(w, back).1
    ensures var x, x' := Ends(w, back).0, Ends(w', back).0;
            && x' == x.(k := x'.k, accepted := x.accepted + [[b]])
            && x'.k == x.k.(snd := x.k.snd.(queue := x.k.snd.queue + [NewSegment(0, [b])]))
  {
    hide Act, FullInv, AfterSend, Timely;
    var data: Bytes := [b];
    var x := Ends(w, back).0;
    var x' := Act(x, DoSend(data)).0;
    w' := if back then w.(b := x') else w.(a := x');
    SendOne(x, b);
    assert w.ab + {} == w.ab && w.ba + {} == w.ba;
    assert if back then StepAtB(w, DoSend(data), w') else StepAtA(w, DoSend(data), w');
    assert Transition(w, w');
    StepKeepsFullInv(w, w');
    assert Path([w, w']) && [w, w'][0] == w && [w, w'][1] == w';
  }

  lemma {:induction false} SendOne(x: Node, b: u8)
    requires !x.k.cfg.stream
    ensures var x' := AfterSend(x, [b]);
            && x' == x.(k := x'.k, accepted := x.accepted + [[b]])
            && x'.k == x.k.(snd := x.k.snd.(queue := x.k.snd.queue + [NewSegment(0, [b])]))
    ensures Act(x, DoSend([b])) == (AfterSend(x, [b]), {})
  {
    var mss := x.k.cfg.Mss();
    assert [b][..1] == [b] && Min(1, mss) == 1;
    assert Cut([b], mss, 1, false) == [NewSegment(0, [b])];
  }

  // ---------- what a flush leaves and emits ----------

  /** An endpoint after a flush. */
  lemma {:induction false} FlushedNode(x: Node)
    requires Inv(x.k) && x.k.clock.updated
    ensures var x' := AfterFlushing(x, Engine.Flush(x.k)).0;
            && x'.k.rcv == x.k.rcv.(acks := []) && x'.read == x.read && x'.floor == |x.Received()|
            && x'.k.cfg == x.k.cfg && x'.k.rmtWnd == x.k.rmtWnd && x'.k.clock == x.k.clock
            && x'.k.snd.una == x.k.snd.una && |x.sent| <= |x'.sent|
            && (|x'.sent| == |x.sent| ==> x'.k.snd.nxt == x.k.snd.nxt && |x'.k.snd.buf| == |x.k.snd.buf|)
            && |x'.sent| - |x.sent| <= |x.k.snd.queue| && x'.k.snd.queue == x.k.snd.queue[|x'.sent| - |x.sent|..]
            && |x'.sent| - |x.sent| == Room(x.k.snd, SendWindow(x.k))
  {
    FlushShape(x.k);
    FlushNumbers(x);
    hide Engine.Flush, SendWindow, StampOf, TouchAll, Admit, PolicyOf, SndInv, RttInv;
    var k, cwnd := x.k, SendWindow(x.k);
    var m := Room(k.snd, cwnd);
    assert Off(k.snd.nxt, k.snd.una) <= SPAN by { WindowOf(k); }
    hide Inv, Off, Room;
    AdmitMeans(k.snd, cwnd, StampOf(k));
    if m == 0 {
      assert k.snd.queue[..0] == [];
      NumberedNone(k.snd, StampOf(k));
    }
    hide NumberedAll;
  }

  lemma {:induction false} WindowOf(k: Kcb)
    requires Inv(k)
    ensures Window(k.snd) && Off(k.snd.nxt, k.snd.una) <= SPAN
  {
    hide Good, RttInv, Small, Stamped;
  }

  lemma {:induction false} InSomeGroup(groups: seq<seq<Segment>>, s: Segment) returns (g: seq<Segment>)
    requires s in Flatten(groups)
    ensures g in groups && s in g
  {
    var last := |groups| - 1;
    if s in groups[last] {
      g := groups[last];
    } else {
      g := InSomeGroup(groups[..last], s);
    }
  }

  /** A segment a flush means to send is in some datagram, with the acknowledgement and the window that
      every segment of it carries. */
  lemma {:induction false} EmitsIn(x: Node, s: Segment) returns (p: Packet, i: nat)
    requires Inv(x.k) && x.k.clock.updated && s in Outgoing(x.k)
    ensures var (x', new') := AfterFlushing(x, Engine.Flush(x.k));
            && p in new' && p.una == x'.Base() && p.rcvd == |x.Received()| && p.floor == x.floor
    ensures i < |p.segs| && p.segs[i] == OnWire(s)
    ensures forall t :: t in p.segs ==> t.una == x.k.rcv.nxt && t.wnd == WndUnused(x.k.rcv, x.k.cfg.rcvWnd) % 0x1_0000
    ensures Parse(x.k.cfg.conv, p.bytes) == Parsed(p.segs, 0)
  {
    hide Outgoing, Inv, WndUnused, Parse, EncodeAll, Engine.Flush;
    FlushDecodes(x.k);
    var out := Engine.Flush(x.k).out;
    var g := InSomeGroup(out, s);
    var (x', new') := AfterFlushing(x, Engine.Flush(x.k));
    p := Packet(EncodeAll(g), AllOnWire(g), x'.Base(), |x.Received()|, x.floor);
    i :| 0 <= i < |g| && g[i] == s;
    GroupTells(x.k, g);
  }

  /** Every segment of a datagram acknowledges what was received and announces the free window. */
  lemma {:induction false} GroupTells(k: Kcb, g: seq<Segment>)
    requires k.clock.updated && forall s :: s in g ==> s in Outgoing(k)
    ensures forall t :: t in AllOnWire(g) ==> t.una == k.rcv.nxt && t.wnd == WndUnused(k.rcv, k.cfg.rcvWnd) % 0x1_0000
  {
    hide Outgoing, WndUnused, Engine.Flush;
    UnaAndWindow(k);
    forall t | t in AllOnWire(g) ensures t.una == k.rcv.nxt && t.wnd == WndUnused(k.rcv, k.cfg.rcvWnd) % 0x1_0000 {
      var j :| 0 <= j < |g| && OnWire(g[j]) == t;
      assert g[j] in g;
      var l :| 0 <= l < |Outgoing(k)| && Outgoing(k)[l] == g[j];
    }
  }

  // ---------- what a datagram does at the receiver ----------

  /** The fragment the receiver waits for goes to its queue, which has room for it. */
  lemma {:induction false} NextOneDrains(rcv: Rcv, wnd: u32, s: Segment)
    requires Good(rcv, wnd) && s.sn == rcv.nxt && |rcv.queue| < wnd
    ensures |TakePush(rcv, wnd, s).queue| > |rcv.queue|
  {
    PushIs(rcv, wnd, s);
    var i := InsertMeans(rcv.buf, s, rcv.nxt, wnd);
    assert Off(s.sn, rcv.nxt) == 0;
    NotWaiting(rcv, wnd);
    var b := Insert(rcv.buf, s);
    assert b == rcv.buf[..i] + [s] + rcv.buf[i..] && b[i] == s;
    AscendingCounts(b, rcv.nxt, wnd);
    hide Off, Insert, Ascending, TakePush, Wrap;
    var acked := rcv.(acks := rcv.acks + [Ack(s.sn, s.ts)], buf := b);
    assert DrainCount(rcv.nxt, |rcv.queue|, b, wnd) > 0;
  }

  /** The number the receiver waits for is not buffered as long as its queue has room. */
  lemma {:induction false} NotWaiting(rcv: Rcv, wnd: u32)
    requires Good(rcv, wnd) && |rcv.queue| < wnd
    ensures !Buffered(rcv.buf, rcv.nxt) && forall r :: !Has(rcv, r, r)
  {
    AscendingCounts(rcv.buf, rcv.nxt, wnd);
    if rcv.buf != [] {
      WrapOff(rcv.buf[0].sn, rcv.nxt);
      WrapIs(rcv.nxt, 0);
      assert Off(rcv.buf[0].sn, rcv.nxt) != 0;
    }
    assert forall j :: 0 <= j < |rcv.buf| ==> Off(rcv.buf[j].sn, rcv.nxt) != 0;
    assert Off(rcv.nxt, rcv.nxt) == 0;
  }

  lemma {:induction false} LaterSteps(rcv: Rcv, wnd: u32, segs: seq<Segment>, j: nat)
    requires j <= |segs|
    ensures |RcvSteps(rcv, wnd, segs[..j]).queue| <= |RcvSteps(rcv, wnd, segs).queue|
    ensures |RcvSteps(rcv, wnd, segs[..j]).acks| <= |RcvSteps(rcv, wnd, segs).acks|
    decreases |segs|
  {
    hide TakePush;
    if j < |segs| {
      var n := |segs| - 1;
      assert segs[..n][..j] == segs[..j];
      LaterSteps(rcv, wnd, segs[..n], j);
      QueueGrows(RcvSteps(rcv, wnd, segs[..n]), wnd, segs[n]);
      AcksGrow(RcvSteps(rcv, wnd, segs[..n]), wnd, segs[n]);
    } else {
      assert segs[..j] == segs;
    }
  }

  lemma {:induction false} AcksGrow(rcv: Rcv, wnd: u32, s: Segment)
    ensures |TakePush(rcv, wnd, s).acks| >= |rcv.acks|
  {
    hide DrainCount, Insert, TimeDiff;
  }

  lemma {:induction false} GotSize(rcv: Rcv, read: seq<Frag>)
    ensures |Got(rcv, read)| == |read| + |rcv.queue|
  {
  }

  /** A datagram that carries the fragment the receiver waits for brings it on. */
  lemma {:induction false} StepsBring(rcv: Rcv, wnd: u32, segs: seq<Segment>, una: int, sent: seq<Frag>,
                                      read: seq<Frag>, floor: int, i: nat)
    requires RcvOk(rcv, wnd, sent, read) && AcksTrue(rcv.acks, floor, |sent|, rcv, |Got(rcv, read)|)
    requires floor <= una && |sent| <= una + TWO31 && |sent| <= |Got(rcv, read)| + wnd + SPAN
    requires forall i :: 0 <= i < |segs| && segs[i].cmd == CMD_PUSH ==>
               Carries(segs[i], una + Off(segs[i].sn, Wrap(una)), sent)
    requires i < |segs| && segs[i].cmd == CMD_PUSH && segs[i].sn == rcv.nxt && |rcv.queue| < wnd
    ensures |RcvSteps(rcv, wnd, segs).queue| > |rcv.queue|
  {
    hide AcksTrue, Carries, Off, Wrap, Has, Got, Good, TakePush, Buffers, Remembers;
    var e, f := RcvSteps(rcv, wnd, segs[..i]), RcvSteps(rcv, wnd, segs[..i + 1]);
    assert segs[..i + 1][..i] == segs[..i] && segs[..i + 1][i] == segs[i];
    assert f == TakePush(e, wnd, segs[i]);
    RcvStepsOk(rcv, wnd, segs[..i], una, sent, read, floor);
    GotSize(rcv, read);
    GotSize(e, read);
    QueueGrows(e, wnd, segs[i]);
    if |e.queue| == |rcv.queue| {
      NextOneDrains(e, wnd, segs[i]);
    }
    LaterSteps(rcv, wnd, segs, i + 1);
  }

  /** A datagram with a fragment the receiver has passed on is acknowledged. */
  lemma {:induction false} StepsAcked(rcv: Rcv, wnd: u32, segs: seq<Segment>, una: int, sent: seq<Frag>,
                                      read: seq<Frag>, floor: int, i: nat, n: int)
    requires RcvOk(rcv, wnd, sent, read) && AcksTrue(rcv.acks, floor, |sent|, rcv, |Got(rcv, read)|)
    requires floor <= una && |sent| <= una + TWO31 && |sent| == |Got(rcv, read)| && wnd <= SPAN
    requires forall i :: 0 <= i < |segs| && segs[i].cmd == CMD_PUSH ==>
               Carries(segs[i], una + Off(segs[i].sn, Wrap(una)), sent)
    requires i < |segs| && segs[i].cmd == CMD_PUSH && segs[i].sn == Wrap(n) && |sent| - SPAN <= n < |sent|
    ensures RcvSteps(rcv, wnd, segs).acks != []
  {
    hide AcksTrue, Carries, Off, Wrap, Has, Got, Good, TakePush, Buffers, Remembers;
    var e, f := RcvSteps(rcv, wnd, segs[..i]), RcvSteps(rcv, wnd, segs[..i + 1]);
    assert segs[..i + 1][..i] == segs[..i] && segs[..i + 1][i] == segs[i];
    assert f == TakePush(e, wnd, segs[i]);
    RcvStepsOk(rcv, wnd, segs[..i], una, sent, read, floor);
    assert |Got(e, read)| == |sent|;
    OldOneAcked(e, wnd, segs[i], n, |sent|);
    LaterSteps(rcv, wnd, segs, i + 1);
  }

  lemma {:induction false} OldOneAcked(rcv: Rcv, wnd: u32, s: Segment, n: int, r: int)
    requires Good(rcv, wnd) && rcv.nxt == Wrap(r) && s.sn == Wrap(n) && r - SPAN <= n < r && wnd <= SPAN
    ensures TakePush(rcv, wnd, s).acks != []
  {
    OffOfWraps(n, r);
    WrapIs(n - r, 1);
    hide Off, Wrap;
    PushIs(rcv, wnd, s);
    WindowTests(rcv, wnd, s.sn);
  }

  // ---------- what a datagram does at the sender ----------

  /** Acknowledging everything empties the send buffer. */
  lemma {:induction false} AllAcked(snd: Snd, segs: seq<Segment>)
    requires Window(snd) && segs != [] && forall s :: s in segs ==> s.una == snd.nxt
    ensures SndSteps(snd, segs) == Snd(snd.nxt, snd.nxt, snd.queue, [])
  {
    var n := |segs| - 1;
    var s, before := segs[n], segs[..n];
    assert s in segs && forall t :: t in before ==> t in segs;
    if before == [] {
      assert SndSteps(snd, before) == snd;
      LastAcked(snd, s);
    } else {
      AllAcked(snd, before);
      EmptyWindow(Snd(snd.nxt, snd.nxt, snd.queue, []));
      LastAcked(Snd(snd.nxt, snd.nxt, snd.queue, []), s);
    }
  }

  lemma {:induction false} EmptyWindow(snd: Snd)
    requires snd.buf == [] && snd.una == snd.nxt
    ensures Window(snd)
  {
  }

  lemma {:induction false} LastAcked(snd: Snd, s: Segment)
    requires Window(snd) && s.una == snd.nxt
    ensures SndStep(snd, s) == Snd(snd.nxt, snd.nxt, snd.queue, [])
  {
    var n := TakeUnaMeans(snd, s.una);
    WindowCompares(snd, snd.nxt, snd.una);
    assert Off(snd.una, snd.una) == 0;
    hide Off, TimeDiff, InFlight;
    var snd1 := TakeUna(snd, s.una);
    assert n == |snd.buf| && snd1.buf == [];
  }

  /** At the sender, of a datagram in which everything is acknowledged. */
  lemma {:induction false} InputAllAcked(k: Kcb, p: Packet)
    requires Window(k.snd) && Parse(k.cfg.conv, p.bytes) == Parsed(p.segs, 0)
    requires p.segs != [] && forall s :: s in p.segs ==> s.una == k.snd.nxt
    ensures var k' := Engine.Input(k, p.bytes).0;
            && k'.snd == Snd(k.snd.nxt, k.snd.nxt, k.snd.queue, []) && k'.rmtWnd == p.segs[|p.segs| - 1].wnd
  {
    InputIs(k, p);
    InputWindow(k, p);
    hide Engine.Input, Parse, Window, InFlight, SndSteps;
    AllAcked(k.snd, p.segs);
    assert SndSteps(k.snd, p.segs).buf == [];
    FastNone(SndSteps(k.snd, p.segs), ScanAcks(p.segs).maxack);
  }

  lemma {:induction false} FastNone(snd: Snd, sn: u32)
    requires snd.buf == []
    ensures TakeFast(snd, sn) == snd
  {
  }

  lemma {:induction false} InputWindow(k: Kcb, p: Packet)
    requires Parse(k.cfg.conv, p.bytes) == Parsed(p.segs, 0) && p.segs != []
    ensures Engine.Input(k, p.bytes).0.rmtWnd == p.segs[|p.segs| - 1].wnd
  {
    hide Step, ScanAcks, TakeFast, Grow, TimeDiff;
    if |p.bytes| >= OVERHEAD {
      hide Parse;
      assert Steps(k, p.segs).rmtWnd == p.segs[|p.segs| - 1].wnd by {
        StepWindow(Steps(k, p.segs[..|p.segs| - 1]), p.segs[|p.segs| - 1]);
      }
      hide Steps;
    }
  }

  lemma {:induction false} StepWindow(k: Kcb, s: Segment)
    ensures Step(k, s).rmtWnd == s.wnd
  {
  }

  // ---------- what a flush sends again ----------

  lemma {:induction false} DueHas(p: Policy, buf: seq<Segment>, j: nat)
    requires j < |buf| && FateOf(p, buf[j]) != Quiet
    ensures Touch(p, buf[j]) in Due(p, buf)
  {
    hide FateOf, Touch;
    var n := |buf| - 1;
    if j < n {
      DueHas(p, buf[..n], j);
    }
  }

  /** A flush at the deadline of a segment sends it. */
  lemma {:induction false} Resent(k: Kcb, j: nat) returns (t: Segment)
    requires Inv(k) && j < |k.snd.buf| && k.snd.buf[j].resendts == k.clock.current
    ensures t in Outgoing(k) && t.sn == k.snd.buf[j].sn && t.cmd == CMD_PUSH
  {
    var p, s, snd := PolicyOf(k), k.snd.buf[j], Admit(k.snd, SendWindow(k), StampOf(k));
    assert p.st.now == k.clock.current;
    assert FateOf(p, s) != Quiet by { TimeDiffSame(k.clock.current); }
    assert s.cmd == CMD_PUSH && SendWindow(k) <= SPAN;
    hide SendWindow, StampOf, PolicyOf, TimeDiff, FateOf, Control, Inv;
    t := Touch(p, s);
    TouchCore(p, s);
    hide Touch;
    WindowOf(k);
    hide Off, Window, NumberedAll, Admit;
    AdmitMeans(k.snd, SendWindow(k), StampOf(k));
    assert snd.buf[j] == s;
    DueHas(p, snd.buf, j);
  }

  lemma {:induction false} TouchCore(p: Policy, s: Segment)
    ensures Touch(p, s).sn == s.sn && Touch(p, s).cmd == s.cmd
  {
    hide FateOf, BackOff;
  }

  /** A flush answers: it emits something if acknowledgements are pending or the window was asked for. */
  lemma {:induction false} Answers(k: Kcb) returns (t: Segment)
    requires k.rcv.acks != [] || k.probe.tell
    ensures t in Outgoing(k)
  {
    var p := ProbeTick(k.probe, k.rmtWnd, k.clock.current);
    assert p.tell == k.probe.tell;
    var c := Control(Template(k), k.rcv.acks, p);
    hide Template, ProbeTick, Due;
    assert |c| > 0;
    t := c[0];
  }

  /** A flush asks for the window when the probe timer runs out. */
  lemma {:induction false} Asks(k: Kcb) returns (t: Segment)
    requires k.rmtWnd == 0 && k.probe.wait != 0 && k.probe.tsProbe == k.clock.current
    ensures t in Outgoing(k) && t.cmd == CMD_WASK
  {
    var p := ProbeTick(k.probe, k.rmtWnd, k.clock.current);
    assert p.ask by { TimeDiffSame(k.clock.current); }
    var acks := AcksAs(Template(k), k.rcv.acks);
    var last := if acks == [] then Template(k) else acks[|acks| - 1];
    hide Template, ProbeTick, Due, AcksAs;
    t := last.(cmd := CMD_WASK);
    assert Control(Template(k), k.rcv.acks, p)[|acks|] == t;
  }

  // ---------- stages ----------

  /** The free window of either side fits the 16 bits it is announced in. */
  ghost predicate Narrow(w: World) {
    w.a.k.cfg.rcvWnd <= SPAN && w.b.k.cfg.rcvWnd <= SPAN
  }

  /** What `x` emits now is not too old for `y`, by what it acknowledges. */
  ghost predicate Recent(x: Node, y: Node) {
    |y.sent| <= x.floor + TWO31
  }

  ghost predicate BothRecent(w: World) {
    Recent(w.a, w.b) && Recent(w.b, w.a)
  }

  ghost predicate Aired(y: Node) {
    |y.k.rcv.queue| < y.k.cfg.rcvWnd
  }

  lemma {:induction false} Sided(w: World, back: bool)
    requires FullInv(w)
    ensures Linked(Ends(w, back).0, Ends(w, back).1, Net(w, back), Net(w, !back))
    ensures Conveys(Ends(w, back).0, Ends(w, back).1)
  {
    hide Inv, Readable, Direction, Conveys;
  }

  /** The parts of a direction that are needed here. */
  lemma {:induction false} Parts(x: Node, y: Node, xy: set<Packet>, yx: set<Packet>)
    requires Linked(x, y, xy, yx)
    ensures Inv(x.k) && Inv(y.k) && SndOk(x.k.snd, x.sent) && RcvOk(y.k.rcv, y.k.cfg.rcvWnd, x.sent, y.read)
    ensures Covered(x.k.snd, |x.sent|, y.k.rcv, |y.Received()|) && y.floor <= |y.Received()|
    ensures AcksTrue(y.k.rcv.acks, y.floor, |x.sent|, y.k.rcv, |y.Received()|)
    ensures FwdOk(xy, x.sent) && Readable(xy, x.k.cfg.conv) && x.k.cfg.conv == y.k.cfg.conv
  {
    hide Inv, Readable, SndOk, RcvOk, Covered, AcksTrue, FwdOk, BwdOk;
  }

  /** The sender is at most two windows ahead. */
  lemma {:induction false} Ahead(w: World, back: bool)
    requires FullInv(w) && Narrow(w)
    ensures |Ends(w, back).0.sent| <= |Ends(w, back).1.Received()| + Ends(w, back).1.k.cfg.rcvWnd + SPAN
    ensures |Ends(w, back).1.Received()| <= |Ends(w, back).0.sent|
  {
    var (x, y) := Ends(w, back);
    hide FullInv, Linked, SndOk, Covered, Inv, Readable, AcksTrue, FwdOk, Off, Buffers, Conveys;
    Sided(w, back);
    Parts(x, y, Net(w, back), Net(w, !back));
    SpanBound(x.k.snd, x.sent, y.k.rcv, y.k.cfg.rcvWnd, |y.Received()|);
  }

  lemma {:induction false} KeptNarrow(w: World, w': World)
    requires Later(w, w') && Narrow(w)
    ensures Narrow(w') && FullInv(w')
  {
    hide FullInv, Reaches;
  }

  /** Each side flushes, and has then acknowledged all it received. */
  lemma {:induction false} Refresh(w: World) returns (w': World)
    requires FullInv(w) && Narrow(w)
    ensures Later(w, w') && BothRecent(w')
  {
    hide FullInv, Later, Inv, AfterFlushing, Engine.Flush, Node.Received;
    var w1, a1, b1;
    w1, a1 := FlushAt(w, false, w.a.k.clock.current);
    FlushedNode(a1);
    KeptNarrow(w, w1);
    w', b1 := FlushAt(w1, true, w1.b.k.clock.current);
    FlushedNode(b1);
    KeptNarrow(w1, w');
    LaterLater(w, w1, w');
    SameReceived(a1, w'.a);
    SameReceived(b1, w'.b);
    Ahead(w', false);
    Ahead(w', true);
  }

  lemma {:induction false} SameReceived(n: Node, n': Node)
    requires n'.k.rcv == n.k.rcv.(acks := []) && n'.read == n.read
    ensures n'.Received() == n.Received()
  {
  }

  /** `y` has a datagram in the network, not too old, whose segment `i` is the fragment it waits for, and
      room in its queue: it moves on. */
  lemma {:induction false} Lands(w: World, back: bool, p: Packet, i: nat) returns (w': World)
    requires FullInv(w) && Narrow(w) && p in Net(w, back) && Timely(p, Ends(w, back).0, Ends(w, back).1)
    requires var y := Ends(w, back).1;
             Aired(y) && i < |p.segs| && p.segs[i].cmd == CMD_PUSH && p.segs[i].sn == y.k.rcv.nxt
    ensures Later(w, w')
    ensures Missing(Ends(w', back).0, Ends(w', back).1) < Missing(Ends(w, back).0, Ends(w, back).1)
  {
    var (x, y) := Ends(w, back);
    hide FullInv, Linked, SndOk, RcvOk, Covered, Inv, Readable, AcksTrue, Carries, Off, Wrap, Conveys, RcvSteps,
         Later, Engine.Input, SndSteps, TakeFast;
    Sided(w, back);
    Parts(x, y, Net(w, back), Net(w, !back));
    Ahead(w, back);
    w' := Call(w, !back, Deliver(p));
    ReadableAt(Net(w, back), x.k.cfg.conv, p);
    InputIs(y.k, p);
    var floor := Min(y.floor, p.una);
    assert FwdPacket(p, x.sent);
    assert AcksTrue(y.k.rcv.acks, floor, |x.sent|, y.k.rcv, |y.Received()|) by {
      RemembersSelf(y.k.rcv, y.k.rcv, |y.Received()|);
      AcksKept(y.k.rcv.acks, y.floor, floor, |x.sent|, |x.sent|, y.k.rcv, |y.Received()|, y.k.rcv, |y.Received()|);
    }
    StepsBring(y.k.rcv, y.k.cfg.rcvWnd, p.segs, p.una, x.sent, y.read, floor, i);
  }

  lemma {:induction false} ReadableAt(net: set<Packet>, conv: u32, p: Packet)
    requires Readable(net, conv) && p in net
    ensures Parse(conv, p.bytes) == Parsed(p.segs, 0)
  {
  }

  /** The first number that is missing is still kept by the sender. */
  lemma {:induction false} StillKept(w: World, back: bool) returns (j: nat)
    requires FullInv(w)
    requires var (x, y) := Ends(w, back); Aired(y) && |y.Received()| < |x.sent|
    ensures var (x, y) := Ends(w, back); j < |x.k.snd.buf| && x.k.snd.buf[j].sn == y.k.rcv.nxt
  {
    var (x, y) := Ends(w, back);
    hide FullInv, Linked, RcvOk, Inv, Readable, AcksTrue, Carries, Off, Wrap, Conveys, Has, Window, Good, FwdOk;
    Sided(w, back);
    Parts(x, y, Net(w, back), Net(w, !back));
    var total, r := |x.sent|, |y.Received()|;
    GoodNext(y.k.rcv, y.k.cfg.rcvWnd, x.sent, y.read);
    NotWaiting(y.k.rcv, y.k.cfg.rcvWnd);
    assert Outstanding(x.k.snd, total, r);
    j :| 0 <= j < |x.k.snd.buf| && Number(x.k.snd, total, x.k.snd.buf[j].sn) == r;
    UnaIsBase(x.k.snd, total);
    WrapOff(x.k.snd.buf[j].sn, x.k.snd.una);
    WrapAdd(total - Off(x.k.snd.nxt, x.k.snd.una), Off(x.k.snd.buf[j].sn, x.k.snd.una));
  }

  lemma {:induction false} GoodNext(rcv: Rcv, wnd: u32, sent: seq<Frag>, read: seq<Frag>)
    requires RcvOk(rcv, wnd, sent, read)
    ensures Good(rcv, wnd) && rcv.nxt == Wrap(|Got(rcv, read)|)
  {
  }

  /** Every datagram that an endpoint emits after it has refreshed its floor is timely. */
  lemma {:induction false} NowTimely(p: Packet, x: Node, y: Node)
    requires Inv(x.k) && p.una == x.Base() && |y.sent| <= p.floor + TWO31
    ensures Timely(p, x, y) && p.una >= |x.sent| - SPAN
  {
    WindowOf(x.k);
    hide Inv, Window;
  }

  /** The sender repeats a fragment it keeps; the datagram reaches the network. */
  lemma {:induction false} Repeat(w: World, back: bool, j: nat) returns (w': World, p: Packet, i: nat)
    requires FullInv(w) && Narrow(w) && Recent(Ends(w, back).0, Ends(w, back).1) && j < |Ends(w, back).0.k.snd.buf|
    ensures Later(w, w') && Ends(w', back).1 == Ends(w, back).1 && p in Net(w', back)
    ensures Timely(p, Ends(w', back).0, Ends(w', back).1) && p.una >= |Ends(w', back).0.sent| - SPAN
    ensures i < |p.segs| && p.segs[i].cmd == CMD_PUSH && p.segs[i].sn == Ends(w, back).0.k.snd.buf[j].sn
    ensures var x, x' := Ends(w, back).0, Ends(w', back).0;
            && x'.floor >= x.floor && 0 <= |x'.sent| - |x.sent| <= |x.k.snd.queue|
            && x'.k.snd.queue == x.k.snd.queue[|x'.sent| - |x.sent|..]
  {
    hide FullInv, Later, Inv, AfterFlushing, Engine.Flush, Node.Received, Node.Base, Outgoing, Timely, Narrow, Parse,
         WndUnused, Room, SendWindow, OnWire;
    var (x, y) := Ends(w, back);
    var x1;
    w', x1 := FlushAt(w, back, x.k.snd.buf[j].resendts);
    var t := Resent(x1.k, j);
    p, i := EmitsIn(x1, t);
    WireNumber(t);
    FlushedNode(x1);
    KeptNarrow(w, w');
    SideInv(w', back);
    NowTimely(p, Ends(w', back).0, y);
  }

  lemma {:induction false} WireNumber(s: Segment)
    ensures OnWire(s).sn == s.sn && (s.cmd < 0x100 ==> OnWire(s).cmd == s.cmd)
  {
  }

  lemma {:induction false} SideInv(w: World, back: bool)
    requires FullInv(w)
    ensures Inv(Ends(w, back).0.k) && Inv(Ends(w, back).1.k)
  {
    BothInv(w);
    hide FullInv, Inv;
  }

  /** A numbered fragment is missing, and the receiver has room: it comes. */
  lemma {:induction false} Bring(w: World, back: bool) returns (w': World)
    requires FullInv(w) && Narrow(w) && BothRecent(w)
    requires var (x, y) := Ends(w, back); Aired(y) && |y.Received()| < |x.sent|
    ensures Later(w, w')
    ensures Missing(Ends(w', back).0, Ends(w', back).1) < Missing(Ends(w, back).0, Ends(w, back).1)
  {
    hide FullInv, Later, Timely, Inv;
    var j := StillKept(w, back);
    var w1, p, i := Repeat(w, back, j);
    KeptNarrow(w, w1);
    w' := Lands(w1, back, p, i);
    LaterLater(w, w1, w');
    LaterMissing(w, w1, back);
  }

  lemma {:induction false} LaterMissing(w: World, w': World, back: bool)
    requires Later(w, w')
    ensures Missing(Ends(w', back).0, Ends(w', back).1) <= Missing(Ends(w, back).0, Ends(w, back).1)
    ensures Kept(Ends(w, back).0, Ends(w', back).0) && Kept(Ends(w, back).1, Ends(w', back).1)
  {
    hide FullInv, Reaches;
  }

  // ---------- room at the receiver ----------

  /** A full queue can be read, and then either has room or has been filled up with further fragments. */
  lemma {:induction false} Air(w: World, back: bool) returns (w': World)
    requires FullInv(w) && BothRecent(w)
    ensures Later(w, w') && BothRecent(w')
    ensures var (x, y) := Ends(w', back);
            Aired(y) || Missing(x, y) < Missing(Ends(w, back).0, Ends(w, back).1)
    ensures Ends(w', back).0 == Ends(w, back).0
  {
    var (x, y) := Ends(w, back);
    hide FullInv, Conveys, Inv, Linked, NextRead, AfterRecv, Node.Received;
    LaterSelf(w);
    w' := w;
    if !Aired(y) {
      Sided(w, back);
      SideInv(w, back);
      InPrefix(x, y, Net(w, back), Net(w, !back));
      if x.k.cfg.stream {
        NextBytesReadable(x, y);
      } else {
        NextMessageReadable(x, y);
      }
      var len := |NextRead(y)|;
      w' := Call(w, !back, DoRecv(len));
      ReadMakesRoom(y, len);
    }
  }

  lemma {:induction false} InPrefix(x: Node, y: Node, xy: set<Packet>, yx: set<Packet>)
    requires Linked(x, y, xy, yx)
    ensures y.Received() <= x.sent && GoodConfig(y.k.cfg) && |y.k.rcv.queue| <= y.k.cfg.rcvWnd
  {
    hide SndInv, Ascending, Off, Readable, SndOk, Covered, AcksTrue, FwdOk, BwdOk;
  }

  lemma {:induction false} ReadMakesRoom(y: Node, len: nat)
    requires y.k.rcv.queue != [] && PeekSize(y.k.rcv.queue) == |NextRead(y)| && len == |NextRead(y)|
    requires |y.k.rcv.queue| <= y.k.cfg.rcvWnd
    ensures var y' := AfterRecv(y, len);
            && y'.floor == y.floor && y'.sent == y.sent && y'.k.cfg == y.k.cfg
            && (|y'.Received()| > |y.Received()| || |y'.k.rcv.queue| < |y.k.rcv.queue|)
  {
    hide PeekSize, MergeCount, DrainCount, Payload;
  }

  // ---------- room at the sender ----------

  /** All numbered fragments have come to `y`, which has room for more. */
  ghost predicate Waiting(w: World, back: bool) {
    var (x, y) := Ends(w, back);
    Aired(y) && |y.Received()| == |x.sent| && x.k.snd.queue != []
  }

  /** The sender knows of room at its peer and has nothing outstanding. */
  ghost predicate Cleared(x: Node) {
    x.k.rmtWnd > 0 && x.k.snd.buf == [] && x.k.snd.una == x.k.snd.nxt && x.k.snd.queue != []
  }

  /** `y` has something to answer: then it tells `x` what it received and that it has room. */
  lemma {:induction false} Answered(w: World, back: bool) returns (w': World)
    requires FullInv(w) && Narrow(w) && Recent(Ends(w, back).1, Ends(w, back).0) && Waiting(w, back)
    requires Ends(w, back).1.k.rcv.acks != [] || Ends(w, back).1.k.probe.tell
    ensures Later(w, w') && Cleared(Ends(w', back).0) && Ends(w', back).0.sent == Ends(w, back).0.sent
  {
    hide FullInv, Later, Inv, Node.Received, WndUnused, Timely, Act, Engine.Input, Window;
    var x := Ends(w, back).0;
    var w1, p := Told(w, back);
    KeptNarrow(w, w1);
    w' := Call(w1, back, Deliver(p));
    LaterLater(w, w1, w');
    SideInv(w, back);
    WindowOf(x.k);
    InputAllAcked(x.k, p);
    assert p.segs[|p.segs| - 1] in p.segs;
    assert Act(x, Deliver(p)).0 == AfterInput(x, p) by { DeliverAct(x, p); }
  }

  lemma {:induction false} DeliverAct(x: Node, p: Packet)
    ensures Act(x, Deliver(p)).0 == AfterInput(x, p)
  {
  }

  /** The datagram in which `y` tells it. */
  lemma {:induction false} Told(w: World, back: bool) returns (w': World, p: Packet)
    requires FullInv(w) && Narrow(w) && Recent(Ends(w, back).1, Ends(w, back).0) && Waiting(w, back)
    requires Ends(w, back).1.k.rcv.acks != [] || Ends(w, back).1.k.probe.tell
    ensures Later(w, w') && Ends(w', back).0 == Ends(w, back).0 && p in Net(w', !back)
    ensures Timely(p, Ends(w', back).1, Ends(w', back).0) && p.segs != []
    ensures var x := Ends(w, back).0;
            && Parse(x.k.cfg.conv, p.bytes) == Parsed(p.segs, 0)
            && forall s :: s in p.segs ==> s.una == x.k.snd.nxt && s.wnd > 0
  {
    var (x, y) := Ends(w, back);
    hide FullInv, Later, Inv, AfterFlushing, Engine.Flush, Node.Received, Outgoing, WndUnused, Timely, Parse;
    var y1;
    w', y1 := FlushAt(w, !back, y.k.clock.current);
    var t := Answers(y1.k);
    var i;
    p, i := EmitsIn(y1, t);
    FlushedNode(y1);
    KeptNarrow(w, w');
    SideInv(w', back);
    NowTimely(p, Ends(w', back).1, x);
    TellsAll(w, back, y1);
  }

  /** What `y` acknowledges when nothing numbered is missing, and that it announces room. */
  lemma {:induction false} TellsAll(w: World, back: bool, y1: Node)
    requires FullInv(w) && Narrow(w) && Waiting(w, back)
    requires y1.k.rcv == Ends(w, back).1.k.rcv && y1.k.cfg == Ends(w, back).1.k.cfg
    ensures y1.k.rcv.nxt == Ends(w, back).0.k.snd.nxt && 0 < WndUnused(y1.k.rcv, y1.k.cfg.rcvWnd) <= SPAN
    ensures Ends(w, back).0.k.cfg.conv == Ends(w, back).1.k.cfg.conv
  {
    var (x, y) := Ends(w, back);
    hide FullInv, Linked, RcvOk, Inv, Readable, AcksTrue, Carries, Off, Wrap, Conveys, Window, Good, FwdOk, Covered;
    Sided(w, back);
    Parts(x, y, Net(w, back), Net(w, !back));
    GoodNext(y.k.rcv, y.k.cfg.rcvWnd, x.sent, y.read);
  }

  /** Something is outstanding although all of it was received: the sender repeats it, and is answered. */
  lemma {:induction false} RepeatAnswered(w: World, back: bool) returns (w': World)
    requires FullInv(w) && Narrow(w) && BothRecent(w) && Waiting(w, back) && Ends(w, back).0.k.snd.buf != []
    ensures Later(w, w')
    ensures |Ends(w', back).0.sent| > |Ends(w, back).0.sent| || Cleared(Ends(w', back).0)
    ensures |Ends(w', back).0.sent| >= |Ends(w, back).0.sent|
  {
    hide FullInv, Later, Timely, Narrow, Cleared, Missing, Waiting, Recent;
    var (x, y) := Ends(w, back);
    var w1, p, i := Repeat(w, back, 0);
    KeptNarrow(w, w1);
    LaterMissing(w, w1, back);
    if |Ends(w1, back).0.sent| > |x.sent| {
      w' := w1;
    } else {
      StillWaiting(w, w1, back);
      w' := AckedAnswered(w1, back, p, i);
      LaterLater(w, w1, w');
    }
  }

  /** The sender flushed and numbered nothing. */
  lemma {:induction false} StillWaiting(w: World, w': World, back: bool)
    requires Waiting(w, back) && Recent(Ends(w, back).1, Ends(w, back).0) && Ends(w', back).1 == Ends(w, back).1
    requires |Ends(w', back).0.sent| == |Ends(w, back).0.sent|
    requires Ends(w', back).0.k.snd.queue == Ends(w, back).0.k.snd.queue[0..]
    ensures Waiting(w', back) && Recent(Ends(w', back).1, Ends(w', back).0)
  {
    hide Node.Received;
  }

  /** A repeated fragment that arrives is answered. */
  lemma {:induction false} AckedAnswered(w: World, back: bool, p: Packet, i: nat) returns (w': World)
    requires FullInv(w) && Narrow(w) && Recent(Ends(w, back).1, Ends(w, back).0) && Waiting(w, back)
    requires p in Net(w, back) && Timely(p, Ends(w, back).0, Ends(w, back).1) && p.una >= |Ends(w, back).0.sent| - SPAN
    requires i < |p.segs| && p.segs[i].cmd == CMD_PUSH
    ensures Later(w, w') && Cleared(Ends(w', back).0) && Ends(w', back).0.sent == Ends(w, back).0.sent
  {
    hide FullInv, Later, Timely, Narrow, Cleared, Waiting, Recent;
    var w1 := Acked(w, back, p, i);
    KeptNarrow(w, w1);
    w' := Answered(w1, back);
    LaterLater(w, w1, w');
  }

  /** A repeated fragment makes `y` acknowledge. */
  lemma {:induction false} Acked(w: World, back: bool, p: Packet, i: nat) returns (w': World)
    requires FullInv(w) && Narrow(w) && Recent(Ends(w, back).1, Ends(w, back).0) && Waiting(w, back)
    requires p in Net(w, back) && Timely(p, Ends(w, back).0, Ends(w, back).1) && p.una >= |Ends(w, back).0.sent| - SPAN
    requires i < |p.segs| && p.segs[i].cmd == CMD_PUSH
    ensures Later(w, w') && Waiting(w', back) && Recent(Ends(w', back).1, Ends(w', back).0)
    ensures Ends(w', back).0 == Ends(w, back).0 && Ends(w', back).1.k.rcv.acks != []
  {
    var (x, y) := Ends(w, back);
    hide FullInv, Linked, SndOk, RcvOk, Covered, Inv, Readable, AcksTrue, Carries, Off, Wrap, Conveys, RcvSteps,
         Later, Engine.Input, SndSteps, TakeFast;
    Sided(w, back);
    Parts(x, y, Net(w, back), Net(w, !back));
    w' := Call(w, !back, Deliver(p));
    ReadableAt(Net(w, back), x.k.cfg.conv, p);
    InputIs(y.k, p);
    assert FwdPacket(p, x.sent);
    var n := p.una + Off(p.segs[i].sn, Wrap(p.una));
    CarriesBelow(p.segs[i], n, x.sent);
    WrapAdd(p.una, Off(p.segs[i].sn, Wrap(p.una)));
    WrapOff(p.segs[i].sn, Wrap(p.una));
    var floor := Min(y.floor, p.una);
    RemembersSelf(y.k.rcv, y.k.rcv, |y.Received()|);
    AcksKept(y.k.rcv.acks, y.floor, floor, |x.sent|, |x.sent|, y.k.rcv, |y.Received()|, y.k.rcv, |y.Received()|);
    StepsAcked(y.k.rcv, y.k.cfg.rcvWnd, p.segs, p.una, x.sent, y.read, floor, i, n);
    KeptNarrow(w, w');
    Ahead(w', back);
    InputRcv(y, p.bytes);
  }

  /** The peer closed its window and nothing is outstanding: the sender asks, and is answered. */
  lemma {:induction false} AskAnswered(w: World, back: bool) returns (w': World)
    requires FullInv(w) && Narrow(w) && BothRecent(w) && Waiting(w, back) && Shut(Ends(w, back).0)
    ensures Later(w, w') && Cleared(Ends(w', back).0) && Ends(w', back).0.sent == Ends(w, back).0.sent
  {
    hide FullInv, Later, Inv, Timely;
    LaterSelf(w);
    var w1 := w;
    if Ends(w, back).0.k.probe.wait == 0 {
      w1 := StartTimer(w, back);
      KeptNarrow(w, w1);
    }
    var w2 := Asked(w1, back);
    LaterLater(w, w1, w2);
    KeptNarrow(w1, w2);
    w' := Answered(w2, back);
    LaterLater(w, w2, w');
  }

  /** The peer has announced no room, and nothing is outstanding. */
  ghost predicate Shut(x: Node) {
    x.k.rmtWnd == 0 && x.k.snd.buf == [] && x.k.snd.una == x.k.snd.nxt
  }

  /** A flush while the window is shut. */
  lemma {:induction false} ShutFlush(x: Node)
    requires Inv(x.k) && x.k.clock.updated && Shut(x)
    ensures var x' := AfterFlushing(x, Engine.Flush(x.k)).0;
            && x'.sent == x.sent && x'.k.snd.queue == x.k.snd.queue && Shut(x')
            && (x.k.probe.wait == 0 ==> x'.k.probe.wait != 0)
  {
    hide Engine.Flush, Inv, Admit, TouchAll, StampOf, PolicyOf, ProbeTick;
    FlushedNode(x);
    FlushNumbers(x);
    Probing.FlushProbe(x.k);
    assert SendWindow(x.k) == 0;
    hide SendWindow;
    assert x.k.snd.queue[..0] == [] && x.k.snd.queue[0..] == x.k.snd.queue && x.sent + Frags([]) == x.sent;
    ProbeStarts(x.k);
  }

  lemma {:induction false} ProbeStarts(k: Kcb)
    requires k.rmtWnd == 0
    ensures k.probe.wait == 0 ==> ProbeTick(k.probe, k.rmtWnd, k.clock.current).wait == PROBE_INIT
  {
  }

  /** The first flush with a shut window starts the probe timer. */
  lemma {:induction false} StartTimer(w: World, back: bool) returns (w': World)
    requires FullInv(w) && Narrow(w) && BothRecent(w) && Waiting(w, back) && Shut(Ends(w, back).0)
    requires Ends(w, back).0.k.probe.wait == 0
    ensures Later(w, w') && BothRecent(w') && Waiting(w', back) && Shut(Ends(w', back).0)
    ensures Ends(w', back).0.k.probe.wait != 0 && Ends(w', back).0.sent == Ends(w, back).0.sent
  {
    hide FullInv, Later, Inv, AfterFlushing, Engine.Flush, Node.Received;
    var (x, y) := Ends(w, back);
    var x1;
    w', x1 := FlushAt(w, back, x.k.clock.current);
    ShutFlush(x1);
    FlushedNode(x1);
  }

  /** A flush at the deadline of the probe timer puts a question into the network. */
  lemma {:induction false} Question(w: World, back: bool) returns (w': World, p: Packet, i: nat)
    requires FullInv(w) && Narrow(w) && BothRecent(w) && Waiting(w, back) && Shut(Ends(w, back).0)
    requires Ends(w, back).0.k.probe.wait != 0
    ensures Later(w, w') && Waiting(w', back) && Ends(w', back).1 == Ends(w, back).1
    ensures Ends(w', back).0.sent == Ends(w, back).0.sent
    ensures p in Net(w', back) && Timely(p, Ends(w', back).0, Ends(w', back).1)
    ensures p.una >= |Ends(w', back).0.sent| - SPAN && i < |p.segs| && p.segs[i].cmd == CMD_WASK
  {
    hide FullInv, Later, Inv, AfterFlushing, Engine.Flush, Node.Received, Node.Base, Outgoing, Timely, Narrow, Parse,
         WndUnused, Room, SendWindow, OnWire;
    var (x, y) := Ends(w, back);
    var x1;
    w', x1 := FlushAt(w, back, x.k.probe.tsProbe);
    ShutFlush(x1);
    FlushedNode(x1);
    var t := Asks(x1.k);
    p, i := EmitsIn(x1, t);
    WireNumber(t);
    KeptNarrow(w, w');
    SideInv(w', back);
    NowTimely(p, Ends(w', back).0, y);
  }

  /** The question arrives. */
  lemma {:induction false} Asked(w: World, back: bool) returns (w': World)
    requires FullInv(w) && Narrow(w) && BothRecent(w) && Waiting(w, back) && Shut(Ends(w, back).0)
    requires Ends(w, back).0.k.probe.wait != 0
    ensures Later(w, w') && Waiting(w', back) && Recent(Ends(w', back).1, Ends(w', back).0)
    ensures Ends(w', back).1.k.probe.tell && Ends(w', back).0.sent == Ends(w, back).0.sent
  {
    hide FullInv, Later, Node.Received, Timely, Act;
    var w1, p, i := Question(w, back);
    KeptNarrow(w, w1);
    w' := Call(w1, !back, Deliver(p));
    LaterLater(w, w1, w');
    KeptNarrow(w1, w');
    Ahead(w', back);
    Hears(w1, back, p, i);
  }

  /** What a question does at the peer that has everything numbered. */
  lemma {:induction false} Hears(w: World, back: bool, p: Packet, i: nat)
    requires FullInv(w) && Narrow(w) && i < |p.segs| && p.segs[i].cmd == CMD_WASK
    requires Waiting(w, back) && Recent(Ends(w, back).1, Ends(w, back).0) && p.una >= |Ends(w, back).0.sent| - SPAN
    requires p in Net(w, back)
    ensures var (x, y) := Ends(w, back);
            var y' := Act(y, Deliver(p)).0;
            && y'.k.probe.tell && Recent(y', x) && y'.k.cfg == y.k.cfg && y'.read == y.read
            && |y.Received()| <= |y'.Received()|
            && |y'.Received()| - |y.Received()| == |y'.k.rcv.queue| - |y.k.rcv.queue|
  {
    var (x, y) := Ends(w, back);
    hide FullInv, Linked, Engine.Input, Parse;
    Sided(w, back);
    assert Parse(y.k.cfg.conv, p.bytes) == Parsed(p.segs, 0) by {
      hide SndOk, RcvOk, Covered, Inv, AcksTrue, FwdOk;
      Parts(x, y, Net(w, back), Net(w, !back));
      hide Readable;
      ReadableAt(Net(w, back), x.k.cfg.conv, p);
    }
    Probing.InputProbe(y.k, p.bytes);
    assert p.segs[i] in p.segs;
    assert |p.bytes| >= OVERHEAD by { ParsedLong(y.k.cfg.conv, p.bytes); }
    InputRcv(y, p.bytes);
    InputQueue(y.k, p.bytes);
  }

  lemma {:induction false} ParsedLong(conv: u32, data: Bytes)
    requires Parse(conv, data).segs != []
    ensures |data| >= OVERHEAD
  {
  }

  /** With room at the peer and nothing outstanding, one of two flushes numbers something. */
  lemma {:induction false} Numbers(w: World, back: bool) returns (w': World)
    requires FullInv(w) && Cleared(Ends(w, back).0)
    ensures Later(w, w') && |Ends(w', back).0.sent| > |Ends(w, back).0.sent|
    ensures Ends(w', back).1 == Ends(w, back).1 && Ends(w', back).0.floor >= Ends(w, back).0.floor
  {
    hide FullInv, Later, Inv, AfterFlushing, Engine.Flush, Node.Received, Room, SendWindow;
    var x := Ends(w, back).0;
    var w1, x1 := FlushAt(w, back, x.k.clock.current);
    FlushedNode(x1);
    w' := w1;
    if |Ends(w1, back).0.sent| == |x.sent| {
      LaterFull(w, w1);
      var x2;
      w', x2 := FlushAt(w1, back, x.k.clock.current);
      FlushOpens(x1);
      FlushedNode(x2);
      OpenNumbers(x2);
      LaterLater(w, w1, w');
    }
  }

  lemma {:induction false} FlushOpens(x: Node)
    requires x.k.clock.updated
    ensures AfterFlushing(x, Engine.Flush(x.k)).0.k.cong.cwnd >= 1
  {
    Congestion.FlushCong(x.k);
    hide Engine.Flush, Admit, Fated, SendWindow, StampOf, PolicyOf;
  }

  lemma {:induction false} OpenNumbers(x: Node)
    requires Inv(x.k) && Cleared(x) && x.k.cong.cwnd >= 1
    ensures Room(x.k.snd, SendWindow(x.k)) > 0
  {
    hide SndInv, Good, RttInv;
  }

  /** Everything numbered has come, and more is queued: some of it gets numbers. */
  lemma {:induction false} NumberMore(w: World, back: bool) returns (w': World)
    requires FullInv(w) && Narrow(w) && BothRecent(w) && Waiting(w, back)
    ensures Later(w, w') && |Ends(w', back).0.sent| > |Ends(w, back).0.sent|
  {
    hide FullInv, Later, Inv, Window;
    var x := Ends(w, back).0;
    LaterSelf(w);
    SideInv(w, back);
    WindowOf(x.k);
    EmptyIsClear(x.k.snd);
    var w1 := w;
    if x.k.snd.buf != [] {
      w1 := RepeatAnswered(w, back);
    } else if x.k.rmtWnd == 0 {
      w1 := AskAnswered(w, back);
    }
    w' := w1;
    if |Ends(w1, back).0.sent| == |x.sent| {
      LaterFull(w, w1);
      w' := Numbers(w1, back);
      LaterLater(w, w1, w');
    }
  }

  lemma {:induction false} EmptyIsClear(snd: Snd)
    requires Window(snd)
    ensures snd.buf == [] ==> snd.una == snd.nxt
  {
  }

  // ---------- delivery ----------

  /** As long as a fragment is missing, some continuation brings one. */
  lemma {:induction false} Advance(w: World, back: bool) returns (w': World)
    requires FullInv(w) && Narrow(w) && Missing(Ends(w, back).0, Ends(w, back).1) > 0
    ensures Later(w, w')
    ensures Missing(Ends(w', back).0, Ends(w', back).1) < Missing(Ends(w, back).0, Ends(w, back).1)
  {
    hide FullInv, Later, Narrow, BothRecent, Kept, Node.Received;
    var w1 := Ready(w, back);
    w' := w1;
    LaterMissing(w, w1, back);
    KeptNarrow(w, w1);
    Ahead(w1, back);
    var (x, y) := Ends(w1, back);
    if Missing(x, y) == Missing(Ends(w, back).0, Ends(w, back).1) {
      if |y.Received()| < |x.sent| {
        w' := Bring(w1, back);
        LaterLater(w, w1, w');
      } else {
        w' := NumberAndBring(w1, back);
        LaterLater(w, w1, w');
      }
    }
  }

  /** Both sides are refreshed and the receiver has room, unless something came meanwhile. */
  lemma {:induction false} Ready(w: World, back: bool) returns (w': World)
    requires FullInv(w) && Narrow(w)
    ensures Later(w, w') && BothRecent(w')
    ensures Aired(Ends(w', back).1)
            || Missing(Ends(w', back).0, Ends(w', back).1) < Missing(Ends(w, back).0, Ends(w, back).1)
  {
    hide FullInv, Later, Narrow, BothRecent, Aired, Missing;
    var w1 := Refresh(w);
    KeptNarrow(w, w1);
    w' := Air(w1, back);
    LaterLater(w, w1, w');
    LaterMissing(w, w1, back);
  }

  lemma {:induction false} NumberAndBring(w: World, back: bool) returns (w': World)
    requires FullInv(w) && Narrow(w) && BothRecent(w) && Waiting(w, back)
    ensures Later(w, w')
    ensures Missing(Ends(w', back).0, Ends(w', back).1) < Missing(Ends(w, back).0, Ends(w, back).1)
  {
    hide FullInv, Later, Narrow, BothRecent, Node.Received;
    var w1 := NumberMore(w, back);
    KeptNarrow(w, w1);
    LaterMissing(w, w1, back);
    var w2 := Ready(w1, back);
    KeptNarrow(w1, w2);
    LaterLater(w, w1, w2);
    LaterMissing(w1, w2, back);
    LaterMissing(w, w2, back);
    Ahead(w2, back);
    w' := w2;
    var (x, y) := Ends(w2, back);
    if Missing(x, y) == Missing(Ends(w, back).0, Ends(w, back).1) {
      assert |y.Received()| < |x.sent|;
      w' := Bring(w2, back);
      LaterLater(w, w2, w');
    }
  }

  /** Some continuation brings all fragments of one direction. */
  lemma {:induction false} BringAll(w: World, back: bool) returns (w': World)
    requires FullInv(w) && Narrow(w)
    ensures Later(w, w') && Missing(Ends(w', back).0, Ends(w', back).1) == 0
    decreases Missing(Ends(w, back).0, Ends(w, back).1)
  {
    hide FullInv, Later, Narrow, Node.Received;
    Ahead(w, back);
    if Missing(Ends(w, back).0, Ends(w, back).1) == 0 {
      LaterSelf(w);
      w' := w;
    } else {
      var w1 := Advance(w, back);
      KeptNarrow(w, w1);
      w' := BringAll(w1, back);
      LaterLater(w, w1, w');
    }
  }

  // ---------- reading all of it ----------

  lemma {:induction false} LastMessageReadable(x: Node, y: Node)
    requires Conveys(x, y) && !x.k.cfg.stream && y.Received() == x.sent && x.k.snd.queue == [] && y.k.rcv.queue != []
    ensures PeekSize(y.k.rcv.queue) == |NextRead(y)|
  {
    var d, mss, queue := |y.delivered|, x.k.cfg.Mss(), y.k.rcv.queue;
    QueueContinues(x, y);
    var all := x.accepted;
    assert all[..d] + all[d..] == all && all[d..][0] == all[d] && all[d..][1..] == all[d + 1..];
    hide PeekSize, MergeCount, FragCount, FragsOf, Payload, Frags;
    AllFragsAppend(all[..d], all[d..], mss);
    assert y.read + Frags(queue) == AllFrags(all[..d], mss) + AllFrags(all[d..], mss) by {
      assert x.sent + Frags([]) == x.sent by { NoFrags(); }
    }
    var f, rest := FragsOf(all[d], mss), AllFrags(all[d + 1..], mss);
    assert |Frags(queue)| == |f + rest|;
    ReadBoundary(queue, all[d], rest, mss);
    FragsSize(queue);
    FragsOfShape(all[d], mss);
  }

  lemma {:induction false} NoFrags()
    ensures Frags([]) == []
  {
  }

  lemma {:induction false} FragsSize(segs: seq<Segment>)
    ensures |Frags(segs)| == |segs|
  {
  }

  /** With all fragments there, the reader can take them all. */
  lemma {:induction false} ReadAll(w: World, back: bool) returns (w': World)
    requires FullInv(w) && Missing(Ends(w, back).0, Ends(w, back).1) == 0
    ensures Later(w, w') && Missing(Ends(w', back).0, Ends(w', back).1) == 0
    ensures Ends(w', back).1.k.rcv.queue == [] && Ends(w', back).0 == Ends(w, back).0
    decreases |Ends(w, back).1.k.rcv.queue|
  {
    var (x, y) := Ends(w, back);
    hide FullInv, Later, Conveys, Inv, Linked, NextRead, AfterRecv, Node.Received;
    if y.k.rcv.queue == [] {
      LaterSelf(w);
      w' := w;
    } else {
      Sided(w, back);
      InPrefix(x, y, Net(w, back), Net(w, !back));
      assert y.Received() == x.sent && x.k.snd.queue == [];
      if x.k.cfg.stream {
        NextBytesReadable(x, y);
      } else {
        LastMessageReadable(x, y);
      }
      var len := |NextRead(y)|;
      var w1 := Call(w, !back, DoRecv(len));
      ReadMakesRoom(y, len);
      LaterFull(w, w1);
      LaterMissing(w, w1, back);
      Sided(w1, back);
      var (x1, y1) := Ends(w1, back);
      InPrefix(x1, y1, Net(w1, back), Net(w1, !back));
      w' := ReadAll(w1, back);
      LaterLater(w, w1, w');
    }
  }

  /** Everything `x` took in was read at `y`: the same messages, or in stream mode the same bytes. */
  ghost predicate Complete(x: Node, y: Node) {
    if x.k.cfg.stream then Concat(y.delivered) == Concat(x.accepted) else y.delivered == x.accepted
  }

  lemma {:induction false} AllRead(x: Node, y: Node)
    requires Conveys(x, y) && y.Received() == x.sent && x.k.snd.queue == [] && y.k.rcv.queue == []
    ensures Complete(x, y)
  {
    assert y.read + Frags([]) == y.read;
    if x.k.cfg.stream {
      assert BytesOf(x.sent) + Payload([]) == BytesOf(x.sent);
    } else {
      var d, mss, all := |y.delivered|, x.k.cfg.Mss(), x.accepted;
      assert x.sent + Frags([]) == x.sent;
      assert all[..d] + all[d..] == all;
      AllFragsAppend(all[..d], all[d..], mss);
      assert AllFrags(all[d..], mss) == [];
      if d < |all| {
        FragsOfShape(all[d..][0], mss);
      }
    }
  }

  lemma {:induction false} ReadComplete(w: World, back: bool)
    requires FullInv(w) && Missing(Ends(w, back).0, Ends(w, back).1) == 0 && Ends(w, back).1.k.rcv.queue == []
    ensures Complete(Ends(w, back).0, Ends(w, back).1)
  {
    var (x, y) := Ends(w, back);
    hide FullInv, Conveys, Linked, Node.Received;
    Sided(w, back);
    InPrefix(x, y, Net(w, back), Net(w, !back));
    AllRead(x, y);
  }

  /** Every fragment of one direction was numbered, received and read. */
  ghost predicate Arrived(x: Node, y: Node) {
    Missing(x, y) == 0 && y.k.rcv.queue == []
  }

  /** From a state on: some continuation in which nothing more is sent delivers everything. */
  lemma {:induction false} AllArrives(w: World) returns (w': World)
    requires FullInv(w) && Narrow(w)
    ensures Later(w, w') && Complete(w'.a, w'.b) && Complete(w'.b, w'.a)
    ensures Arrived(w'.a, w'.b) && Arrived(w'.b, w'.a)
  {
    hide FullInv, Later, Narrow, Node.Received, Complete;
    var w1 := BringAll(w, false);
    KeptNarrow(w, w1);
    var w2 := BringAll(w1, true);
    KeptNarrow(w1, w2);
    LaterLater(w, w1, w2);
    LaterMissing(w1, w2, false);
    Ahead(w2, false);
    var w3 := ReadAll(w2, false);
    KeptNarrow(w2, w3);
    LaterLater(w, w2, w3);
    LaterMissing(w2, w3, true);
    Ahead(w3, true);
    w' := ReadAll(w3, true);
    KeptNarrow(w3, w');
    LaterLater(w, w3, w');
    LaterMissing(w3, w', false);
    Ahead(w', false);
    ReadComplete(w', false);
    ReadComplete(w', true);
  }

  /** No deadlock of windows, probes and acknowledgements: every run can be continued, without sending
      anything more, until both sides have read everything the other side's sends took in. */
  lemma {:induction false} EverythingArrives(ws: seq<World>) returns (ws': seq<World>)
    requires Run(ws) && Narrow(ws[|ws| - 1])
    ensures Run(ws') && ws <= ws'
    ensures var w, w' := ws[|ws| - 1], ws'[|ws'| - 1];
            && w'.a.accepted == w.a.accepted && w'.b.accepted == w.b.accepted
            && Complete(w'.a, w'.b) && Complete(w'.b, w'.a)
  {
    hide FullInv, Narrow, Complete, Transition, Init;
    var w := ws[|ws| - 1];
    RunKeepsFullInv(ws, |ws| - 1);
    var w' := AllArrives(w);
    var path := PathOf(w, w');
    ws' := ws + path[1..];
    forall i | 0 <= i < |ws'| - 1 ensures Transition(ws'[i], ws'[i + 1]) {
      if i < |ws| - 1 {
        assert Transition(ws[i], ws[i + 1]);
      } else {
        var j := i - |ws| + 1;
        assert ws'[i] == path[j] && ws'[i + 1] == path[j + 1];
        assert Transition(path[j], path[j + 1]);
      }
    }
    assert ws'[|ws'| - 1] == w';
  }

  lemma {:induction false} PathOf(w: World, w': World) returns (path: seq<World>)
    requires Later(w, w')
    ensures Path(path) && path[0] == w && path[|path| - 1] == w'
    ensures w'.a.accepted == w.a.accepted && w'.b.accepted == w.b.accepted
  {
    hide FullInv, Transition;
    path :| Path(path) && path[0] == w && path[|path| - 1] == w';
  }
}
