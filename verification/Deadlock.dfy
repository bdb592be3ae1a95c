/** Why receive windows must fit the 16 bits they are announced in: with `rcv_wnd` 65536 and a reader that
    keeps up, the announced window is 0, and a run can come to a state in which nothing is ever delivered
    again, whatever is called and whichever timely datagrams arrive. */
module Deadlock {
  import opened Serial
  import opened Wire
  import opened Engine
  import opened SenderWindow
  import opened Invariant
  import opened Messages
  import opened Delivery
  import opened Emission
  import opened Network
  import opened Safety
  import opened Progress

  const WIDE: u32 := 0x1_0000

  /** Every segment of these datagrams announces no room. */
  ghost predicate NoRoom(net: set<Packet>) {
    forall p, s :: p in net && s in p.segs ==> s.wnd == 0
  }

  /** `y` has the wide window, an empty queue, and all that was numbered for it; whatever it emitted
      announces no room. */
  ghost predicate Dry(x: Node, y: Node, yx: set<Packet>) {
    && y.k.cfg.rcvWnd == WIDE && y.k.rcv.queue == [] && |y.Received()| == |x.sent| && NoRoom(yx)
  }

  /** From `a` to `b` nothing is on its way, and `a` knows of no room. */
  ghost predicate Stuck(w: World) {
    FullInv(w) && Dry(w.a, w.b, w.ba) && Shut(w.a)
  }

  /** What a flush with an empty queue and the wide window emits. */
  lemma {:induction false} EmitsNoRoom(y: Node)
    requires Inv(y.k) && y.k.clock.updated && y.k.cfg.rcvWnd == WIDE && y.k.rcv.queue == []
    ensures NoRoom(AfterFlushing(y, Engine.Flush(y.k)).1)
  {
    assert WndUnused(y.k.rcv, y.k.cfg.rcvWnd) == WIDE;
    hide Outgoing, Inv, WndUnused, Parse, EncodeAll, Engine.Flush, OnWire, AllOnWire;
    FlushDecodes(y.k);
    forall p, s | p in AfterFlushing(y, Engine.Flush(y.k)).1 && s in p.segs ensures s.wnd == 0 {
      var g :| g in Engine.Flush(y.k).out && p.segs == AllOnWire(g);
      GroupTells(y.k, g);
    }
  }

  /** An event at the receiver. */
  lemma {:induction false} DryAtReceiver(x: Node, y: Node, yx: set<Packet>, e: Event)
    requires Dry(x, y, yx) && Inv(y.k) && |Act(y, e).0.Received()| <= |x.sent|
    ensures Dry(x, Act(y, e).0, yx + Act(y, e).1)
  {
    hide Inv, Engine.Flush, Engine.Update, Engine.Input, Enqueue, NoRoom;
    var (y', new') := Act(y, e);
    assert yx + {} == yx;
    match e
    case DoSend(data) =>
    case DoRecv(len) => assert RecvCode(y.k.rcv.queue, len) < 0;
    case DoUpdate(now) =>
      UpdateRcv(y.k, now);
      UpdateTakes(y.k, now);
      var (clock, due) := Tick(y.k.clock, now, y.k.cfg.interval);
      if due {
        DueUpdate(y, now);
        TickSets(y.k.clock, now, y.k.cfg.interval);
        ClockInv(y.k, clock);
        EmitsNoRoom(y.(k := y.k.(clock := clock)));
      } else {
        IdleEmits(y, now);
      }
      NoRoomUnion(yx, new');
    case DoFlush =>
      FlushRcv(y.k);
      FlushTakes(y.k);
      FlushAct(y);
      if y.k.clock.updated {
        EmitsNoRoom(y);
      } else {
        FlushNothing(y.k);
        NoDatagrams(y);
      }
      NoRoomUnion(yx, new');
    case Deliver(p) =>
      InputRcv(y, p.bytes);
      InputQueue(y.k, p.bytes);
      GotSize(y.k.rcv, y.read);
      GotSize(y'.k.rcv, y'.read);
  }

  lemma {:induction false} NoDatagrams(y: Node)
    requires Engine.Flush(y.k).out == []
    ensures NoRoom(AfterFlushing(y, Engine.Flush(y.k)).1)
  {
  }

  lemma {:induction false} IdleEmits(y: Node, now: u32)
    requires !Tick(y.k.clock, now, y.k.cfg.interval).1
    ensures Act(y, DoUpdate(now)).1 == {} && NoRoom({})
  {
    hide Tick;
  }

  lemma {:induction false} NoRoomUnion(a: set<Packet>, b: set<Packet>)
    ensures NoRoom(a) && NoRoom(b) ==> NoRoom(a + b)
  {
  }

  /** An event at the sender. */
  lemma {:induction false} ShutAtSender(x: Node, yx: set<Packet>, e: Event)
    requires Shut(x) && Inv(x.k) && NoRoom(yx) && Readable(yx, x.k.cfg.conv) && (e.Deliver? ==> e.p in yx)
    ensures Shut(Act(x, e).0) && Act(x, e).0.sent == x.sent
  {
    hide Inv, Engine.Flush, Engine.Input, Enqueue, NoRoom, Readable, Receive;
    match e
    case DoSend(data) =>
    case DoRecv(len) =>
    case DoUpdate(now) =>
      var (clock, due) := Tick(x.k.clock, now, x.k.cfg.interval);
      if due {
        DueUpdate(x, now);
        TickSets(x.k.clock, now, x.k.cfg.interval);
        ClockInv(x.k, clock);
        ShutFlush(x.(k := x.k.(clock := clock)));
      } else {
        IdleSends(x, now);
      }
    case DoFlush =>
      FlushAct(x);
      if x.k.clock.updated {
        ShutFlush(x);
      } else {
        FlushNothing(x.k);
        IdleFlush(x);
      }
    case Deliver(p) =>
      ReadableAt(yx, x.k.cfg.conv, p);
      NoRoomIn(yx, p);
      ShutInput(x.k, p);
  }

  lemma {:induction false} NoRoomIn(net: set<Packet>, p: Packet)
    requires NoRoom(net) && p in net
    ensures forall s :: s in p.segs ==> s.wnd == 0
  {
  }

  lemma {:induction false} IdleSends(x: Node, now: u32)
    requires !Tick(x.k.clock, now, x.k.cfg.interval).1
    ensures var x' := Act(x, DoUpdate(now)).0; x'.sent == x.sent && x'.k.snd == x.k.snd && x'.k.rmtWnd == x.k.rmtWnd
  {
    hide Tick;
    assert x.k.snd.queue[..0] == [] && x.sent + Frags([]) == x.sent;
  }

  lemma {:induction false} IdleFlush(x: Node)
    requires Engine.Flush(x.k).k == x.k
    ensures AfterFlushing(x, Engine.Flush(x.k)).0.sent == x.sent && AfterFlushing(x, Engine.Flush(x.k)).0.k == x.k
  {
    assert x.k.snd.queue[..0] == [] && x.sent + Frags([]) == x.sent;
  }

  lemma {:induction false} ShutInput(k: Kcb, p: Packet)
    requires Parse(k.cfg.conv, p.bytes) == Parsed(p.segs, 0) && forall s :: s in p.segs ==> s.wnd == 0
    requires k.rmtWnd == 0 && k.snd.buf == [] && k.snd.una == k.snd.nxt
    ensures var k' := Engine.Input(k, p.bytes).0;
            k'.rmtWnd == 0 && k'.snd.buf == [] && k'.snd.una == k'.snd.nxt
  {
    if p.segs == [] {
      ShortInput(k, p);
    } else {
      InputIs(k, p);
      InputWindow(k, p);
      hide Engine.Input, Parse, InFlight, SndSteps;
      assert p.segs[|p.segs| - 1] in p.segs;
      StaysEmpty(k.snd, p.segs);
      FastNone(SndSteps(k.snd, p.segs), ScanAcks(p.segs).maxack);
    }
  }

  lemma {:induction false} ShortInput(k: Kcb, p: Packet)
    requires Parse(k.cfg.conv, p.bytes) == Parsed([], 0)
    ensures Engine.Input(k, p.bytes).0 == k
  {
    hide DecodeHead, Steps, ScanAcks, Settle;
  }

  lemma {:induction false} StaysEmpty(snd: Snd, segs: seq<Segment>)
    requires snd.buf == [] && snd.una == snd.nxt
    ensures SndSteps(snd, segs).buf == [] && SndSteps(snd, segs).una == SndSteps(snd, segs).nxt
  {
    hide InFlight, TimeDiff;
    if segs != [] {
      StaysEmpty(snd, segs[..|segs| - 1]);
    }
  }

  /** No call and no timely datagram changes the matter. */
  lemma {:induction false} StuckStays(w: World, w': World)
    requires Stuck(w) && Transition(w, w')
    ensures Stuck(w') && w'.b.delivered == w.b.delivered && w.a.accepted <= w'.a.accepted
  {
    hide Act, Timely, FullInv, Shut, Inv, Dry;
    StepKeepsFullInv(w, w');
    BothInv(w);
    DryNoRoom(w);
    Received(w');
    var e: Event :| StepAtA(w, e, w') || StepAtB(w, e, w');
    if StepAtA(w, e, w') {
      ShutAtSender(w.a, w.ba, e);
      DryApart(w.a, w'.a, w.b, w.ba);
      MoreAccepted(w.a, e);
    } else {
      DrySent(w);
      DryAtReceiver(w.a, w.b, w.ba, e);
      DryDelivers(w, e);
    }
  }

  lemma {:induction false} DryNoRoom(w: World)
    requires Stuck(w)
    ensures NoRoom(w.ba) && Readable(w.ba, w.a.k.cfg.conv)
  {
    hide Inv, Direction, Readable, Conveys;
  }

  lemma {:induction false} Received(w: World)
    requires FullInv(w)
    ensures |w.b.Received()| <= |w.a.sent|
  {
    hide FullInv, Linked;
    Sided(w, false);
    InPrefix(w.a, w.b, w.ab, w.ba);
  }

  lemma {:induction false} DryApart(x: Node, x': Node, y: Node, yx: set<Packet>)
    requires Dry(x, y, yx) && x'.sent == x.sent
    ensures Dry(x', y, yx)
  {
  }

  lemma {:induction false} DrySent(w: World)
    requires Stuck(w)
    ensures Dry(w.a, w.b, w.ba) && w.b.k.rcv.queue == []
  {
    hide FullInv;
  }

  lemma {:induction false} MoreAccepted(x: Node, e: Event)
    ensures x.accepted <= Act(x, e).0.accepted
  {
    hide Engine.Flush, Engine.Update, Engine.Input, Engine.Send, Engine.Recv, TakenIn;
  }

  lemma {:induction false} DryDelivers(w: World, e: Event)
    requires Stuck(w)
    ensures Act(w.b, e).0.delivered == w.b.delivered
  {
    hide FullInv, Engine.Flush, Engine.Update, Engine.Input, Engine.Send;
    assert RecvCode(w.b.k.rcv.queue, 0) < 0;
  }

  /** Nothing is delivered from a stuck state on. */
  lemma {:induction false} StuckForever(ws: seq<World>, i: nat, j: nat)
    requires Run(ws) && i <= j < |ws| && Stuck(ws[i])
    ensures Stuck(ws[j]) && ws[j].b.delivered == ws[i].b.delivered && ws[i].a.accepted <= ws[j].a.accepted
  {
    hide Stuck, Transition, Init;
    if i < j {
      StuckForever(ws, i, j - 1);
      assert Transition(ws[j - 1], ws[(j - 1) + 1]);
      StuckStays(ws[j - 1], ws[j]);
    }
  }

  // ---------- such a state is reached ----------

  function Start(): World {
    var cfg := Config(1, 1400, 32, 128, 100, 0, 100, 0, 5, false, false, 20);
    World(FreshNode(cfg), FreshNode(cfg.(rcvWnd := WIDE)), {}, {})
  }

  lemma {:induction false} Started()
    ensures Init(Start()) && FullInv(Start()) && Dry(Start().a, Start().b, Start().ba)
  {
    var c := Config(1, 1400, 32, 128, 100, 0, 100, 0, 5, false, false, 20);
    var d := c.(rcvWnd := WIDE);
    assert GoodConfig(c) && GoodConfig(d) && c.conv == d.conv && Start() == World(FreshNode(c), FreshNode(d), {}, {});
    InitInv(Start());
    hide WorldInv;
    assert AllFrags([], c.Mss()) == [] && AllFrags([], d.Mss()) == [];
  }

  /** A state in which `a` has neither sent nor received anything, and `b` has taken in one byte. */
  ghost predicate Early(w: World) {
    && FullInv(w) && Reaches(Start(), w) && Dry(w.a, w.b, w.ba) && w.a == Start().a
    && |w.b.sent| + |w.b.k.snd.queue| == 1 && w.b.floor >= 0 && w.b.delivered == []
  }

  /** A flush at `b`. */
  lemma {:induction false} EarlyFlush(w: World, now: u32) returns (w': World, y1: Node)
    requires Early(w)
    ensures Early(w') && y1.k.clock.updated && y1.k.clock.current == now && y1 == w.b.(k := y1.k, floor := y1.floor)
    ensures y1.k == w.b.k.(clock := y1.k.clock) && Inv(y1.k) && y1.floor >= 0
    ensures w'.b == AfterFlushing(y1, Engine.Flush(y1.k)).0 && AfterFlushing(y1, Engine.Flush(y1.k)).1 <= w'.ba
  {
    hide FullInv, Reaches, Later, Inv, Dry, Engine.Flush, Start, AfterFlushing;
    w', y1 := FlushAt(w, true, now);
    LaterReaches(w, w');
    ReachesReaches(Start(), w, w');
    FlushedNode(y1);
    DryFlushed(w.a, w.b, y1, w.ba);
  }

  lemma {:induction false} LaterReaches(w: World, w': World)
    requires Later(w, w')
    ensures Reaches(w, w') && FullInv(w')
  {
    hide FullInv, Reaches;
  }

  lemma {:induction false} DryFlushed(x: Node, y: Node, y1: Node, yx: set<Packet>)
    requires Dry(x, y, yx) && y1.k.rcv == y.k.rcv && y1.k.cfg == y.k.cfg && y1.read == y.read
             && y1.delivered == y.delivered
    requires Inv(y1.k) && y1.k.clock.updated
    ensures var (y', new') := AfterFlushing(y1, Engine.Flush(y1.k));
            Dry(x, y', yx + new') && y'.delivered == y.delivered
  {
    hide Inv, NoRoom, Engine.Flush;
    FlushedNode(y1);
    EmitsNoRoom(y1);
    NoRoomUnion(yx, AfterFlushing(y1, Engine.Flush(y1.k)).1);
  }

  /** `b` numbers its byte. */
  lemma {:induction false} EarlyNumbers(w: World) returns (w': World)
    requires Early(w) && |w.b.sent| == 0 && w.b.k.rmtWnd > 0 && w.b.k.snd.buf == []
    ensures Early(w') && |w'.b.sent| == 1
  {
    hide FullInv, Reaches, Inv, Dry, Engine.Flush, Start, AfterFlushing, Room, SendWindow;
    var y1;
    w', y1 := EarlyFlush(w, 0);
    FlushedNode(y1);
    if |w'.b.sent| == 0 {
      var w1 := w';
      BothInv(w1);
      WindowOf(w1.b.k);
      EmptyIsClear(w1.b.k.snd);
      FlushOpens(y1);
      var y2;
      w', y2 := EarlyFlush(w1, 0);
      FlushedNode(y2);
      OpenNumbers(y2);
    }
  }

  /** A run to a state in which a message was taken in and will never be delivered. */
  lemma {:induction false} StuckReached() returns (ws: seq<World>)
    ensures Run(ws)
    ensures var w := ws[|ws| - 1]; Stuck(w) && w.a.accepted == [[1]] && w.b.delivered == [] && w.b.k.cfg.rcvWnd == WIDE
  {
    var w := Closed();
    ws :| Path(ws) && ws[0] == Start() && ws[|ws| - 1] == w;
    Started();
  }

  lemma {:induction false} EarlyStart() returns (w: World)
    ensures Early(w) && |w.b.sent| == 0 && w.b.k.rmtWnd > 0 && w.b.k.snd.buf == []
  {
    hide FullInv, Reaches, Dry, Start;
    Started();
    StartIs();
    w := OneSent(Start(), true, 7);
    DryApartQueue(Start().a, Start().b, w.b, {});
  }

  /** The byte is sent again; the datagram announces no room. */
  lemma {:induction false} EarlyEmits(w: World) returns (w': World, p: Packet)
    requires Early(w) && |w.b.sent| == 1
    ensures Early(w') && p in w'.ba && Timely(p, w'.b, w'.a) && p.segs != []
    ensures Parse(w'.a.k.cfg.conv, p.bytes) == Parsed(p.segs, 0) && forall s :: s in p.segs ==> s.una == w'.a.k.snd.nxt
  {
    hide FullInv, Reaches, Inv, Dry, Engine.Flush, Start, AfterFlushing, Timely, Parse, Node.Received;
    StartIs();
    NoneReceived(w.a);
    var j := StillKept(w, true);
    var y1;
    w', y1 := EarlyFlush(w, w.b.k.snd.buf[j].resendts);
    var t := Resent(y1.k, j);
    var i;
    p, i := EmitsIn(y1, t);
    BothInv(w');
    NowTimely(p, w'.b, w'.a);
    NoneBack(w');
    SameReceiver(y1, w'.b);
  }

  lemma {:induction false} SameReceiver(y: Node, y': Node)
    requires Inv(y.k) && y.k.clock.updated && y' == AfterFlushing(y, Engine.Flush(y.k)).0
    ensures y'.k.rcv.nxt == y.k.rcv.nxt && y'.k.cfg == y.k.cfg
  {
    hide Inv, Engine.Flush;
    FlushedNode(y);
  }

  lemma {:induction false} NoneReceived(x: Node)
    requires x == Start().a
    ensures |x.Received()| == 0 && Aired(x)
  {
  }

  /** `b` has received nothing, as `a` has numbered nothing. */
  lemma {:induction false} NoneBack(w: World)
    requires Early(w)
    ensures w.b.k.rcv.nxt == w.a.k.snd.nxt && w.a.k.cfg.conv == w.b.k.cfg.conv
  {
    hide FullInv, Linked, RcvOk, Inv, Readable, AcksTrue, FwdOk, Covered, Conveys, Reaches, NoRoom;
    Sided(w, false);
    Parts(w.a, w.b, w.ab, w.ba);
    GoodNext(w.b.k.rcv, w.b.k.cfg.rcvWnd, w.a.sent, w.b.read);
  }

  /** It arrives, and `a` sends. */
  lemma {:induction false} Closed() returns (w': World)
    ensures Reaches(Start(), w') && Stuck(w') && w'.a.accepted == [[1]] && w'.b.delivered == []
            && w'.b.k.cfg.rcvWnd == WIDE
  {
    hide FullInv, Reaches, Inv, Dry, Start, Timely, Parse, Engine.Input, Later;
    var w1 := EarlyStart();
    var w2 := EarlyNumbers(w1);
    var w3, p := EarlyEmits(w2);
    StartIs();
    var w4 := Call(w3, false, Deliver(p));
    LaterReaches(w3, w4);
    LaterMissing(w3, w4, false);
    BothInv(w3);
    WindowOf(w3.a.k);
    InputAllAcked(w3.a.k, p);
    DryNoRoomIn(w3, p);
    DryApart(w3.a, w4.a, w3.b, w3.ba);
    assert w3.ba + {} == w3.ba;
    w' := OneSent(w4, false, 1);
    DryApart(w4.a, w'.a, w4.b, w4.ba);
    ReachesReaches(Start(), w3, w4);
    ReachesReaches(Start(), w4, w');
    WideStays(w');
  }

  lemma {:induction false} WideStays(w: World)
    requires Dry(w.a, w.b, w.ba)
    ensures w.b.k.cfg.rcvWnd == WIDE
  {
  }

  lemma {:induction false} DryNoRoomIn(w: World, p: Packet)
    requires Dry(w.a, w.b, w.ba) && p in w.ba && p.segs != []
    ensures p.segs[|p.segs| - 1].wnd == 0
  {
    assert p.segs[|p.segs| - 1] in p.segs;
  }

  lemma {:induction false} StartIs()
    ensures var (a, b) := (Start().a, Start().b);
            && a.k.snd == Snd(0, 0, [], []) == b.k.snd && a.k.rcv == Rcv(0, [], [], []) == b.k.rcv
              && a.sent == [] == b.sent
            && a.read == [] == b.read && a.accepted == [] && b.delivered == [] && a.floor == 0 == b.floor
            && b.k.rmtWnd > 0 && !a.k.cfg.stream && !b.k.cfg.stream && a.k.cfg.rcvWnd == 128
              && a.k.cfg.conv == 1 == b.k.cfg.conv
            && Start().ab == {} == Start().ba
  {
  }

  lemma {:induction false} DryApartQueue(x: Node, y: Node, y': Node, yx: set<Packet>)
    requires Dry(x, y, yx) && y'.k.rcv == y.k.rcv && y'.k.cfg == y.k.cfg && y'.read == y.read
    ensures Dry(x, y', yx)
  {
  }
}