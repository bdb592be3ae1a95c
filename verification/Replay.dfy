/** Why the age of datagrams matters in long sessions: a run of 2^32 messages after which the network delivers
    its first datagram once more, and the receiver reads a message that was not sent again. */
module Replay {
  import opened Serial
  import opened Wire
  import opened Engine
  import opened SenderWindow
  import opened Receiver
  import opened Invariant
  import opened Messages
  import opened Delivery
  import opened Network
  import opened Safety
  import opened Sessions
  import opened Progress

  /** `n` messages of one fragment were sent from `a` to `b`, and all were read. */
  ghost predicate Settled(w: World, n: nat) {
    && FullInv(w) && Narrow(w) && !w.a.k.cfg.stream
    && |w.a.accepted| == n && |w.a.sent| == n && Arrived(w.a, w.b) && Complete(w.a, w.b)
  }

  lemma {:induction false} Settle(w: World, w1: World, w': World, n: nat)
    requires Narrow(w) && !w.a.k.cfg.stream && w1.a.k.cfg == w.a.k.cfg && w1.b.k.cfg == w.b.k.cfg
    requires |w1.a.accepted| == n && |w1.a.sent| + |w1.a.k.snd.queue| == n
    requires Later(w1, w') && Arrived(w'.a, w'.b) && Complete(w'.a, w'.b)
    ensures Settled(w', n)
  {
    hide FullInv, Reaches, Complete, Node.Received;
    Ahead(w', false);
  }

  /** One more message is sent and read. */
  lemma {:induction false} Round(w: World, n: nat) returns (w': World)
    requires Settled(w, n)
    ensures Settled(w', n + 1) && Reaches(w, w') && w.ab <= w'.ab
  {
    hide FullInv, Later, Complete, Reaches;
    var w1 := OneSent(w, false, 0);
    Ahead(w, false);
    w' := AllArrives(w1);
    Settle(w, w1, w', n + 1);
    LaterNet(w1, w');
    ReachesReaches(w, w1, w');
  }

  lemma {:induction false} LaterNet(w: World, w': World)
    requires Later(w, w')
    ensures Reaches(w, w') && w.ab <= w'.ab
  {
    hide FullInv, Reaches;
  }

  lemma {:induction false} Rounds(w: World, n: nat, m: nat) returns (w': World)
    requires Settled(w, n) && n <= m
    ensures Settled(w', m) && Reaches(w, w') && w.ab <= w'.ab
    decreases m - n
  {
    hide Settled, Reaches;
    if n == m {
      w' := w;
      ReachesSelf(w);
    } else {
      var w1 := Round(w, n);
      w' := Rounds(w1, n + 1, m);
      ReachesReaches(w, w1, w');
    }
  }

  lemma {:induction false} ReachesSelf(w: World)
    ensures Reaches(w, w)
  {
    assert Path([w]) && [w][0] == w;
  }

  // ---------- the first datagram ----------

  function Start(): World {
    var cfg := Config(1, 1400, 32, 128, 100, 0, 100, 0, 5, false, false, 20);
    World(FreshNode(cfg), FreshNode(cfg), {}, {})
  }

  lemma {:induction false} Started()
    ensures Init(Start()) && FullInv(Start()) && Narrow(Start())
  {
    var cfg := Config(1, 1400, 32, 128, 100, 0, 100, 0, 5, false, false, 20);
    assert GoodConfig(cfg) && Start() == World(FreshNode(cfg), FreshNode(cfg), {}, {});
    InitInv(Start());
    hide WorldInv;
    assert AllFrags([], cfg.Mss()) == [];
  }

  /** The data segments of a datagram are all the first fragment, the byte 1. */
  ghost predicate OnlyFirst(segs: seq<Segment>) {
    forall i :: 0 <= i < |segs| && segs[i].cmd == CMD_PUSH ==>
      segs[i].sn == 0 && segs[i].frg == 0 && segs[i].data == [1]
  }

  /** The first message is sent, and the datagram with it is in the network when it has been read. */
  lemma {:induction false} FirstDatagram() returns (w': World, p: Packet, i: nat)
    ensures Settled(w', 1) && Reaches(Start(), w') && p in w'.ab
    ensures OnlyFirst(p.segs) && i < |p.segs| && p.segs[i].cmd == CMD_PUSH
  {
    hide FullInv, Later, Complete, Reaches, Timely, Start;
    Started();
    StartIs();
    var w1 := OneSent(Start(), false, 1);
    var w2 := Numbers(w1, false);
    KeptNarrow(w1, w2);
    LaterMissing(w1, w2, false);
    var j := StillKept(w2, false);
    var w3;
    w3, p, i := Repeat(w2, false, j);
    KeptNarrow(w2, w3);
    LaterMissing(w2, w3, false);
    FirstOnly(w3, p);
    w' := AllArrives(w3);
    LaterLater(w1, w2, w3);
    LaterLater(w1, w3, w');
    LaterNet(w1, w');
    LaterNet(w3, w');
    Settle(Start(), w1, w', 1);
    ReachesReaches(Start(), w1, w');
  }

  lemma {:induction false} StartIs()
    ensures var n := Start().a;
            && n == Start().b && n.k.snd == Snd(0, 0, [], []) && n.k.rcv == Rcv(0, [], [], []) && n.sent == []
              && n.read == []
            && n.accepted == [] && n.floor == 0 && n.k.rmtWnd > 0 && !n.k.cfg.stream && n.k.cfg.rcvWnd == 128
  {
  }

  lemma {:induction false} FirstOnly(w: World, p: Packet)
    requires FullInv(w) && p in w.ab && w.a.accepted == [[1]] && |w.a.sent| == 1 && !w.a.k.cfg.stream
    ensures OnlyFirst(p.segs)
  {
    hide FullInv, Linked, Inv, SndOk, RcvOk, Covered, AcksTrue, Readable, Conveys, Off, Wrap;
    var (x, y) := Ends(w, false);
    Sided(w, false);
    Parts(x, y, w.ab, w.ba);
    assert FwdPacket(p, x.sent);
    OneFragment(x, y);
    forall i | 0 <= i < |p.segs| && p.segs[i].cmd == CMD_PUSH
      ensures p.segs[i].sn == 0 && p.segs[i].frg == 0 && p.segs[i].data == [1]
    {
      var o := Off(p.segs[i].sn, Wrap(p.una));
      assert Carries(p.segs[i], p.una + o, x.sent);
      WrapAdd(p.una, o);
      WrapOff(p.segs[i].sn, Wrap(p.una));
      WrapIs(0, 0);
    }
  }

  lemma {:induction false} OneFragment(x: Node, y: Node)
    requires Conveys(x, y) && x.accepted == [[1]] && |x.sent| == 1 && !x.k.cfg.stream
    ensures x.sent == [Frag(0, [1])]
  {
    var mss := x.k.cfg.Mss();
    var one: Bytes := [1];
    assert one[..1] == one && Min(1, mss) == 1;
    assert Cut(one, mss, 1, false) == [NewSegment(0, one)];
    var all := x.accepted;
    assert all[0] == one && all[1..] == [];
    assert AllFrags(all, mss) == FragsOf(one, mss) + AllFrags([], mss);
    assert FragsOf(one, mss) == [Frag(0, one)];
    assert x.sent == (x.sent + Frags(x.k.snd.queue))[..1];
  }

  // ---------- the last datagram ----------

  /** Before or after the first fragment came, at a receiver whose numbers have come full turn. */
  ghost predicate Replayed(rcv: Rcv) {
    && rcv.buf == []
    && if rcv.nxt == 0 then rcv.queue == []
       else rcv.nxt == 1 && |rcv.queue| == 1 && rcv.queue[0].frg == 0 && rcv.queue[0].data == [1]
  }

  lemma {:induction false} ReplaySteps(rcv: Rcv, wnd: u32, segs: seq<Segment>)
    requires Replayed(rcv) && 0 < wnd < TWO31 && OnlyFirst(segs)
    ensures Replayed(RcvSteps(rcv, wnd, segs))
    ensures (exists i :: 0 <= i < |segs| && segs[i].cmd == CMD_PUSH) ==> RcvSteps(rcv, wnd, segs).nxt == 1
  {
    hide TakePush;
    if segs != [] {
      var n := |segs| - 1;
      ReplaySteps(rcv, wnd, segs[..n]);
      if segs[n].cmd == CMD_PUSH {
        ReplayStep(RcvSteps(rcv, wnd, segs[..n]), wnd, segs[n]);
      }
    }
  }

  lemma {:induction false} ReplayStep(rcv: Rcv, wnd: u32, s: Segment)
    requires Replayed(rcv) && 0 < wnd < TWO31 && s.sn == 0 && s.frg == 0 && s.data == [1]
    ensures var d := TakePush(rcv, wnd, s); Replayed(d) && d.nxt == 1
  {
    assert Insert([], s) == [s];
    assert [s][..1] == [s] && [s][1..] == [] && [] + [s] == [s];
    assert Good(rcv, wnd);
    WrapIs(0, 0);
    WrapIs(1, 0);
    WrapIs(-1, 1);
    assert Off(0, 0) == 0 && Off(0, 1) == TWO32 - 1;
    PushIs(rcv, wnd, s);
    hide BelowWindowEnd, Off, Good, TakePush, Insert;
    if rcv.nxt == 0 {
      assert DrainCount(0, 0, [s], wnd) == 1 + DrainCount(1, 1, [], wnd);
    }
  }

  /** A receiver that has read 2^32 fragments. */
  lemma {:induction false} FullTurn(w: World)
    requires Settled(w, TWO32)
    ensures Replayed(w.b.k.rcv) && w.b.k.rcv.nxt == 0 && 0 < w.b.k.cfg.rcvWnd < TWO31
    ensures |w.b.delivered| == TWO32 && w.a.k.cfg.conv == w.b.k.cfg.conv && Readable(w.ab, w.a.k.cfg.conv)
  {
    hide FullInv, Linked, SndOk, RcvOk, Covered, AcksTrue, Readable, Conveys;
    var (x, y) := Ends(w, false);
    Sided(w, false);
    Parts(x, y, w.ab, w.ba);
    Ahead(w, false);
    NothingLeft(y.k.rcv, y.k.cfg.rcvWnd, x.sent, y.read);
    assert Wrap(TWO32) == 0;
  }

  lemma {:induction false} NothingLeft(rcv: Rcv, wnd: u32, sent: seq<Frag>, read: seq<Frag>)
    requires RcvOk(rcv, wnd, sent, read) && |Got(rcv, read)| == |sent|
    ensures rcv.buf == [] && rcv.nxt == Wrap(|sent|) && 0 < wnd < TWO31
  {
    hide Carries, Off, Ascending;
    if rcv.buf != [] {
      CarriesBelow(rcv.buf[0], |sent| + Off(rcv.buf[0].sn, rcv.nxt), sent);
    }
  }

  /** It takes the first fragment for the next, and its reader is given it as one more message. */
  lemma {:induction false} TakenAgain(y: Node, p: Packet, i: nat)
    requires Replayed(y.k.rcv) && y.k.rcv.nxt == 0 && 0 < y.k.cfg.rcvWnd < TWO31
    requires Parse(y.k.cfg.conv, p.bytes) == Parsed(p.segs, 0) && OnlyFirst(p.segs)
    requires i < |p.segs| && p.segs[i].cmd == CMD_PUSH
    ensures var y' := AfterInput(y, p);
            && y'.delivered == y.delivered && AfterRecv(y', 1).delivered == y.delivered + [[1]]
  {
    hide Parse, Engine.Input, RcvSteps;
    InputIs(y.k, p);
    ReplaySteps(y.k.rcv, y.k.cfg.rcvWnd, p.segs);
    var q := AfterInput(y, p).k.rcv.queue;
    var one: Bytes := [1];
    assert MergeCount(q) == 1 && q[..1] == [q[0]];
    assert Payload([q[0]]) == q[0].data + Payload([]) && one + [] == one;
    hide Drain;
  }

  /** A run over a network that may deliver datagrams of any age, in which 2^32 messages are sent and
      2^32 + 1 are read. */
  lemma {:induction false} OldDatagramBreaksOrder() returns (ws: seq<World>)
    ensures LooseRun(ws)
    ensures var w := ws[|ws| - 1];
            && !InOrder(w.a, w.b) && |w.a.accepted| == TWO32 && |w.b.delivered| == TWO32 + 1
              && w.b.delivered[TWO32] == [1]
  {
    hide Settled, Reaches, Start, AfterInput, AfterRecv, Parse;
    var w1, p, i := FirstDatagram();
    var w2 := Rounds(w1, 1, TWO32);
    ReachesReaches(Start(), w1, w2);
    FullTurn(w2);
    SettledMessages(w2, TWO32);
    ReadableAt(w2.ab, w2.a.k.cfg.conv, p);
    TakenAgain(w2.b, p, i);
    Started();
    ws := LooseTo(w2);
    var b3 := AfterInput(w2.b, p);
    var b4 := AfterRecv(b3, 1);
    var w3, w4 := World(w2.a, b3, w2.ab, w2.ba + {}), World(w2.a, b4, w2.ab, w2.ba + {} + {});
    LooseStep(w2, Deliver(p), w3);
    LooseStep(w3, DoRecv(1), w4);
    ws := LooseSnoc(ws, w3);
    ws := LooseSnoc(ws, w4);
  }

  lemma {:induction false} LooseStep(w: World, e: Event, w': World)
    requires CallAtB(w, e, w')
    ensures LooseTransition(w, w')
  {
  }

  lemma {:induction false} SettledMessages(w: World, n: nat)
    requires Settled(w, n)
    ensures |w.a.accepted| == n && !w.a.k.cfg.stream
  {
    hide FullInv, Arrived, Complete, Narrow;
  }

  lemma {:induction false} LooseSnoc(ws: seq<World>, w: World) returns (ws': seq<World>)
    requires LooseRun(ws) && LooseTransition(ws[|ws| - 1], w)
    ensures LooseRun(ws') && ws' == ws + [w]
  {
    hide LooseTransition, Init;
    ws' := ws + [w];
    forall i | 0 <= i < |ws'| - 1 ensures LooseTransition(ws'[i], ws'[i + 1]) {
      if i < |ws| - 1 {
        assert LooseTransition(ws[i], ws[i + 1]);
      }
    }
  }

  lemma {:induction false} LooseTo(w: World) returns (ws: seq<World>)
    requires Reaches(Start(), w) && Init(Start())
    ensures LooseRun(ws) && ws[|ws| - 1] == w
  {
    hide Start, Init;
    ws :| Path(ws) && ws[0] == Start() && ws[|ws| - 1] == w;
    forall i | 0 <= i < |ws| - 1 ensures LooseTransition(ws[i], ws[i + 1]) {
      assert Transition(ws[i], ws[i + 1]);
    }
  }
}
