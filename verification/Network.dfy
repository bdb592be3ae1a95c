/** Two endpoints and a network that may lose, repeat and reorder the datagrams they emit.
    Each endpoint is a control block of module `Engine` with the history needed to say what it
    ought to do; every step is one API call at one endpoint. */
module Network {
  import opened Serial
  import opened Seqs
  import opened Wire
  import opened Engine
  import opened SenderWindow
  import opened Receiver
  import opened Invariant
  import opened Messages
  import opened Delivery
  import opened Emission

  /** An endpoint with its history: the messages (or, in stream mode, byte strings) its sends took
      in, the fragments it gave numbers to, the fragments and messages its reads returned, and a
      lower bound on the numbers it still has to acknowledge. */
  datatype Node = Node(k: Kcb, accepted: seq<Bytes>, sent: seq<Frag>, read: seq<Frag>, delivered: seq<Bytes>,
                       floor: int)
  {
    function Received(): seq<Frag> {
      Got(k.rcv, read)
    }

    /** The number of the first fragment not yet acknowledged. */
    function Base(): int {
      |sent| - Off(k.snd.nxt, k.snd.una)
    }
  }

  /** A datagram: its bytes, what they decode to, and numbers known when it was emitted: the first
      unacknowledged fragment of its emitter, how many fragments its emitter had received, and a
      lower bound on the numbers it acknowledges. The endpoints only ever see `bytes`. */
  datatype Packet = Packet(bytes: Bytes, segs: seq<Segment>, una: int, rcvd: int, floor: int)

  datatype World = World(a: Node, b: Node, ab: set<Packet>, ba: set<Packet>)

  datatype Event = DoSend(data: Bytes) | DoRecv(len: int) | DoUpdate(now: u32) | DoFlush | Deliver(p: Packet)

  // ---------- steps ----------

  function Emitted(out: seq<seq<Segment>>, una: int, rcvd: int, floor: int): set<Packet> {
    set g | g in out :: Packet(EncodeAll(g), AllOnWire(g), una, rcvd, floor)
  }

  /** What a send took in: everything if it was accepted; in stream mode a refused send may still
      have filled up the last queued segment. */
  function TakenIn(k: Kcb, data: Bytes): Bytes {
    if Engine.Send(k, data).1 == 0 then data
    else data[..Min(|data|, Left(k.snd.queue, k.cfg.Mss()))]
  }

  function AfterSend(n: Node, data: Bytes): Node {
    var (k, ret) := Engine.Send(n.k, data);
    n.(k := k, accepted := if ret == 0 || n.k.cfg.stream then n.accepted + [TakenIn(n.k, data)] else n.accepted)
  }

  function AfterRecv(n: Node, len: int): Node {
    var r := Engine.Recv(n.k, len);
    if r.ret < 0 || len < 0 then n.(k := r.k)
    else n.(k := r.k, read := n.read + Frags(n.k.rcv.queue[..MergeCount(n.k.rcv.queue)]),
            delivered := n.delivered + [r.data])
  }

  /** The segments that left the queue were numbered. */
  function AfterFlushing(n: Node, f: Flushed): (Node, set<Packet>) {
    var m := Max(0, |n.k.snd.queue| - |f.k.snd.queue|);
    var n' := n.(k := f.k, sent := n.sent + Frags(n.k.snd.queue[..m]),
                 floor := if f.k.rcv.acks == [] then |n.Received()| else n.floor);
    (n', Emitted(f.out, n'.Base(), |n.Received()|, n.floor))
  }

  /** The effect of an event at an endpoint, and the datagrams it emits. */
  function Act(n: Node, e: Event): (Node, set<Packet>) {
    match e
    case DoSend(data) => (AfterSend(n, data), {})
    case DoRecv(len) => (AfterRecv(n, len), {})
    case DoUpdate(now) => AfterFlushing(n, Engine.Update(n.k, now))
    case DoFlush => AfterFlushing(n, Engine.Flush(n.k))
    case Deliver(p) => (AfterInput(n, p), {})
  }

  function AfterInput(n: Node, p: Packet): Node {
    n.(k := Engine.Input(n.k, p.bytes).0, floor := Min(n.floor, p.una))
  }

  /** A datagram is not too old: since it was emitted its emitter has numbered, and its receiver had
      numbered beyond what it acknowledges, at most 2^31 fragments. Module `Sessions` shows that this
      always holds in sessions of up to 2^31 fragments in each direction. */
  ghost predicate Timely(p: Packet, emitter: Node, receiver: Node) {
    |emitter.sent| <= p.una + TWO31 && |receiver.sent| <= p.floor + TWO31
  }

  /** One call at endpoint `a`; a delivered datagram stays in the network. */
  ghost predicate CallAtA(w: World, e: Event, w': World) {
    && (e.Deliver? ==> e.p in w.ba)
    && w' == World(Act(w.a, e).0, w.b, w.ab + Act(w.a, e).1, w.ba)
  }

  /** One call at endpoint `b`. */
  ghost predicate CallAtB(w: World, e: Event, w': World) {
    && (e.Deliver? ==> e.p in w.ab)
    && w' == World(w.a, Act(w.b, e).0, w.ab, w.ba + Act(w.b, e).1)
  }

  ghost predicate StepAtA(w: World, e: Event, w': World) {
    CallAtA(w, e, w') && (e.Deliver? ==> Timely(e.p, w.b, w.a))
  }

  ghost predicate StepAtB(w: World, e: Event, w': World) {
    CallAtB(w, e, w') && (e.Deliver? ==> Timely(e.p, w.a, w.b))
  }

  /** One call at either endpoint; a delivered datagram is any that was ever emitted and is not too old. */
  ghost predicate Transition(w: World, w': World) {
    exists e: Event :: StepAtA(w, e, w') || StepAtB(w, e, w')
  }

  /** The same without any bound on the age of a delivered datagram. */
  ghost predicate LooseTransition(w: World, w': World) {
    exists e: Event :: CallAtA(w, e, w') || CallAtB(w, e, w')
  }

  function FreshNode(cfg: Config): Node {
    Node(Create(cfg), [], [], [], [], 0)
  }

  ghost predicate Init(w: World) {
    exists c, d: Config ::
      GoodConfig(c) && GoodConfig(d) && c.conv == d.conv && w == World(FreshNode(c), FreshNode(d), {}, {})
  }

  // ---------- the invariant of one direction ----------

  ghost predicate FwdPacket(p: Packet, sent: seq<Frag>) {
    forall i :: 0 <= i < |p.segs| && p.segs[i].cmd == CMD_PUSH ==>
      Carries(p.segs[i], p.una + Off(p.segs[i].sn, Wrap(p.una)), sent)
  }

  ghost predicate BwdPacket(p: Packet, total: int, rcv: Rcv, r: int) {
    && p.floor <= p.rcvd <= r
    && forall i :: 0 <= i < |p.segs| ==>
         p.segs[i].una == Wrap(p.rcvd) && (p.segs[i].cmd == CMD_ACK ==> AckTrue(p.segs[i].sn, p.floor, total, rcv, r))
  }

  ghost predicate FwdOk(net: set<Packet>, sent: seq<Frag>) {
    forall p :: p in net ==> FwdPacket(p, sent)
  }

  ghost predicate BwdOk(net: set<Packet>, total: int, rcv: Rcv, r: int) {
    forall p :: p in net ==> BwdPacket(p, total, rcv, r)
  }

  ghost predicate Readable(net: set<Packet>, conv: u32) {
    forall p :: p in net ==> Parse(conv, p.bytes) == Parsed(p.segs, 0)
  }

  /** Data from `x` to `y`: `fwd` carries it, `bwd` carries its acknowledgements. */
  ghost predicate Direction(x: Node, y: Node, fwd: set<Packet>, bwd: set<Packet>) {
    var total, rcv, r := |x.sent|, y.k.rcv, |y.Received()|;
    && SndOk(x.k.snd, x.sent)
    && RcvOk(rcv, y.k.cfg.rcvWnd, x.sent, y.read)
    && Covered(x.k.snd, total, rcv, r)
    && AcksTrue(rcv.acks, y.floor, total, rcv, r) && y.floor <= r
    && FwdOk(fwd, x.sent)
    && BwdOk(bwd, total, rcv, r)
  }

  /** What holds of a node's surroundings, seen from either side. */
  ghost predicate Linked(x: Node, y: Node, xy: set<Packet>, yx: set<Packet>) {
    && Inv(x.k) && Inv(y.k) && x.k.cfg.conv == y.k.cfg.conv
    && Readable(xy, x.k.cfg.conv) && Readable(yx, x.k.cfg.conv)
    && Direction(x, y, xy, yx) && Direction(y, x, yx, xy)
  }

  ghost predicate WorldInv(w: World) {
    Linked(w.a, w.b, w.ab, w.ba)
  }

  lemma {:induction false} LinkedBothWays(x: Node, y: Node, xy: set<Packet>, yx: set<Packet>)
    requires Linked(x, y, xy, yx)
    ensures Linked(y, x, yx, xy)
  {
    hide Direction, Inv, Readable;
  }

  // ---------- what later events do not undo ----------

  lemma {:induction false} BwdKept(net: set<Packet>, total: int, total': int, rcv: Rcv, r: int, rcv': Rcv, r': int)
    requires BwdOk(net, total, rcv, r) && total <= total' && r <= r' && Remembers(rcv, r, rcv', r')
    ensures BwdOk(net, total', rcv', r')
  {
    hide AckTrue, Remembers;
    forall p | p in net ensures BwdPacket(p, total', rcv', r') {
      assert BwdPacket(p, total, rcv, r);
      forall i | 0 <= i < |p.segs| && p.segs[i].cmd == CMD_ACK
        ensures AckTrue(p.segs[i].sn, p.floor, total', rcv', r')
      {
        AckTrueKept(p.segs[i].sn, p.floor, p.floor, total, total', rcv, r, rcv', r');
      }
    }
  }

  lemma {:induction false} AcksKept(acks: seq<Ack>, floor: int, floor': int, total: int, total': int, rcv: Rcv,
      r: int, rcv': Rcv, r': int)
    requires AcksTrue(acks, floor, total, rcv, r) && floor' <= floor && total <= total' && Remembers(rcv, r, rcv', r')
    ensures AcksTrue(acks, floor', total', rcv', r')
  {
    hide AckTrue, Remembers;
    forall i | 0 <= i < |acks| ensures AckTrue(acks[i].sn, floor', total', rcv', r') {
      AckTrueKept(acks[i].sn, floor, floor', total, total', rcv, r, rcv', r');
    }
  }

  lemma {:induction false} FwdKept(net: set<Packet>, sent: seq<Frag>, sent': seq<Frag>)
    requires FwdOk(net, sent) && sent <= sent'
    ensures FwdOk(net, sent')
  {
    hide Off, Wrap;
    forall p | p in net ensures FwdPacket(p, sent') {
      assert FwdPacket(p, sent);
    }
  }

  lemma {:induction false} CoveredKept(snd: Snd, total: int, rcv: Rcv, r: int, rcv': Rcv, r': int)
    requires Covered(snd, total, rcv, r) && Remembers(rcv, r, rcv', r')
    ensures Covered(snd, total, rcv', r')
  {
    hide Has, Outstanding;
  }

  /** The receiver of a direction moved on; its sender and the network did not. */
  lemma {:induction false} ReceiverMoved(x: Node, y: Node, y': Node, fwd: set<Packet>, bwd: set<Packet>)
    requires Direction(x, y, fwd, bwd)
    requires RcvOk(y'.k.rcv, y'.k.cfg.rcvWnd, x.sent, y'.read)
    requires Remembers(y.k.rcv, |y.Received()|, y'.k.rcv, |y'.Received()|) && |y.Received()| <= |y'.Received()|
    requires AcksTrue(y'.k.rcv.acks, y'.floor, |x.sent|, y'.k.rcv, |y'.Received()|) && y'.floor <= |y'.Received()|
    ensures Direction(x, y', fwd, bwd)
  {
    hide RcvOk, SndOk, FwdOk, AcksTrue, Remembers, Covered, BwdOk;
    CoveredKept(x.k.snd, |x.sent|, y.k.rcv, |y.Received()|, y'.k.rcv, |y'.Received()|);
    BwdKept(bwd, |x.sent|, |x.sent|, y.k.rcv, |y.Received()|, y'.k.rcv, |y'.Received()|);
  }

  lemma {:induction false} RemembersSelf(rcv: Rcv, rcv': Rcv, r: int)
    requires rcv'.buf == rcv.buf && rcv'.nxt == rcv.nxt
    ensures Remembers(rcv, r, rcv', r)
  {
    hide Off;
  }

  // ---------- ikcp_send ----------

  lemma {:induction false} SendLinked(x: Node, y: Node, xy: set<Packet>, yx: set<Packet>, data: Bytes)
    requires Linked(x, y, xy, yx)
    ensures Linked(AfterSend(x, data), y, xy, yx)
  {
    SendInv(x.k, data);
    var x' := AfterSend(x, data);
    assert x'.k == x.k.(snd := x.k.snd.(queue := x'.k.snd.queue));
    hide AfterSend, Inv, RcvOk, Readable, AcksTrue, FwdOk, BwdOk, Has, Off, Carries, Ascending;
    assert SndOk(x'.k.snd, x'.sent);
    assert forall n :: Outstanding(x.k.snd, |x.sent|, n) ==> Outstanding(x'.k.snd, |x.sent|, n) by {
      QueueApart(x.k.snd, x'.k.snd.queue, |x.sent|);
    }
  }

  lemma {:induction false} QueueApart(snd: Snd, queue: seq<Segment>, total: int)
    ensures forall n :: Outstanding(snd, total, n) ==> Outstanding(snd.(queue := queue), total, n)
  {
    hide Off;
    forall n | Outstanding(snd, total, n) ensures Outstanding(snd.(queue := queue), total, n) {
      var i :| 0 <= i < |snd.buf| && Number(snd, total, snd.buf[i].sn) == n;
      assert Number(snd.(queue := queue), total, snd.buf[i].sn) == n;
    }
  }

  // ---------- ikcp_recv ----------

  lemma {:induction false} RecvLinked(x: Node, y: Node, xy: set<Packet>, yx: set<Packet>, len: int)
    requires Linked(x, y, xy, yx)
    ensures Linked(AfterRecv(x, len), y, xy, yx)
  {
    RecvInv(x.k, len);
    var x', c := AfterRecv(x, len), MergeCount(x.k.rcv.queue);
    if RecvCode(x.k.rcv.queue, len) < 0 {
      assert x'.k == x.k;
    } else if len < 0 {
      PeekIsPure(x.k, len);
      assert x'.k == x.k;
    } else {
      assert x'.k.rcv == Drain(x.k.rcv.(queue := x.k.rcv.queue[c..]), x.k.cfg.rcvWnd);
      assert x'.k.snd == x.k.snd && x'.k.cfg == x.k.cfg;
      hide AfterRecv, Inv, Drain, MergeCount, SndOk, RcvOk, Readable, FwdOk, Covered, Remembers, AckTrue;
      TakeOk(x.k.rcv, x.k.cfg.rcvWnd, c, y.sent, x.read);
      AcksKept(x.k.rcv.acks, x.floor, x.floor, |y.sent|, |y.sent|, x.k.rcv, |x.Received()|, x'.k.rcv, |x'.Received()|);
      GotGrows(x.k.rcv, x'.k.rcv, x.read, c, x.k.cfg.rcvWnd);
      ReceiverMoved(y, x, x', yx, xy);
    }
  }

  lemma {:induction false} GotGrows(rcv: Rcv, rcv': Rcv, read: seq<Frag>, c: nat, wnd: u32)
    requires c <= |rcv.queue| && rcv' == Drain(rcv.(queue := rcv.queue[c..]), wnd)
    ensures |Got(rcv, read)| <= |Got(rcv', read + Frags(rcv.queue[..c]))|
  {
    hide DrainCount;
  }

  // ---------- ikcp_flush and ikcp_update ----------

  lemma {:induction false} EmittedReadable(k: Kcb, una: int, rcvd: int, floor: int)
    requires Inv(k) && k.clock.updated
    ensures Readable(Emitted(Engine.Flush(k).out, una, rcvd, floor), k.cfg.conv)
  {
    FlushDecodes(k);
    hide Engine.Flush, Outgoing, EncodeAll, Parse, AllOnWire, Inv;
  }

  lemma {:induction false} WireSame(s: Segment, conv: u32)
    requires Sendable(conv, s) && s.frg < WND_RCV
    ensures OnWire(s).cmd == s.cmd && OnWire(s).frg == s.frg && OnWire(s).data == s.data
    ensures OnWire(s).sn == s.sn && OnWire(s).una == s.una
  {
  }

  lemma {:induction false} OutgoingCarries(k: Kcb, s: Segment, sent: seq<Frag>, una: int)
    requires Inv(k) && k.clock.updated && s in Outgoing(k) && OnWire(s).cmd == CMD_PUSH
    requires var snd := Engine.Flush(k).k.snd; SndOk(snd, sent) && una == |sent| - Off(snd.nxt, snd.una)
    ensures Carries(OnWire(s), una + Off(OnWire(s).sn, Wrap(una)), sent)
  {
    var snd := Engine.Flush(k).k.snd;
    hide Engine.Flush, Outgoing, Inv, Off, WndUnused, Window, OnWire, Sendable;
    OutgoingShape(k);
    OutgoingFits(k);
    UnaIsBase(snd, |sent|);
    hide Wrap;
    WireSame(s, k.cfg.conv);
    BufferCarries(snd, sent, s);
  }

  lemma {:induction false} BufferCarries(snd: Snd, sent: seq<Frag>, s: Segment)
    requires SndOk(snd, sent) && s in snd.buf
    ensures Carries(s, Number(snd, |sent|, s.sn), sent)
  {
    hide Window, Off, Wrap;
    var j :| 0 <= j < |snd.buf| && snd.buf[j] == s;
  }

  lemma {:induction false} GroupFwd(k: Kcb, g: seq<Segment>, sent: seq<Frag>, p: Packet)
    requires Inv(k) && k.clock.updated && (forall s :: s in g ==> s in Outgoing(k)) && p.segs == AllOnWire(g)
    requires var snd := Engine.Flush(k).k.snd; SndOk(snd, sent) && p.una == |sent| - Off(snd.nxt, snd.una)
    ensures FwdPacket(p, sent)
  {
    hide Engine.Flush, Outgoing, Inv, Off, Wrap, SndOk, Carries, OnWire;
    forall i | 0 <= i < |g| && OnWire(g[i]).cmd == CMD_PUSH
      ensures Carries(OnWire(g[i]), p.una + Off(OnWire(g[i]).sn, Wrap(p.una)), sent)
    {
      OutgoingCarries(k, g[i], sent, p.una);
    }
  }

  /** New datagrams carry numbered fragments. */
  lemma {:induction false} EmittedFwd(k: Kcb, sent: seq<Frag>, una: int, rcvd: int, floor: int)
    requires Inv(k) && k.clock.updated
    requires var snd := Engine.Flush(k).k.snd; SndOk(snd, sent) && una == |sent| - Off(snd.nxt, snd.una)
    ensures FwdOk(Emitted(Engine.Flush(k).out, una, rcvd, floor), sent)
  {
    hide Engine.Flush, Outgoing, EncodeAll, Parse, Inv, Off, Wrap, Flatten, SndOk, FwdPacket, AllOnWire;
    FlushDecodes(k);
    var out := Engine.Flush(k).out;
    forall p | p in Emitted(out, una, rcvd, floor) ensures FwdPacket(p, sent) {
      var g :| g in out && p == Packet(EncodeAll(g), AllOnWire(g), una, rcvd, floor);
      GroupFwd(k, g, sent, p);
    }
  }

  lemma {:induction false} OutgoingAcks(k: Kcb, s: Segment, rcv': Rcv, r: int, floor: int, total: int)
    requires Inv(k) && k.clock.updated && s in Outgoing(k) && Remembers(k.rcv, r, rcv', r)
    requires k.rcv.nxt == Wrap(r) && AcksTrue(k.rcv.acks, floor, total, k.rcv, r)
    ensures OnWire(s).una == Wrap(r) && (OnWire(s).cmd == CMD_ACK ==> AckTrue(OnWire(s).sn, floor, total, rcv', r))
  {
    OutgoingShape(k);
    OutgoingFits(k);
    hide Engine.Flush, Outgoing, Inv, Off, Wrap, WndUnused, AckTrue, Remembers, OnWire, Sendable;
    WireSame(s, k.cfg.conv);
    if s.cmd == CMD_ACK {
      if IsControl(s, k) {
        var j :| 0 <= j < |k.rcv.acks| && k.rcv.acks[j].sn == s.sn;
        AckTrueKept(s.sn, floor, floor, total, total, k.rcv, r, rcv', r);
      } else {
        DataIsPush(k, s);
      }
    }
  }

  lemma {:induction false} GroupBwd(k: Kcb, g: seq<Segment>, rcv': Rcv, p: Packet, total: int)
    requires Inv(k) && k.clock.updated && (forall s :: s in g ==> s in Outgoing(k)) && p.segs == AllOnWire(g)
    requires k.rcv.nxt == Wrap(p.rcvd) && p.floor <= p.rcvd && Remembers(k.rcv, p.rcvd, rcv', p.rcvd)
    requires AcksTrue(k.rcv.acks, p.floor, total, k.rcv, p.rcvd)
    ensures BwdPacket(p, total, rcv', p.rcvd)
  {
    hide Outgoing, Inv, Off, Wrap, AcksTrue, AckTrue, OnWire, Remembers;
    forall i | 0 <= i < |g|
      ensures OnWire(g[i]).una == Wrap(p.rcvd)
      ensures OnWire(g[i]).cmd == CMD_ACK ==> AckTrue(OnWire(g[i]).sn, p.floor, total, rcv', p.rcvd)
    {
      OutgoingAcks(k, g[i], rcv', p.rcvd, p.floor, total);
    }
  }

  /** New datagrams acknowledge what was received. */
  lemma {:induction false} EmittedBwd(k: Kcb, una: int, r: int, floor: int, total: int)
    requires Inv(k) && k.clock.updated && k.rcv.nxt == Wrap(r) && floor <= r
    requires AcksTrue(k.rcv.acks, floor, total, k.rcv, r)
    ensures BwdOk(Emitted(Engine.Flush(k).out, una, r, floor), total, Engine.Flush(k).k.rcv, r)
  {
    FlushShape(k);
    var rcv' := Engine.Flush(k).k.rcv;
    RemembersSelf(k.rcv, rcv', r);
    hide Engine.Flush, Outgoing, EncodeAll, Parse, Inv, Off, Wrap, Flatten, AcksTrue, Remembers, BwdPacket, AllOnWire;
    FlushDecodes(k);
    var out := Engine.Flush(k).out;
    forall p | p in Emitted(out, una, r, floor) ensures BwdPacket(p, total, rcv', r) {
      var g :| g in out && p == Packet(EncodeAll(g), AllOnWire(g), una, r, floor);
      GroupBwd(k, g, rcv', p, total);
    }
  }

  lemma {:induction false} DataIsPush(k: Kcb, s: Segment)
    requires Inv(k) && s in Engine.Flush(k).k.snd.buf
    ensures s.cmd == CMD_PUSH
  {
    FlushInv(k);
    hide Engine.Flush, Window, Good, RttInv, Small;
  }

  /** What a flush numbers. */
  lemma {:induction false} FlushNumbers(x: Node)
    requires Inv(x.k) && x.k.clock.updated
    ensures var cwnd, snd := SendWindow(x.k), Admit(x.k.snd, SendWindow(x.k), StampOf(x.k));
            var x' := AfterFlushing(x, Engine.Flush(x.k)).0;
            && cwnd <= SPAN
            && x'.sent == x.sent + Frags(x.k.snd.queue[..Room(x.k.snd, cwnd)])
            && x'.k.snd == snd.(buf := TouchAll(PolicyOf(x.k), snd.buf))
            && x'.k.cfg == x.k.cfg
  {
    var k, cwnd := x.k, SendWindow(x.k);
    FlushShape(k);
    assert cwnd <= SPAN;
    hide Engine.Flush, SendWindow, StampOf, TouchAll, Admit, Room, PolicyOf;
    AdmitInv(k.snd, k.cfg, cwnd, StampOf(k));
    AdmitMeans(k.snd, cwnd, StampOf(k));
  }

  /** The sender's half of a flush. */
  lemma {:induction false} FlushSends(x: Node, y: Node, xy: set<Packet>, yx: set<Packet>)
    requires Linked(x, y, xy, yx) && x.k.clock.updated
    ensures var (x', new') := AfterFlushing(x, Engine.Flush(x.k));
            Direction(x', y, xy + new', yx) && x.sent <= x'.sent
  {
    var f, cwnd, st := Engine.Flush(x.k), SendWindow(x.k), StampOf(x.k);
    var rcv, r, total := y.k.rcv, |y.Received()|, |x.sent|;
    hide Readable, Engine.Flush, SendWindow, StampOf, TouchAll, Admit, Room, SndOk, RcvOk, Covered, FwdOk, BwdOk,
         AcksTrue, PolicyOf, SameCores, Has, Off, Inv, Emitted, EncodeAll;
    FlushNumbers(x);
    AdmitOk(x.k.snd, x.sent, cwnd, st, rcv, r);
    var m := Room(x.k.snd, cwnd);
    var sent' := x.sent + Frags(x.k.snd.queue[..m]);
    var snd := Admit(x.k.snd, cwnd, st);
    TouchSame(PolicyOf(x.k), snd.buf);
    CoresOk(snd, TouchAll(PolicyOf(x.k), snd.buf), sent', rcv, r);
    var (x', new') := AfterFlushing(x, f);
    EmittedFwd(x.k, sent', x'.Base(), |x.Received()|, x.floor);
    FwdKept(xy, x.sent, sent');
    FwdUnion(xy, new', sent');
    RemembersSelf(rcv, rcv, r);
    hide Remembers;
    BwdKept(yx, total, total + m, rcv, r, rcv, r);
    AcksKept(rcv.acks, y.floor, y.floor, total, total + m, rcv, r, rcv, r);
    RcvOkMore(rcv, y.k.cfg.rcvWnd, x.sent, sent', y.read);
  }

  lemma {:induction false} FwdUnion(net: set<Packet>, more: set<Packet>, sent: seq<Frag>)
    requires FwdOk(net, sent) && FwdOk(more, sent)
    ensures FwdOk(net + more, sent)
  {
    hide FwdPacket;
  }

  lemma {:induction false} BwdUnion(net: set<Packet>, more: set<Packet>, total: int, rcv: Rcv, r: int)
    requires BwdOk(net, total, rcv, r) && BwdOk(more, total, rcv, r)
    ensures BwdOk(net + more, total, rcv, r)
  {
    hide BwdPacket;
  }

  lemma {:induction false} RcvOkMore(rcv: Rcv, wnd: u32, sent: seq<Frag>, sent': seq<Frag>, read: seq<Frag>)
    requires RcvOk(rcv, wnd, sent, read) && sent <= sent'
    ensures RcvOk(rcv, wnd, sent', read)
  {
    hide Good, Off, Wrap, Got;
  }

  /** A flush at an endpoint, seen by what it receives. */
  lemma {:induction false} FlushReceives(x: Node)
    requires x.k.clock.updated
    ensures var (x', new') := AfterFlushing(x, Engine.Flush(x.k));
            && x'.k.rcv == x.k.rcv.(acks := []) && x'.k.cfg == x.k.cfg && x'.read == x.read
            && x'.Received() == x.Received() && x'.floor == |x.Received()|
            && x'.k.rcv == Engine.Flush(x.k).k.rcv
            && new' == Emitted(Engine.Flush(x.k).out, x'.Base(), |x.Received()|, x.floor)
  {
    hide Engine.Flush, Admit, TouchAll, Emitted, SendWindow, PolicyOf, StampOf;
    FlushShape(x.k);
  }

  lemma {:induction false} NoAcks(rcv: Rcv, wnd: u32, sent: seq<Frag>, read: seq<Frag>, floor: int, total: int, r: int)
    requires RcvOk(rcv, wnd, sent, read)
    ensures RcvOk(rcv.(acks := []), wnd, sent, read) && AcksTrue([], floor, total, rcv, r)
    ensures Got(rcv.(acks := []), read) == Got(rcv, read)
  {
    hide Off, Has, Carries, Wrap;
  }

  /** The receiver's half of a flush. */
  lemma {:induction false} FlushAcks(x: Node, y: Node, xy: set<Packet>, yx: set<Packet>)
    requires Linked(x, y, xy, yx) && x.k.clock.updated
    ensures var (x', new') := AfterFlushing(x, Engine.Flush(x.k));
            Direction(y, x', yx, xy + new')
  {
    hide Readable, Engine.Flush, RcvOk, SndOk, FwdOk, Covered, BwdOk, Remembers, Off, Wrap, AcksTrue, Inv,
         AfterFlushing,
         Node.Received, Node.Base, Emitted;
    var (x', new') := AfterFlushing(x, Engine.Flush(x.k));
    FlushReceives(x);
    var rcv', r, total := x'.k.rcv, |x.Received()|, |y.sent|;
    ReceivedIs(x);
    RemembersSelf(x.k.rcv, rcv', r);
    NoAcks(x.k.rcv, x.k.cfg.rcvWnd, y.sent, x.read, r, total, r);
    NoAcks(rcv', x.k.cfg.rcvWnd, y.sent, x.read, r, total, r);
    ReceiverMoved(y, x, x', yx, xy);
    RcvNxt(x.k.rcv, x.k.cfg.rcvWnd, y.sent, x.read);
    EmittedBwd(x.k, x'.Base(), r, x.floor, total);
    BwdUnion(xy, new', total, rcv', r);
  }

  lemma {:induction false} ReceivedIs(x: Node)
    ensures x.Received() == Got(x.k.rcv, x.read)
  {
  }

  lemma {:induction false} RcvNxt(rcv: Rcv, wnd: u32, sent: seq<Frag>, read: seq<Frag>)
    requires RcvOk(rcv, wnd, sent, read)
    ensures rcv.nxt == Wrap(|Got(rcv, read)|)
  {
  }

  lemma {:induction false} ReadableUnion(net: set<Packet>, more: set<Packet>, conv: u32)
    requires Readable(net, conv) && Readable(more, conv)
    ensures Readable(net + more, conv)
  {
    hide Parse;
  }

  lemma {:induction false} FlushLinked(x: Node, y: Node, xy: set<Packet>, yx: set<Packet>)
    requires Linked(x, y, xy, yx) && x.k.clock.updated
    ensures var (x', new') := AfterFlushing(x, Engine.Flush(x.k));
            Linked(x', y, xy + new', yx)
  {
    var (x', new') := AfterFlushing(x, Engine.Flush(x.k));
    FlushShape(x.k);
    assert x'.k.cfg == x.k.cfg && x'.k == Engine.Flush(x.k).k;
    FlushSends(x, y, xy, yx);
    FlushAcks(x, y, xy, yx);
    hide Engine.Flush, Inv, Direction, Readable;
    FlushInv(x.k);
    EmittedReadable(x.k, x'.Base(), |x.Received()|, x.floor);
    ReadableUnion(xy, new', x.k.cfg.conv);
  }

  /** A flush or update that does nothing but set the clock. */
  lemma {:induction false} IdleLinked(x: Node, y: Node, xy: set<Packet>, yx: set<Packet>, clock: Clock)
    requires Linked(x, y, xy, yx)
    ensures var (x', new') := AfterFlushing(x, Flushed(x.k.(clock := clock), []));
            Linked(x', y, xy + new', yx)
  {
    var (x', new') := AfterFlushing(x, Flushed(x.k.(clock := clock), []));
    assert x.sent + Frags([]) == x.sent && x.k.snd.queue[..0] == [];
    assert xy + new' == xy;
    assert x'.k.snd == x.k.snd && x'.k.rcv == x.k.rcv && x'.k.cfg == x.k.cfg && x'.sent == x.sent && x'.read == x.read;
    assert x'.floor <= |x.Received()|;
    assert Inv(x'.k) by { hide SndInv, Good; }
    hide Inv, Readable, RcvOk, SndOk, FwdOk, Covered, BwdOk, AckTrue, Emitted;
  }

  lemma {:induction false} UpdateLinked(x: Node, y: Node, xy: set<Packet>, yx: set<Packet>, now: u32)
    requires Linked(x, y, xy, yx)
    ensures var (x', new') := AfterFlushing(x, Engine.Update(x.k, now));
            Linked(x', y, xy + new', yx)
  {
    var (clock, due) := Tick(x.k.clock, now, x.k.cfg.interval);
    assert clock.updated;
    IdleLinked(x, y, xy, yx, clock);
    if due {
      var x1 := x.(k := x.k.(clock := clock));
      ClockLinked(x, y, xy, yx, clock);
      FlushLinked(x1, y, xy, yx);
      hide Linked, Engine.Flush;
      assert AfterFlushing(x1, Engine.Flush(x1.k)) == AfterFlushing(x, Engine.Update(x.k, now));
    }
  }

  lemma {:induction false} ClockLinked(x: Node, y: Node, xy: set<Packet>, yx: set<Packet>, clock: Clock)
    requires Linked(x, y, xy, yx)
    ensures Linked(x.(k := x.k.(clock := clock)), y, xy, yx)
  {
    var x' := x.(k := x.k.(clock := clock));
    assert Inv(x'.k) by { hide SndInv, Good; }
    hide Inv, Readable, RcvOk, SndOk, FwdOk, Covered, BwdOk, AcksTrue;
  }

  // ---------- ikcp_input ----------

  function SndSteps(snd: Snd, segs: seq<Segment>): Snd {
    if segs == [] then snd else SndStep(SndSteps(snd, segs[..|segs| - 1]), segs[|segs| - 1])
  }

  function RcvSteps(rcv: Rcv, wnd: u32, segs: seq<Segment>): Rcv {
    if segs == [] then rcv else RcvStep(RcvSteps(rcv, wnd, segs[..|segs| - 1]), wnd, segs[|segs| - 1])
  }

  lemma {:induction false} StepsHalves(k: Kcb, segs: seq<Segment>)
    ensures Steps(k, segs).snd == SndSteps(k.snd, segs) && Steps(k, segs).rcv == RcvSteps(k.rcv, k.cfg.rcvWnd, segs)
  {
    hide SndStep, RcvStep, RttStep;
    if segs != [] {
      StepsHalves(k, segs[..|segs| - 1]);
    }
  }

  /** A datagram that decodes without error. */
  lemma {:induction false} InputIs(k: Kcb, p: Packet)
    requires Parse(k.cfg.conv, p.bytes) == Parsed(p.segs, 0)
    ensures var k' := Engine.Input(k, p.bytes).0;
            var snd := SndSteps(k.snd, p.segs);
            && k'.rcv == RcvSteps(k.rcv, k.cfg.rcvWnd, p.segs) && k'.cfg == k.cfg
            && (k'.snd == snd || k'.snd == TakeFast(snd, ScanAcks(p.segs).maxack))
  {
    StepsHalves(k, p.segs);
    hide Steps, SndSteps, RcvSteps, ScanAcks, TakeFast, Grow, TimeDiff;
    if |p.bytes| < OVERHEAD {
      assert p.segs == [];
      NoSteps(k);
    } else {
      hide Parse;
    }
  }

  lemma {:induction false} NoSteps(k: Kcb)
    ensures SndSteps(k.snd, []) == k.snd && RcvSteps(k.rcv, k.cfg.rcvWnd, []) == k.rcv
  {
  }

  /** What a datagram acknowledges, at the sender. */
  lemma {:induction false} SndStepsOk(snd: Snd, sent: seq<Frag>, segs: seq<Segment>, v: int, floor: int, rcv: Rcv,
      r: int)
    requires SndOk(snd, sent) && Covered(snd, |sent|, rcv, r)
    requires floor <= v <= r <= |sent| <= floor + TWO31
    requires forall i :: 0 <= i < |segs| ==>
               segs[i].una == Wrap(v) && (segs[i].cmd == CMD_ACK ==> AckTrue(segs[i].sn, floor, |sent|, rcv, r))
    ensures SndOk(SndSteps(snd, segs), sent) && Covered(SndSteps(snd, segs), |sent|, rcv, r)
  {
    hide SndOk, Covered, SndStep, AckTrue, Wrap;
    if segs != [] {
      var n := |segs| - 1;
      assert segs[n].una == Wrap(v);
      SndStepsOk(snd, sent, segs[..n], v, floor, rcv, r);
      SndStepOk(SndSteps(snd, segs[..n]), sent, segs[n], v, floor, rcv, r);
    }
  }

  /** One data segment of a datagram, at the receiver. */
  lemma {:induction false} RcvStepOk(rcv: Rcv, wnd: u32, s: Segment, una: int, sent: seq<Frag>, read: seq<Frag>,
      floor: int)
    requires RcvOk(rcv, wnd, sent, read) && AcksTrue(rcv.acks, floor, |sent|, rcv, |Got(rcv, read)|)
    requires floor <= una && |sent| <= una + TWO31 && |sent| <= |Got(rcv, read)| + wnd + SPAN
    requires s.cmd == CMD_PUSH ==> Carries(s, una + Off(s.sn, Wrap(una)), sent)
    ensures var d := RcvStep(rcv, wnd, s);
            && RcvOk(d, wnd, sent, read) && AcksTrue(d.acks, floor, |sent|, d, |Got(d, read)|)
            && Remembers(rcv, |Got(rcv, read)|, d, |Got(d, read)|) && |Got(rcv, read)| <= |Got(d, read)|
  {
    var d, r := RcvStep(rcv, wnd, s), |Got(rcv, read)|;
    if s.cmd == CMD_PUSH {
      var n := una + Off(s.sn, Wrap(una));
      WrapAdd(una, Off(s.sn, Wrap(una)));
      WrapOff(s.sn, Wrap(una));
      assert s.sn == Wrap(n);
      QueueGrows(rcv, wnd, s);
      hide RcvOk, Carries, TakePush, Off, Wrap, Has;
      PushOk(rcv, wnd, s, n, sent, read);
      var r' := |Got(d, read)|;
      AcksKept(rcv.acks, floor, floor, |sent|, |sent|, rcv, r, d, r');
      if d.acks != rcv.acks {
        assert n < |sent| by { CarriesBelow(s, n, sent); }
        assert AckTrue(s.sn, floor, |sent|, d, r');
        AcksSnoc(rcv.acks, Ack(s.sn, s.ts), floor, |sent|, d, r');
      }
    } else {
      RemembersSelf(rcv, rcv, r);
    }
  }

  lemma {:induction false} AcksSnoc(acks: seq<Ack>, a: Ack, floor: int, total: int, rcv: Rcv, r: int)
    requires AcksTrue(acks, floor, total, rcv, r) && AckTrue(a.sn, floor, total, rcv, r)
    ensures AcksTrue(acks + [a], floor, total, rcv, r)
  {
    hide AckTrue;
  }

  lemma {:induction false} QueueGrows(rcv: Rcv, wnd: u32, s: Segment)
    ensures |TakePush(rcv, wnd, s).queue| >= |rcv.queue|
  {
    hide DrainCount, Insert, TimeDiff;
  }

  /** What a datagram carries, at the receiver. */
  lemma {:induction false} RcvStepsOk(rcv: Rcv, wnd: u32, segs: seq<Segment>, una: int, sent: seq<Frag>,
      read: seq<Frag>, floor: int)
    requires RcvOk(rcv, wnd, sent, read) && AcksTrue(rcv.acks, floor, |sent|, rcv, |Got(rcv, read)|)
    requires floor <= una && |sent| <= una + TWO31 && |sent| <= |Got(rcv, read)| + wnd + SPAN
    requires forall i :: 0 <= i < |segs| && segs[i].cmd == CMD_PUSH ==>
               Carries(segs[i], una + Off(segs[i].sn, Wrap(una)), sent)
    ensures var d := RcvSteps(rcv, wnd, segs);
            && RcvOk(d, wnd, sent, read) && AcksTrue(d.acks, floor, |sent|, d, |Got(d, read)|)
            && Remembers(rcv, |Got(rcv, read)|, d, |Got(d, read)|) && |Got(rcv, read)| <= |Got(d, read)|
  {
    hide RcvOk, AcksTrue, RcvStep, Carries, Off, Wrap, Has, Got;
    if segs == [] {
      RemembersSelf(rcv, rcv, |Got(rcv, read)|);
    } else {
      var n := |segs| - 1;
      RcvStepsOk(rcv, wnd, segs[..n], una, sent, read, floor);
      var e := RcvSteps(rcv, wnd, segs[..n]);
      RcvStepOk(e, wnd, segs[n], una, sent, read, floor);
    }
  }

  /** Delivery of any datagram the peer has ever emitted, unless it is too old. */
  lemma {:induction false} InputLinked(x: Node, y: Node, xy: set<Packet>, yx: set<Packet>, p: Packet)
    requires Linked(x, y, xy, yx) && p in yx && Timely(p, y, x)
    ensures Linked(AfterInput(x, p), y, xy, yx)
  {
    var x' := AfterInput(x, p);
    InputInv(x.k, p.bytes);
    InputIs(x.k, p);
    hide AfterInput, Engine.Input;
    InputAcks(x, y, xy, yx, p, x');
    InputData(x, y, xy, yx, p, x');
    hide Direction, Inv, Readable, SndSteps, RcvSteps;
  }

  lemma {:induction false} InputAcks(x: Node, y: Node, xy: set<Packet>, yx: set<Packet>, p: Packet, x': Node)
    requires Linked(x, y, xy, yx) && p in yx && Timely(p, y, x)
    requires x'.sent == x.sent
    requires var snd := SndSteps(x.k.snd, p.segs);
             x'.k.snd == snd || x'.k.snd == TakeFast(snd, ScanAcks(p.segs).maxack)
    ensures Direction(x', y, xy, yx)
  {
    var snd, rcv, r := SndSteps(x.k.snd, p.segs), y.k.rcv, |y.Received()|;
    assert BwdPacket(p, |x.sent|, rcv, r);
    assert r <= |x.sent|;
    hide Inv, Readable, RcvOk, FwdOk, BwdOk, AcksTrue, SndOk, Covered, SndSteps, ScanAcks, AckTrue, Wrap;
    SndStepsOk(x.k.snd, x.sent, p.segs, p.rcvd, p.floor, rcv, r);
    assert Window(snd) by { SndWindow(snd, x.sent); }
    hide TakeFast, Window, SameCores;
    TakeFastKeeps(snd, ScanAcks(p.segs).maxack);
    CoresOk(snd, TakeFast(snd, ScanAcks(p.segs).maxack).buf, x.sent, rcv, r);
  }

  lemma {:induction false} SndWindow(snd: Snd, sent: seq<Frag>)
    requires SndOk(snd, sent)
    ensures Window(snd)
  {
  }

  lemma {:induction false} InputData(x: Node, y: Node, xy: set<Packet>, yx: set<Packet>, p: Packet, x': Node)
    requires Linked(x, y, xy, yx) && p in yx && Timely(p, y, x)
    requires x'.read == x.read && x'.k.cfg == x.k.cfg && x'.floor == Min(x.floor, p.una)
    requires x'.k.rcv == RcvSteps(x.k.rcv, x.k.cfg.rcvWnd, p.segs)
    ensures Direction(y, x', yx, xy)
  {
    var rcv, wnd, r, sent := x.k.rcv, x.k.cfg.rcvWnd, |x.Received()|, y.sent;
    assert FwdPacket(p, sent);
    assert Good(rcv, wnd);
    SpanBound(y.k.snd, sent, rcv, wnd, r);
    hide Inv, Readable, RcvOk, FwdOk, BwdOk, SndOk, Covered, RcvSteps, Good, Carries, Off, Wrap, Remembers, AckTrue,
         Got;
    RemembersSelf(rcv, rcv, r);
    AcksKept(rcv.acks, x.floor, x'.floor, |sent|, |sent|, rcv, r, rcv, r);
    hide AcksTrue;
    RcvStepsOk(rcv, wnd, p.segs, p.una, sent, x.read, x'.floor);
    ReceiverMoved(y, x, x', yx, xy);
  }

  // ---------- every run ----------

  lemma {:induction false} ActLinked(x: Node, y: Node, xy: set<Packet>, yx: set<Packet>, e: Event)
    requires Linked(x, y, xy, yx) && (e.Deliver? ==> e.p in yx && Timely(e.p, y, x))
    ensures Linked(Act(x, e).0, y, xy + Act(x, e).1, yx)
  {
    hide Linked, AfterSend, AfterRecv, AfterInput, AfterFlushing, Engine.Flush, Engine.Update, Timely;
    assert xy + {} == xy;
    match e
    case DoSend(data) => SendLinked(x, y, xy, yx, data);
    case DoRecv(len) => RecvLinked(x, y, xy, yx, len);
    case DoUpdate(now) => UpdateLinked(x, y, xy, yx, now);
    case DoFlush =>
      if x.k.clock.updated {
        FlushLinked(x, y, xy, yx);
      } else {
        IdleLinked(x, y, xy, yx, x.k.clock);
        assert Engine.Flush(x.k) == Flushed(x.k.(clock := x.k.clock), []) by { FlushNothing(x.k); }
      }
    case Deliver(p) => InputLinked(x, y, xy, yx, p);
  }

  lemma {:induction false} FlushNothing(k: Kcb)
    requires !k.clock.updated
    ensures Engine.Flush(k) == Flushed(k.(clock := k.clock), [])
  {
  }

  lemma {:induction false} InitInv(w: World)
    requires Init(w)
    ensures WorldInv(w)
  {
    hide Inv, Direction, GoodConfig;
    var c, d: Config :|
      GoodConfig(c) && GoodConfig(d) && c.conv == d.conv && w == World(FreshNode(c), FreshNode(d), {}, {});
    CreateInv(c);
    CreateInv(d);
    FreshDirection(c, d);
    FreshDirection(d, c);
  }

  lemma {:induction false} FreshDirection(c: Config, d: Config)
    requires GoodConfig(d)
    ensures Direction(FreshNode(c), FreshNode(d), {}, {})
  {
    var snd, rcv := Snd(0, 0, [], []), Rcv(0, [], [], []);
    FreshHalves(d.rcvWnd);
    hide SndOk, RcvOk, Covered, AcksTrue;
    assert FreshNode(d).Received() == Got(rcv, []) && FreshNode(c).k.snd == snd && FreshNode(d).k.rcv == rcv;
  }

  lemma {:induction false} FreshHalves(wnd: u32)
    requires 0 < wnd < TWO31
    ensures var snd, rcv := Snd(0, 0, [], []), Rcv(0, [], [], []);
            && SndOk(snd, []) && RcvOk(rcv, wnd, [], []) && Got(rcv, []) == [] && AcksTrue([], 0, 0, rcv, 0)
            && Covered(snd, 0, rcv, 0)
  {
    assert Frags([]) == [] && [] + Frags([]) == [];
  }

  lemma {:induction false} StepKeepsInv(w: World, w': World)
    requires WorldInv(w) && Transition(w, w')
    ensures WorldInv(w')
  {
    hide Linked, Act, Timely;
    var e: Event :| StepAtA(w, e, w') || StepAtB(w, e, w');
    if StepAtA(w, e, w') {
      ActLinked(w.a, w.b, w.ab, w.ba, e);
    } else {
      LinkedBothWays(w.a, w.b, w.ab, w.ba);
      ActLinked(w.b, w.a, w.ba, w.ab, e);
      LinkedBothWays(w'.b, w'.a, w'.ba, w'.ab);
    }
  }

  ghost predicate Run(ws: seq<World>) {
    ws != [] && Init(ws[0]) && forall i :: 0 <= i < |ws| - 1 ==> Transition(ws[i], ws[i + 1])
  }

  lemma {:induction false} RunKeepsInv(ws: seq<World>, i: nat)
    requires Run(ws) && i < |ws|
    ensures WorldInv(ws[i])
  {
    hide WorldInv, Transition, Init;
    if i == 0 {
      InitInv(ws[0]);
    } else {
      RunKeepsInv(ws, i - 1);
      assert Transition(ws[i - 1], ws[(i - 1) + 1]);
      StepKeepsInv(ws[i - 1], ws[i]);
    }
  }
}
