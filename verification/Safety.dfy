/** What the session promises its users, in every state of every run: what one side reads is, in
    order and byte for byte, a prefix of what the other side sent. */
module Safety {
  import opened Serial
  import opened Seqs
  import opened Wire
  import opened Engine
  import opened SenderWindow
  import opened Receiver
  import opened Invariant
  import opened Messages
  import opened Delivery
  import opened Network

  ghost predicate PlainFrags(f: seq<Frag>) {
    forall i :: 0 <= i < |f| ==> f[i].frg == 0
  }

  /** Message mode: the numbered and the queued fragments are those of the accepted messages, and
      the fragments read are those of the messages read. */
  ghost predicate ConveysMessages(x: Node, y: Node) {
    var mss := x.k.cfg.Mss();
    && Sendables(x.accepted, mss)
    && x.sent + Frags(x.k.snd.queue) == AllFrags(x.accepted, mss)
    && y.delivered <= x.accepted
    && y.read == AllFrags(x.accepted[..|y.delivered|], mss)
  }

  /** Stream mode: the same for bytes. */
  ghost predicate ConveysBytes(x: Node, y: Node) {
    var queue, mss := x.k.snd.queue, x.k.cfg.Mss();
    && PlainFrags(x.sent) && Plain(queue) && Full(queue, mss) && (queue != [] ==> |queue[|queue| - 1].data| <= mss)
    && BytesOf(x.sent) + Payload(queue) == Concat(x.accepted)
    && BytesOf(y.read) == Concat(y.delivered)
  }

  ghost predicate Conveys(x: Node, y: Node) {
    if x.k.cfg.stream then ConveysBytes(x, y) else ConveysMessages(x, y)
  }

  ghost predicate FullInv(w: World) {
    WorldInv(w) && Conveys(w.a, w.b) && Conveys(w.b, w.a)
  }

  // ---------- steps of the sender ----------

  /** An endpoint after a send. */
  lemma {:induction false} SentNode(x: Node, data: Bytes)
    ensures var x', k := AfterSend(x, data), x.k;
            var (queue, ret) := Enqueue(k.snd.queue, k.cfg.Mss(), data, k.cfg.stream);
            && x'.sent == x.sent && x'.k.cfg == k.cfg && x'.k.snd.queue == queue
            && x'.accepted == (if ret == 0 || k.cfg.stream then x.accepted + [TakenIn(k, data)] else x.accepted)
            && TakenIn(k, data)
               == (if ret == 0 then data else data[..Min(|data|, Left(k.snd.queue, k.cfg.Mss()))])
  {
    hide Enqueue, Left;
  }

  lemma {:induction false} SendConveys(x: Node, y: Node, data: Bytes)
    requires Conveys(x, y)
    ensures Conveys(AfterSend(x, data), y)
  {
    hide Enqueue, AfterSend, TakenIn, FragCount, FragsOf, Left, Payload, Frags, Concat, BytesOf, AllFrags;
    SentNode(x, data);
    if x.k.cfg.stream {
      SendConveysBytes(x, y, data);
    } else {
      var mss, queue, x' := x.k.cfg.Mss(), x.k.snd.queue, AfterSend(x, data);
      EnqueueMessage(queue, mss, data);
      if Enqueue(queue, mss, data, false).1 == 0 {
        AllFragsSnoc(x.accepted, data, mss);
        Assoc(x.sent, Frags(queue), FragsOf(data, mss));
        assert x'.accepted[..|y.delivered|] == x.accepted[..|y.delivered|];
      }
    }
  }

  lemma {:induction false} SendConveysBytes(x: Node, y: Node, data: Bytes)
    requires ConveysBytes(x, y) && x.k.cfg.stream
    ensures ConveysBytes(AfterSend(x, data), y)
  {
    hide Enqueue, AfterSend, TakenIn, Left, Payload, Concat, BytesOf;
    SentNode(x, data);
    EnqueueStream(x.k.snd.queue, x.k.cfg.Mss(), data);
    ConcatOne(x.accepted, TakenIn(x.k, data));
    Assoc(BytesOf(x.sent), Payload(x.k.snd.queue), TakenIn(x.k, data));
  }

  lemma {:induction false} ConcatOne(msgs: seq<Bytes>, m: Bytes)
    ensures Concat(msgs + [m]) == Concat(msgs) + m
  {
    ConcatAppend(msgs, [m]);
    assert Concat([m]) == m + Concat([]);
  }

  /** An endpoint after a flush that took `m` segments from its queue. */
  lemma {:induction false} FlushTaken(x: Node, f: Flushed, m: nat)
    requires f.k.cfg == x.k.cfg && m <= |x.k.snd.queue| && f.k.snd.queue == x.k.snd.queue[m..]
    ensures var x' := AfterFlushing(x, f).0;
            && x'.sent == x.sent + Frags(x.k.snd.queue[..m]) && x'.k.snd.queue == x.k.snd.queue[m..]
            && x'.k.cfg == x.k.cfg && x'.accepted == x.accepted
    ensures x.k.snd.queue[..m] + x.k.snd.queue[m..] == x.k.snd.queue
  {
    hide Frags, Emitted;
  }

  /** A flush moves fragments from the queue to the numbered ones. */
  lemma {:induction false} FlushConveys(x: Node, y: Node, f: Flushed)
    requires Conveys(x, y) && f.k.cfg == x.k.cfg
    requires |f.k.snd.queue| <= |x.k.snd.queue| && f.k.snd.queue == x.k.snd.queue[|x.k.snd.queue| - |f.k.snd.queue|..]
    ensures Conveys(AfterFlushing(x, f).0, y)
  {
    hide AfterFlushing, Payload, Frags, Concat, BytesOf, AllFrags, ConveysBytes;
    var queue, m := x.k.snd.queue, |x.k.snd.queue| - |f.k.snd.queue|;
    FlushTaken(x, f, m);
    if x.k.cfg.stream {
      FlushConveysBytes(x, y, f, m);
    } else {
      FragsAppend(queue[..m], queue[m..]);
      Assoc(x.sent, Frags(queue[..m]), Frags(queue[m..]));
    }
  }

  lemma {:induction false} FlushConveysBytes(x: Node, y: Node, f: Flushed, m: nat)
    requires ConveysBytes(x, y) && f.k.cfg == x.k.cfg && m <= |x.k.snd.queue| && f.k.snd.queue == x.k.snd.queue[m..]
    ensures ConveysBytes(AfterFlushing(x, f).0, y)
  {
    hide AfterFlushing, Payload, Concat, BytesOf, Frags;
    var queue := x.k.snd.queue;
    FlushTaken(x, f, m);
    PayloadAppend(queue[..m], queue[m..]);
    BytesOfAppend(x.sent, Frags(queue[..m]));
    PayloadIsBytesOf(queue[..m]);
    Assoc(BytesOf(x.sent), Payload(queue[..m]), Payload(queue[m..]));
    PlainRest(x.sent, queue, m, x.k.cfg.Mss());
  }

  lemma {:induction false} PlainRest(sent: seq<Frag>, queue: seq<Segment>, m: nat, mss: u32)
    requires PlainFrags(sent) && Plain(queue) && Full(queue, mss) && m <= |queue|
    ensures PlainFrags(sent + Frags(queue[..m])) && Plain(queue[m..]) && Full(queue[m..], mss)
    ensures queue[m..] != [] ==> queue[m..][|queue[m..]| - 1] == queue[|queue| - 1]
  {
  }

  lemma {:induction false} FlushTakes(k: Kcb)
    requires Inv(k)
    ensures var q, q' := k.snd.queue, Engine.Flush(k).k.snd.queue;
            |q'| <= |q| && q' == q[|q| - |q'|..] && Engine.Flush(k).k.cfg == k.cfg
  {
    if k.clock.updated {
      FlushShape(k);
      assert SendWindow(k) <= SPAN;
      hide Engine.Flush, TouchAll, Admit, NumberedAll;
      AdmitMeans(k.snd, SendWindow(k), StampOf(k));
    }
  }

  lemma {:induction false} UpdateTakes(k: Kcb, now: u32)
    requires Inv(k)
    ensures var q, q' := k.snd.queue, Engine.Update(k, now).k.snd.queue;
            |q'| <= |q| && q' == q[|q| - |q'|..] && Engine.Update(k, now).k.cfg == k.cfg
  {
    hide SndInv, Good, Engine.Flush;
    FlushTakes(k.(clock := Tick(k.clock, now, k.cfg.interval).0));
  }

  // ---------- steps of the receiver ----------

  /** A queue of the receiver continues the messages read so far. */
  lemma {:induction false} QueueContinues(x: Node, y: Node)
    requires Conveys(x, y) && !x.k.cfg.stream && y.Received() <= x.sent && y.k.rcv.queue != []
    ensures var d, mss := |y.delivered|, x.k.cfg.Mss();
            && d < |x.accepted| && FragCount(|x.accepted[d]|, mss) < WND_RCV
            && Sendables(x.accepted[d + 1..], mss)
            && Frags(y.k.rcv.queue) <= FragsOf(x.accepted[d], mss) + AllFrags(x.accepted[d + 1..], mss)
  {
    var d, mss, all := |y.delivered|, x.k.cfg.Mss(), x.accepted;
    var queue := Frags(y.k.rcv.queue);
    assert all[..d] + all[d..] == all;
    hide FragCount, FragsOf, Frags;
    AllFragsAppend(all[..d], all[d..], mss);
    var before, after := AllFrags(all[..d], mss), AllFrags(all[d..], mss);
    assert before + queue <= before + after;
    assert queue <= after by { PrefixCancel(before, queue, after); }
    assert |queue| > 0;
    assert all[d..] != [];
    assert all[d..][0] == all[d] && all[d..][1..] == all[d + 1..];
  }

  lemma {:induction false} PrefixCancel<T>(a: seq<T>, b: seq<T>, c: seq<T>)
    requires a + b <= a + c
    ensures b <= c
  {
    assert (a + b)[|a|..] == b && (a + c)[|a|..] == c;
    forall i | 0 <= i < |b| ensures b[i] == c[i] {
      assert b[i] == (a + b)[|a| + i] == (a + c)[|a| + i] == c[i];
    }
  }

  lemma {:induction false} RecvConveys(x: Node, y: Node, len: int)
    requires Conveys(x, y) && y.Received() <= x.sent
    ensures Conveys(x, AfterRecv(y, len))
  {
    var y', queue := AfterRecv(y, len), y.k.rcv.queue;
    var c := MergeCount(queue);
    if RecvCode(queue, len) >= 0 && len >= 0 {
      assert y'.read == y.read + Frags(queue[..c]) && y'.delivered == y.delivered + [Payload(queue[..c])];
      if x.k.cfg.stream {
        hide AfterRecv, PeekSize;
        BytesOfAppend(y.read, Frags(queue[..c]));
        PayloadIsBytesOf(queue[..c]);
        ConcatAppend(y.delivered, [Payload(queue[..c])]);
        assert Concat([Payload(queue[..c])]) == Payload(queue[..c]) + Concat([]);
      } else {
        hide AfterRecv;
        QueueContinues(x, y);
        RecvNextMessage(x, y, len);
      }
    }
  }

  /** Message mode: a read that succeeds returns exactly the next accepted message. */
  lemma {:induction false} RecvNextMessage(x: Node, y: Node, len: int)
    requires Conveys(x, y) && !x.k.cfg.stream && y.Received() <= x.sent
    requires y.k.rcv.queue != [] && PeekSize(y.k.rcv.queue) >= 0
    ensures var queue, d, mss := y.k.rcv.queue, |y.delivered|, x.k.cfg.Mss();
            var c := MergeCount(queue);
            && d < |x.accepted| && Payload(queue[..c]) == x.accepted[d]
            && y.read + Frags(queue[..c]) == AllFrags(x.accepted[..d + 1], mss)
            && y.delivered + [Payload(queue[..c])] <= x.accepted
  {
    var queue, d, mss, all := y.k.rcv.queue, |y.delivered|, x.k.cfg.Mss(), x.accepted;
    QueueContinues(x, y);
    hide PeekSize, MergeCount, FragCount, FragsOf, Frags;
    ReadBoundary(queue, all[d], AllFrags(all[d + 1..], mss), mss);
    AllFragsSnoc(all[..d], all[d], mss);
    assert all[..d + 1] == all[..d] + [all[d]];
  }

  // ---------- every run ----------

  lemma {:induction false} InputConveys(x: Node, y: Node, p: Packet)
    requires Conveys(x, y)
    ensures Conveys(AfterInput(x, p), y)
  {
    var x' := AfterInput(x, p);
    assert x'.k.snd.queue == x.k.snd.queue && x'.k.cfg == x.k.cfg by { InputQueue(x.k, p.bytes); }
    hide AfterInput;
  }

  lemma {:induction false} InputQueue(k: Kcb, data: Bytes)
    ensures Engine.Input(k, data).0.snd.queue == k.snd.queue && Engine.Input(k, data).0.cfg == k.cfg
  {
    hide Parse, Steps, ScanAcks, BumpFast, Grow;
  }

  /** One event at `x`, seen from both directions. */
  lemma {:induction false} ActConveys(x: Node, y: Node, e: Event)
    requires Inv(x.k) && x.Received() <= y.sent && Conveys(x, y) && Conveys(y, x)
    ensures Conveys(Act(x, e).0, y) && Conveys(y, Act(x, e).0)
  {
    hide Inv, Conveys, Engine.Flush, Engine.Update;
    match e
    case DoSend(data) =>
      SendConveys(x, y, data);
      OnlyReads(y, x, AfterSend(x, data));
    case DoRecv(len) =>
      RecvConveys(y, x, len);
      OnlySends(x, AfterRecv(x, len), y);
    case DoUpdate(now) =>
      UpdateTakes(x.k, now);
      FlushConveys(x, y, Engine.Update(x.k, now));
      OnlyReads(y, x, AfterFlushing(x, Engine.Update(x.k, now)).0);
    case DoFlush =>
      FlushTakes(x.k);
      FlushConveys(x, y, Engine.Flush(x.k));
      OnlyReads(y, x, AfterFlushing(x, Engine.Flush(x.k)).0);
    case Deliver(p) =>
      InputConveys(x, y, p);
      OnlyReads(y, x, AfterInput(x, p));
  }

  lemma {:induction false} OnlyReads(x: Node, y: Node, y': Node)
    requires Conveys(x, y) && y'.read == y.read && y'.delivered == y.delivered
    ensures Conveys(x, y')
  {
  }

  lemma {:induction false} OnlySends(x: Node, x': Node, y: Node)
    requires Conveys(x, y) && x'.sent == x.sent && x'.accepted == x.accepted
    requires x'.k.cfg == x.k.cfg && x'.k.snd.queue == x.k.snd.queue
    ensures Conveys(x', y)
  {
  }

  lemma {:induction false} StepKeepsFullInv(w: World, w': World)
    requires FullInv(w) && Transition(w, w')
    ensures FullInv(w')
  {
    StepKeepsInv(w, w');
    assert w.a.Received() <= w.b.sent && w.b.Received() <= w.a.sent && Inv(w.a.k) && Inv(w.b.k) by {
      hide Inv, Readable, SndOk, Covered, AcksTrue, FwdOk, BwdOk;
    }
    hide WorldInv, Act, Timely, Conveys, Inv;
    var e: Event :| StepAtA(w, e, w') || StepAtB(w, e, w');
    if StepAtA(w, e, w') {
      ActConveys(w.a, w.b, e);
    } else {
      ActConveys(w.b, w.a, e);
    }
  }

  lemma {:induction false} RunKeepsFullInv(ws: seq<World>, i: nat)
    requires Run(ws) && i < |ws|
    ensures FullInv(ws[i])
  {
    hide WorldInv, Transition;
    if i == 0 {
      InitInv(ws[0]);
    } else {
      hide FullInv, Init;
      RunKeepsFullInv(ws, i - 1);
      assert Transition(ws[i - 1], ws[(i - 1) + 1]);
      StepKeepsFullInv(ws[i - 1], ws[i]);
    }
  }

  /** What `y` read is a prefix of what `x` sent: as messages, or in stream mode as bytes. */
  ghost predicate InOrder(x: Node, y: Node) {
    if x.k.cfg.stream then Concat(y.delivered) <= Concat(x.accepted) else y.delivered <= x.accepted
  }

  lemma {:induction false} ConveysInOrder(x: Node, y: Node)
    requires Conveys(x, y) && y.Received() <= x.sent
    ensures InOrder(x, y)
  {
    if x.k.cfg.stream {
      var rest := x.sent[|y.read|..];
      assert x.sent == y.read + rest;
      BytesOfAppend(y.read, rest);
    }
  }

  /** End-to-end safety: in every state of every run over a network that loses, repeats and reorders
      datagrams, both directions deliver a prefix of what was sent. */
  lemma {:induction false} EndToEndSafety(ws: seq<World>, i: nat)
    requires Run(ws) && i < |ws|
    ensures InOrder(ws[i].a, ws[i].b) && InOrder(ws[i].b, ws[i].a)
  {
    RunKeepsFullInv(ws, i);
    var w := ws[i];
    assert w.a.Received() <= w.b.sent && w.b.Received() <= w.a.sent by {
      hide Inv, Readable, SndOk, Covered, AcksTrue, FwdOk, BwdOk;
    }
    hide WorldInv, Run;
    ConveysInOrder(w.a, w.b);
    ConveysInOrder(w.b, w.a);
  }

  /** The sender and the receiver of one direction. */
  function Ends(w: World, back: bool): (Node, Node) {
    if back then (w.b, w.a) else (w.a, w.b)
  }

  /** Acknowledgement soundness: in every state of every run, the fragment with number `n` is still kept by
      its sender under that number, or the peer has passed it on in that place or holds it under that number. */
  lemma {:induction false} AcknowledgedMeansReceived(ws: seq<World>, i: nat, back: bool, n: nat)
    requires Run(ws) && i < |ws| && n < |Ends(ws[i], back).0.sent|
    ensures var (x, y) := Ends(ws[i], back);
            || (exists j :: 0 <= j < |x.k.snd.buf| && Number(x.k.snd, |x.sent|, x.k.snd.buf[j].sn) == n
                            && Carries(x.k.snd.buf[j], n, x.sent))
            || (n < |y.Received()| && y.Received()[n] == x.sent[n])
            || (exists j :: 0 <= j < |y.k.rcv.buf| && |y.Received()| + Off(y.k.rcv.buf[j].sn, y.k.rcv.nxt) == n
                            && Carries(y.k.rcv.buf[j], n, x.sent))
  {
    hide Transition, Init;
    RunKeepsInv(ws, i);
    hide Inv, Readable, Good, Window, Off, AcksTrue, FwdOk, BwdOk;
    var (x, y) := Ends(ws[i], back);
    KeptOrReceived(x, y, if back then ws[i].ba else ws[i].ab, if back then ws[i].ab else ws[i].ba, n);
  }

  lemma {:induction false} KeptOrReceived(x: Node, y: Node, xy: set<Packet>, yx: set<Packet>, n: nat)
    requires Direction(x, y, xy, yx) && n < |x.sent|
    ensures || (exists j :: 0 <= j < |x.k.snd.buf| && Number(x.k.snd, |x.sent|, x.k.snd.buf[j].sn) == n
                            && Carries(x.k.snd.buf[j], n, x.sent))
            || (n < |y.Received()| && y.Received()[n] == x.sent[n])
            || (exists j :: 0 <= j < |y.k.rcv.buf| && |y.Received()| + Off(y.k.rcv.buf[j].sn, y.k.rcv.nxt) == n
                            && Carries(y.k.rcv.buf[j], n, x.sent))
  {
    hide Inv, Good, Window, Off, AcksTrue, FwdOk, BwdOk;
    var r := |y.Received()|;
    assert Outstanding(x.k.snd, |x.sent|, n) || Has(y.k.rcv, r, n);
    if Outstanding(x.k.snd, |x.sent|, n) {
      var j :| 0 <= j < |x.k.snd.buf| && Number(x.k.snd, |x.sent|, x.k.snd.buf[j].sn) == n;
      assert Carries(x.k.snd.buf[j], n, x.sent);
    } else if n >= r {
      var j :| 0 <= j < |y.k.rcv.buf| && r + Off(y.k.rcv.buf[j].sn, y.k.rcv.nxt) == n;
      assert Carries(y.k.rcv.buf[j], n, x.sent);
    }
  }

  /** No reassembly deadlock: whenever the receiving queue is full, reading with a large enough buffer
      succeeds and announces the window again whenever it leaves the queue below full; with a smaller one it
      changes nothing. In message mode what is read is the next accepted message, whole; in stream mode it is
      the first segment of the queue, the next bytes of the stream. */
  lemma {:induction false} FullQueueIsReadable(ws: seq<World>, i: nat, back: bool, len: nat)
    requires Run(ws) && i < |ws|
    requires var (x, y) := Ends(ws[i], back); |y.k.rcv.queue| >= y.k.cfg.rcvWnd
    ensures var (x, y) := Ends(ws[i], back);
            var m, r := NextRead(y), Engine.Recv(y.k, len);
            && (if len >= |m| then r.ret == |m| && r.data == m && (|r.k.rcv.queue| < y.k.cfg.rcvWnd ==> r.k.probe.tell)
                else r.ret == -3 && r.k == y.k)
            && (!x.k.cfg.stream ==> |y.delivered| < |x.accepted| && m == x.accepted[|y.delivered|])
            && (x.k.cfg.stream ==> y.k.rcv.queue != [] && m == y.k.rcv.queue[0].data
                                   && Concat(y.delivered) + m <= Concat(x.accepted))
  {
    hide Run;
    EndsConvey(ws, i, back);
    var (x, y) := Ends(ws[i], back);
    if x.k.cfg.stream {
      NextBytesReadable(x, y);
    } else {
      NextMessageReadable(x, y);
    }
    hide NextRead, Conveys;
    ReadOrRefuse(y, len);
  }

  /** What a read would return. */
  function NextRead(y: Node): Bytes {
    Payload(y.k.rcv.queue[..MergeCount(y.k.rcv.queue)])
  }

  lemma {:induction false} ReadOrRefuse(y: Node, len: nat)
    requires y.k.rcv.queue != [] && PeekSize(y.k.rcv.queue) == |NextRead(y)| && |y.k.rcv.queue| >= y.k.cfg.rcvWnd
    ensures var m, r := NextRead(y), Engine.Recv(y.k, len);
            if len >= |m| then r.ret == |m| && r.data == m && (|r.k.rcv.queue| < y.k.cfg.rcvWnd ==> r.k.probe.tell)
            else r.ret == -3 && r.k == y.k
  {
    hide PeekSize, MergeCount, Drain, Payload;
  }

  lemma {:induction false} NextMessageReadable(x: Node, y: Node)
    requires Conveys(x, y) && !x.k.cfg.stream && y.Received() <= x.sent && GoodConfig(y.k.cfg)
    requires |y.k.rcv.queue| >= y.k.cfg.rcvWnd
    ensures y.k.rcv.queue != [] && PeekSize(y.k.rcv.queue) == |NextRead(y)|
    ensures |y.delivered| < |x.accepted| && NextRead(y) == x.accepted[|y.delivered|]
  {
    var d, mss, queue := |y.delivered|, x.k.cfg.Mss(), y.k.rcv.queue;
    assert queue != [];
    QueueContinues(x, y);
    hide PeekSize, MergeCount, FragCount, FragsOf, Frags, Conveys, Payload;
    ReadBoundary(queue, x.accepted[d], AllFrags(x.accepted[d + 1..], mss), mss);
  }

  lemma {:induction false} NextBytesReadable(x: Node, y: Node)
    requires Conveys(x, y) && x.k.cfg.stream && y.Received() <= x.sent && y.k.rcv.queue != []
    ensures var queue := y.k.rcv.queue;
            && PeekSize(queue) == |NextRead(y)| && NextRead(y) == queue[0].data
            && Concat(y.delivered) + NextRead(y) <= Concat(x.accepted)
  {
    var queue, r := y.k.rcv.queue, |y.read|;
    assert y.Received()[r] == x.sent[r] && Frags(queue)[0] == y.Received()[r];
    assert queue[..1] == [queue[0]] && Payload([queue[0]]) == queue[0].data + Payload([]);
    var rest := x.sent[r + 1..];
    assert x.sent == y.read + [x.sent[r]] + rest;
    BytesOfAppend(y.read + [x.sent[r]], rest);
    BytesOfAppend(y.read, [x.sent[r]]);
    assert BytesOf([x.sent[r]]) == x.sent[r].data + BytesOf([]);
  }

  /** What `ikcp_recv` does with a queue whose next message is `m`, or of which a part of it is missing. */
  lemma {:induction false} RecvBy(k: Kcb, len: int)
    ensures var q, wnd, r, room := k.rcv.queue, k.cfg.rcvWnd, Engine.Recv(k, len), if len < 0 then -len else len;
            var peek, m := PeekSize(q), Payload(q[..MergeCount(q)]);
            && r.ret == (if q == [] then -1 else if peek < 0 then -2 else if peek > room then -3 else |m|)
            && (r.ret < 0 ==> r.k == k && r.data == [])
            && (r.ret >= 0 ==>
                  && r.data == m
                  && r.k == k.(rcv := r.k.rcv, probe := r.k.probe) && r.k.probe == k.probe.(tell := r.k.probe.tell)
                  && (r.k.probe.tell <==> k.probe.tell || (|q| >= wnd && |r.k.rcv.queue| < wnd)))
  {
    hide PeekSize, MergeCount, Drain, Payload;
  }

  /** What `ikcp_recv` returns, in every state of every run and for every buffer. -1: nothing is queued. -2: in
      message mode, some of the next message's fragments are missing. -3: it does not fit the buffer. Otherwise
      the next message (in stream mode the next piece) and its length; and the window will be announced again
      exactly if that had been asked for, or the queue was full and is no longer. */
  lemma {:induction false} RecvReturns(ws: seq<World>, i: nat, back: bool, len: int)
    requires Run(ws) && i < |ws|
    ensures var (x, y) := Ends(ws[i], back);
            var q, d, r, room := y.k.rcv.queue, |y.delivered|, Engine.Recv(y.k, len), if len < 0 then -len else len;
            && (q != [] && !x.k.cfg.stream ==> d < |x.accepted|)
            && var m := if q == [] then [] else if x.k.cfg.stream then q[0].data else x.accepted[d];
            && (x.k.cfg.stream ==> Concat(y.delivered) + m <= Concat(x.accepted))
            && r.ret == (if q == [] then -1
                         else if !x.k.cfg.stream && |q| < FragCount(|m|, x.k.cfg.Mss()) then -2
                         else if |m| > room then -3
                         else |m|)
            && (r.ret < 0 ==> r.k == y.k)
            && (r.ret >= 0 ==>
                  && r.data == m
                  && (r.k.probe.tell <==> y.k.probe.tell
                                          || (|q| >= y.k.cfg.rcvWnd && |r.k.rcv.queue| < y.k.cfg.rcvWnd)))
  {
    hide Run, Conveys, Engine.Recv, Node.Received, FragCount, Concat;
    EndsConvey(ws, i, back);
    var (x, y) := Ends(ws[i], back);
    RecvBy(y.k, len);
    hide PeekSize, MergeCount, Payload;
    if y.k.rcv.queue == [] {
      ConveysInOrder(x, y);
      assert Concat(y.delivered) + [] == Concat(y.delivered);
    } else if x.k.cfg.stream {
      NextBytesReadable(x, y);
    } else {
      NextMessage(x, y);
    }
  }

  lemma {:induction false} EndsConvey(ws: seq<World>, i: nat, back: bool)
    requires Run(ws) && i < |ws|
    ensures var (x, y) := Ends(ws[i], back);
            y.Received() <= x.sent && Conveys(x, y) && GoodConfig(x.k.cfg) && GoodConfig(y.k.cfg)
  {
    hide Transition, Init;
    RunKeepsFullInv(ws, i);
    hide SndInv, Good, Readable, SndOk, Covered, AcksTrue, FwdOk, BwdOk, Conveys;
  }

  /** Message mode: the next message can be read exactly if all its fragments are queued. */
  lemma {:induction false} NextMessage(x: Node, y: Node)
    requires Conveys(x, y) && !x.k.cfg.stream && y.Received() <= x.sent && y.k.rcv.queue != []
    ensures |y.delivered| < |x.accepted|
    ensures var q, m := y.k.rcv.queue, x.accepted[|y.delivered|];
            && (PeekSize(q) >= 0 <==> |q| >= FragCount(|m|, x.k.cfg.Mss()))
            && (PeekSize(q) >= 0 ==> PeekSize(q) == |m| && NextRead(y) == m)
  {
    var d, mss := |y.delivered|, x.k.cfg.Mss();
    QueueContinues(x, y);
    hide PeekSize, MergeCount, FragCount, FragsOf, Frags, Conveys, Payload;
    ReadBoundary(y.k.rcv.queue, x.accepted[d], AllFrags(x.accepted[d + 1..], mss), mss);
  }
}
