/** The engine as the C code has it: one object whose fields every call updates, with its queues in linked
    lists, a growing ACK array and a fixed datagram buffer. Each method is proved to
    compute its function of module `Engine` on the abstract value `Abs()`. */
module Endpoint {
  import opened Seqs
  import opened Serial
  import opened Wire
  import opened Engine
  import opened SenderWindow
  import opened Receiver
  import opened Invariant
  import opened Iqueue
  import opened Queues

  class Kcp {
    const conv: u32
    var mtu: Mtu
    var mss: u32
    var state: u32
    var sndUna: u32
    var sndNxt: u32
    var rcvNxt: u32
    var ssthresh: u32
    var rxRttval: i32
    var rxSrtt: i32
    var rxRto: i32
    var rxMinrto: i32
    var sndWnd: u32
    var rcvWnd: u32
    var rmtWnd: u32
    var cwnd: u32
    var askSend: bool    // the bit IKCP_ASK_SEND of `probe`
    var askTell: bool    // the bit IKCP_ASK_TELL of `probe`
    var current: u32
    var interval: u32
    var tsFlush: u32
    var xmit: u32
    var nodelay: u32
    var updated: bool
    var tsProbe: u32
    var probeWait: u32
    var deadLink: u32
    var incr: u32
    const q: Queues    // `snd_queue`, `rcv_queue`, `snd_buf`, `rcv_buf` and their counters
    var acklist: array<u32>
    var ackcount: nat
    var ackblock: nat
    var buffer: array<u8>
    var fastresend: i32
    var fastlimit: i32
    var nocwnd: bool
    var stream: bool

    // ---------- abstraction and invariant ----------

    ghost function Cfg(): Config
      reads this`mtu, this`sndWnd, this`rcvWnd, this`interval, this`nodelay, this`rxMinrto, this`fastresend,
            this`fastlimit, this`nocwnd, this`stream, this`deadLink
    {
      Config(conv, mtu, sndWnd, rcvWnd, interval, nodelay, rxMinrto, fastresend, fastlimit, nocwnd, stream, deadLink)
    }

    ghost function AbsSnd(): Snd
      reads this`sndUna, this`sndNxt, q`view
    {
      Snd(sndUna, sndNxt, q.view.sndQueue, q.view.sndBuf)
    }

    ghost function AbsRcv(): Rcv
      reads this`rcvNxt, q`view, this`ackcount, this`ackblock, this`acklist, acklist
    {
      Rcv(rcvNxt, q.view.rcvQueue, q.view.rcvBuf, Acks())
    }

    ghost function AbsRtt(): Rtt
      reads this`rxSrtt, this`rxRttval, this`rxRto
    {
      Rtt(rxSrtt, rxRttval, rxRto)
    }

    ghost function AbsCong(): Cong
      reads this`cwnd, this`ssthresh, this`incr
    {
      Cong(cwnd, ssthresh, incr)
    }

    ghost function AbsProbe(): Probe
      reads this`askSend, this`askTell, this`tsProbe, this`probeWait
    {
      Probe(askSend, askTell, tsProbe, probeWait)
    }

    ghost function AbsClock(): Clock
      reads this`current, this`tsFlush, this`updated
    {
      Clock(current, tsFlush, updated)
    }

    ghost predicate AckShape()
      reads this`ackcount, this`ackblock, this`acklist
    {
      ackcount <= ackblock && acklist.Length == 2 * ackblock
    }

    static ghost function Pairs(words: seq<u32>, n: nat): seq<Ack>
      requires 2 * n <= |words|
    {
      seq(n, i requires 0 <= i < n => Ack(words[2 * i], words[2 * i + 1]))
    }

    ghost function Acks(): seq<Ack>
      reads this`ackcount, this`ackblock, this`acklist, acklist
    {
      if AckShape() then Pairs(acklist[..], ackcount) else []
    }

    /** The value of the control block. */
    ghost function Abs(): Kcb
      reads this, acklist, q`view
    {
      Kcb(Cfg(), AbsSnd(), AbsRcv(), AbsRtt(), AbsCong(), AbsProbe(), AbsClock(), rmtWnd, xmit, state)
    }

    lemma {:induction false} NoAcks()
      ensures ackcount == 0 ==> Acks() == []
    {
    }

    lemma {:induction false} AbsIs()
      ensures Abs() == Kcb(Cfg(), AbsSnd(), AbsRcv(), AbsRtt(), AbsCong(), AbsProbe(), AbsClock(), rmtWnd, xmit, state)
    {
    }

    lemma {:induction false} ListsAre()
      ensures AbsSnd().queue == q.view.sndQueue && AbsSnd().buf == q.view.sndBuf && AbsRtt().rto == rxRto
      ensures AbsRcv().queue == q.view.rcvQueue && AbsRcv().buf == q.view.rcvBuf
    {
      hide Acks;
    }

    lemma {:induction false} CfgIs()
      ensures Cfg().mtu == mtu && Cfg().Mss() == mtu - OVERHEAD && Cfg().deadLink == deadLink
      ensures Cfg().rcvWnd == rcvWnd && Cfg().interval == interval
      ensures AbsClock().current == current && AbsClock().updated == updated && AbsRcv().acks == Acks()
    {
    }

    /** What the representation adds to the value: the array and the buffer are large enough, and they are
        different objects. */
    ghost predicate Shape()
      reads this
    {
      && AckShape()
      && mss == mtu - OVERHEAD
      && buffer.Length == 3 * (mtu + OVERHEAD)
      && (buffer as object) != (acklist as object)
    }

    /** Holds between any two calls of the API. */
    ghost predicate Valid()
      reads this, acklist, q, q.mem, q.Foot()
    {
      Shape() && Inv(Abs()) && q.Valid()
    }

    // ---------- setup ----------

    /** `ikcp_create`. */
    constructor (conv: u32)
      ensures Valid() && fresh(acklist) && fresh(buffer) && fresh(q) && fresh(q.mem) && fresh(q.Foot())
      ensures Abs() == Create(Config(conv, MTU_DEF, WND_SND, WND_RCV, INTERVAL, 0, RTO_MIN, 0, FASTACK_LIMIT, false,
                                     false, DEADLINK))
      ensures Defaults()
    {
      hide Inv, Queues.Valid, Acks, AbsSnd, AbsRcv, AbsRtt, AbsCong, AbsProbe, AbsClock, Abs, Create;
      this.conv := conv;
      mtu, mss := MTU_DEF, MTU_DEF - OVERHEAD;
      sndUna, sndNxt, rcvNxt := 0, 0, 0;
      tsProbe, probeWait, askSend, askTell := 0, 0, false, false;
      sndWnd, rcvWnd, rmtWnd := WND_SND, WND_RCV, WND_RCV;
      cwnd, incr, ssthresh := 0, 0, THRESH_INIT;
      state, xmit, deadLink := 0, 0, DEADLINK;
      ackcount, ackblock := 0, 0;
      rxSrtt, rxRttval, rxRto, rxMinrto := 0, 0, RTO_DEF, RTO_MIN;
      current, interval, tsFlush, updated := 0, INTERVAL, INTERVAL, false;
      nodelay, fastresend, fastlimit, nocwnd, stream := 0, 0, FASTACK_LIMIT, false, false;
      acklist := new u32[0];
      buffer := new u8[3 * (MTU_DEF + OVERHEAD)];
      q := new Queues();
      new;
      FreshIs();
      CreateInv(Cfg());
    }

    /** The defaults of `ikcp_create`. */
    ghost predicate Defaults()
      reads this, q`view
    {
      && mtu == 1400 && mss == 1376 && sndWnd == 32 && rcvWnd == 128 && rmtWnd == 128
      && cwnd == 0 && incr == 0 && ssthresh == 2 && state == 0 && xmit == 0 && deadLink == 20
      && rxSrtt == 0 && rxRttval == 0 && rxRto == 200 && rxMinrto == 100
      && current == 0 && interval == 100 && tsFlush == 100 && !updated
      && sndUna == 0 && sndNxt == 0 && rcvNxt == 0 && tsProbe == 0 && probeWait == 0 && !askSend && !askTell
      && nodelay == 0 && fastresend == 0 && fastlimit == 5 && !nocwnd && !stream
      && ackcount == 0 && ackblock == 0 && q.view == View([], [], [], [])
    }

    lemma {:induction false} FreshIs()
      requires Defaults()
      ensures Abs() == Create(Config(conv, MTU_DEF, WND_SND, WND_RCV, INTERVAL, 0, RTO_MIN, 0, FASTACK_LIMIT, false,
                                     false, DEADLINK))
    {
      NoAcks();
      hide Acks;
    }

    method SetMtuParts(mtu: i32, room: bool) returns (ret: int)
      requires 3 * (mtu + OVERHEAD) < TWO32
      modifies this`mtu, this`mss, this`buffer
      ensures ret == if mtu < 50 then -1 else if room then 0 else -2
      ensures if ret == 0 then this.mtu == mtu && mss == mtu - OVERHEAD && fresh(buffer)
              && buffer.Length == 3 * (mtu + OVERHEAD)
              else this.mtu == old(this.mtu) && mss == old(mss) && buffer == old(buffer)
    {
      if mtu < 50 || mtu < OVERHEAD {
        return -1;
      }
      if !room {
        return -2;
      }
      this.mtu, mss := mtu, mtu - OVERHEAD;
      buffer := new u8[3 * (mtu + OVERHEAD)];
      ret := 0;
    }

    /** `ikcp_setmtu`, before anything was sent; `room` if the allocation succeeds. */
    method SetMtu(mtu: i32, room: bool) returns (ret: int)
      requires Valid() && q.view.sndQueue == [] && q.view.sndBuf == [] && 3 * (mtu + OVERHEAD) < TWO32
      modifies this`mtu, this`mss, this`buffer
      ensures Valid() && (buffer == old(buffer) || fresh(buffer))
      ensures ret == if mtu < 50 then -1 else if room then 0 else -2
      ensures if ret == 0 then mtu >= 50 && mss == mtu - 24 && Abs() == old(Abs()).(cfg := old(Cfg()).(mtu := mtu))
              else Abs() == old(Abs())
    {
      hide Inv, Acks, AckShape, AbsSnd, AbsRcv, AbsRtt, AbsCong, AbsProbe, AbsClock, Queues.Valid;
      ghost var k, foot := Abs(), q.Foot();
      ListsAre();
      if mtu >= 50 {
        MtuInv(k, mtu);
      }
      ret := SetMtuParts(mtu, room);
      assert q.Foot() == foot;
      assert Abs() == if ret == 0 then k.(cfg := k.cfg.(mtu := mtu)) else k;
    }

    /** `ikcp_wndsize`, before anything was received. */
    method WndSize(sndwnd: i32, rcvwnd: i32)
      requires Valid() && q.view.rcvQueue == [] && q.view.rcvBuf == []
      modifies this`sndWnd, this`rcvWnd
      ensures Valid() && Abs() == old(Abs()).(cfg := WithWindows(old(Cfg()), sndwnd, rcvwnd))
      ensures if sndwnd > 0 then sndWnd == sndwnd else sndWnd == old(sndWnd)
      ensures rcvWnd == if rcvwnd <= 0 then old(rcvWnd) else if rcvwnd < 128 then 128 else rcvwnd
    {
      hide Inv, Acks, AckShape, AbsSnd, AbsRcv, AbsRtt, AbsCong, AbsProbe, AbsClock, Queues.Valid;
      ghost var foot := q.Foot();
      ListsAre();
      WindowsInv(Abs(), sndwnd, rcvwnd);
      if sndwnd > 0 {
        sndWnd := sndwnd;
      }
      if rcvwnd > 0 {
        rcvWnd := Max(rcvwnd, WND_RCV);
      }
      assert q.Foot() == foot;
    }

    /** `ikcp_nodelay`, before any round trip was measured. */
    method NoDelay(nodelay: i32, interval: i32, resend: i32, nc: i32)
      requires Valid() && RTO_MIN <= rxRto
      modifies this`nodelay, this`rxMinrto, this`interval, this`fastresend, this`nocwnd
      ensures Valid() && Abs() == old(Abs()).(cfg := WithNoDelay(old(Cfg()), nodelay, interval, resend, nc))
      ensures nodelay < 0 ==> this.nodelay == old(this.nodelay) && rxMinrto == old(rxMinrto)
      ensures nodelay == 0 ==> this.nodelay == 0 && rxMinrto == 100
      ensures nodelay > 0 ==> this.nodelay == nodelay && rxMinrto == 30
      ensures interval < 0 ==> this.interval == old(this.interval)
      ensures interval >= 0 ==> 10 <= this.interval <= 5000 && (10 <= interval <= 5000 ==> this.interval == interval)
      ensures interval > 5000 ==> this.interval == 5000
      ensures 0 <= interval < 10 ==> this.interval == 10
      ensures fastresend == (if resend < 0 then old(fastresend) else resend) && (nc < 0 ==> nocwnd == old(nocwnd))
      ensures nc >= 0 ==> (nocwnd <==> nc != 0)
    {
      hide Inv, WithNoDelay, Cfg, Acks, AckShape, AbsSnd, AbsRcv, AbsRtt, AbsCong, AbsProbe, AbsClock, Queues.Valid;
      ghost var foot := q.Foot();
      ListsAre();
      NoDelayInv(Abs(), nodelay, interval, resend, nc);
      NoDelayParts(nodelay, interval, resend, nc);
      assert q.Foot() == foot;
    }

    method NoDelayParts(nodelay: i32, interval: i32, resend: i32, nc: i32)
      modifies this`nodelay, this`rxMinrto, this`interval, this`fastresend, this`nocwnd
      ensures Cfg() == WithNoDelay(old(Cfg()), nodelay, interval, resend, nc)
      ensures nodelay < 0 ==> this.nodelay == old(this.nodelay) && rxMinrto == old(rxMinrto)
      ensures nodelay == 0 ==> this.nodelay == 0 && rxMinrto == 100
      ensures nodelay > 0 ==> this.nodelay == nodelay && rxMinrto == 30
      ensures interval < 0 ==> this.interval == old(this.interval)
      ensures interval >= 0 ==> 10 <= this.interval <= 5000 && (10 <= interval <= 5000 ==> this.interval == interval)
      ensures interval > 5000 ==> this.interval == 5000
      ensures 0 <= interval < 10 ==> this.interval == 10
      ensures fastresend == (if resend < 0 then old(fastresend) else resend) && (nc < 0 ==> nocwnd == old(nocwnd))
      ensures nc >= 0 ==> (nocwnd <==> nc != 0)
    {
      if nodelay >= 0 {
        this.nodelay := nodelay;
        rxMinrto := if nodelay != 0 then RTO_NDL else RTO_MIN;
      }
      if interval >= 0 {
        this.interval := if interval > 5000 then 5000 else if interval < 10 then 10 else interval;
      }
      if resend >= 0 {
        fastresend := resend;
      }
      if nc >= 0 {
        nocwnd := nc != 0;
      }
    }

    // ---------- ikcp_send ----------

    method SendParts(data: Bytes) returns (ret: int)
      requires mss > 0 && q.Valid()
      modifies q, q.mem, q.Foot()
      ensures q.Valid() && fresh(q.Foot() - old(q.Foot()))
      ensures var v := old(q.view);
              && q.view == v.(sndQueue := Enqueue(v.sndQueue, mss, data, stream).0)
              && ret == Enqueue(v.sndQueue, mss, data, stream).1
    {
      hide Cut, Wrap, FragCount, Fill, TopUp, Queues.Valid;
      FillOff(q.view.sndQueue, mss, data);
      var rest := data;
      ret := 0;
      if stream {
        rest := q.FillLast(data, mss);
        if rest == [] {
          return;
        }
      }
      var count := FragCount(|rest|, mss);
      if count >= WND_RCV {
        return -2;
      }
      ghost var made := q.AppendAll(rest, mss, count, stream);
    }

    /** `ikcp_send`. */
    method Send(data: Bytes) returns (ret: int)
      requires Valid()
      modifies q, q.mem, q.Foot()
      ensures Valid() && fresh(q.Foot() - old(q.Foot()))
      ensures var r := Engine.Send(old(Abs()), data); Abs() == r.0 && ret == r.1
    {
      hide Inv, GoodConfig, Queues.Valid;
      SendInv(Abs(), data);
      ghost var r := Engine.Send(Abs(), data);
      hide Enqueue, Wrap;
      ret := SendParts(data);
      assert Abs() == r.0 && ret == r.1;
    }

    // ---------- ikcp_recv ----------

    /** `ikcp_peeksize`. */
    method PeekSize() returns (size: int)
      requires q.Valid()
      ensures size == Engine.PeekSize(q.view.rcvQueue)
    {
      size := q.PeekSize();
    }

    /** The receiving half without the ACK list. */
    ghost function Incoming(): Rcv
      reads this`rcvNxt, q`view
    {
      Rcv(rcvNxt, q.view.rcvQueue, q.view.rcvBuf, [])
    }

    method TakeSegments(peek: bool) returns (data: Bytes)
      requires q.Valid()
      modifies this`rcvNxt, q, q.mem, q.Foot()
      ensures q.Valid() && fresh(q.Foot() - old(q.Foot()))
      ensures Incoming() == Read(old(Incoming()), rcvWnd, peek) && SameSending(old(q.view), q.view)
      ensures data == Payload(old(q.view).rcvQueue[..MergeCount(old(q.view).rcvQueue)])
    {
      hide Wrap, MergeCount, Payload, Drain, Queues.Valid;
      ghost var n, moved;
      data, n := q.Merge(peek);
      rcvNxt, moved := q.MoveAvailable(rcvNxt, rcvWnd);
    }

    static ghost predicate SameSending(v: View, v': View) {
      v'.sndQueue == v.sndQueue && v'.sndBuf == v.sndBuf
    }

    static ghost predicate SameReceiving(v: View, v': View) {
      v'.rcvQueue == v.rcvQueue && v'.rcvBuf == v.rcvBuf
    }

    static lemma {:induction false} ReadAcks(rcv: Rcv, wnd: u32, peek: bool)
      ensures Read(rcv, wnd, peek) == Read(rcv.(acks := []), wnd, peek).(acks := rcv.acks)
    {
      hide DrainCount, MergeCount;
    }

    /** The part of `ikcp_recv` after its checks. */
    method TakeMessage(peek: bool) returns (data: Bytes)
      requires q.Valid()
      modifies this`rcvNxt, this`askTell, q, q.mem, q.Foot()
      ensures q.Valid() && fresh(q.Foot() - old(q.Foot()))
      ensures AbsRcv() == Read(old(AbsRcv()), rcvWnd, peek) && SameSending(old(q.view), q.view)
      ensures data == Payload(old(q.view).rcvQueue[..MergeCount(old(q.view).rcvQueue)])
      ensures askTell == (old(askTell) || (|old(q.view).rcvQueue| >= rcvWnd && |q.view.rcvQueue| < rcvWnd))
    {
      hide Wrap, Acks, MergeCount, Payload, Read, Queues.Valid;
      ReadAcks(AbsRcv(), rcvWnd, peek);
      q.Counters();
      var recover := q.nrcvQue >= rcvWnd;
      data := TakeSegments(peek);
      q.Counters();
      if q.nrcvQue < rcvWnd && recover {
        askTell := true;
      }
    }

    method RecvParts(len: int) returns (ret: int, data: Bytes)
      requires q.Valid()
      modifies this`rcvNxt, this`askTell, q, q.mem, q.Foot()
      ensures q.Valid() && fresh(q.Foot() - old(q.Foot())) && SameSending(old(q.view), q.view)
      ensures var r := Receive(old(AbsRcv()), rcvWnd, len);
              AbsRcv() == r.rcv && ret == r.ret && data == r.data && askTell == (old(askTell) || r.recovered)
    {
      hide Wrap, Acks, Engine.PeekSize, MergeCount, Payload, Read, Queues.Valid;
      PeekIsPayload(q.view.rcvQueue);
      data := [];
      var empty := q.NothingToRead();
      if empty {
        return -1, [];
      }
      var room := if len < 0 then -len else len;
      ret := PeekSize();
      if ret < 0 {
        return -2, [];
      }
      if ret > room {
        return -3, [];
      }
      data := TakeMessage(len < 0);
    }

    /** `ikcp_recv`. */
    method Recv(len: int) returns (ret: int, data: Bytes)
      requires Valid()
      modifies this`rcvNxt, this`askTell, q, q.mem, q.Foot()
      ensures Valid() && fresh(q.Foot() - old(q.Foot()))
      ensures var r := Engine.Recv(old(Abs()), len); Abs() == r.k && ret == r.ret && data == r.data
    {
      hide Inv, Receive, Wrap, Acks, Queues.Valid;
      RecvInv(Abs(), len);
      ghost var r := Engine.Recv(Abs(), len);
      ret, data := RecvParts(len);
      assert Abs() == r.k;
    }

    // ---------- ikcp_input ----------

    /** The ACK array is in order. */
    ghost predicate Books()
      reads this`ackcount, this`ackblock, this`acklist, this`buffer
    {
      AckShape() && (buffer as object) != (acklist as object)
    }

    /** `ikcp_shrink_buf`. */
    method ShrinkBuf()
      requires q.Valid()
      modifies this`sndUna
      ensures AbsSnd() == Shrink(old(AbsSnd()))
    {
      sndUna := q.FirstUnacked(sndNxt);
    }

    /** `ikcp_parse_ack`. */
    method ParseAck(sn: u32)
      requires q.Valid()
      modifies q, q.mem, q.Foot()
      ensures q.Valid() && fresh(q.Foot() - old(q.Foot())) && SameReceiving(old(q.view), q.view)
      ensures AbsSnd() == old(if InFlight(AbsSnd(), sn) then AbsSnd().(buf := RemoveSn(AbsSnd().buf, sn)) else AbsSnd())
    {
      hide Wrap, TimeDiff, RemoveSn, Queues.Valid;
      if TimeDiff(sn, sndUna) < 0 || TimeDiff(sn, sndNxt) >= 0 {
        return;
      }
      ghost var k := q.ParseAck(sn);
    }

    /** `ikcp_parse_fastack`. */
    method ParseFastack(sn: u32)
      requires q.Valid()
      modifies q, q.mem, q.Foot()
      ensures q.Valid() && fresh(q.Foot() - old(q.Foot())) && SameReceiving(old(q.view), q.view)
      ensures AbsSnd() == TakeFast(old(AbsSnd()), sn)
    {
      hide Wrap, TimeDiff, BumpFast, Queues.Valid;
      if TimeDiff(sn, sndUna) < 0 || TimeDiff(sn, sndNxt) >= 0 {
        return;
      }
      q.ParseFastack(sn);
    }

    /** `ikcp_update_ack`. */
    method UpdateAck(rtt: i32)
      modifies this`rxSrtt, this`rxRttval, this`rxRto
      ensures AbsRtt() == UpdateRtt(old(AbsRtt()), Cfg(), rtt)
    {
      hide Wrap, TruncDiv;
      if rxSrtt == 0 {
        rxSrtt := rtt;
        rxRttval := TruncDiv(rtt, 2);
      } else {
        var delta := rtt - rxSrtt;
        if delta < 0 {
          delta := -delta;
        }
        rxRttval := Signed(Wrap(TruncDiv(Signed(Wrap(3 * rxRttval)) + delta, 4)));
        rxSrtt := TruncDiv(Signed(Wrap(7 * rxSrtt + rtt)), 8);
        if rxSrtt < 1 {
          rxSrtt := 1;
        }
      }
      var rto := Wrap(rxSrtt + Max(interval, Wrap(4 * rxRttval)));
      rxRto := Signed(Min(Max(Wrap(rxMinrto), rto), RTO_MAX));
    }

    static lemma {:induction false} PairsSnoc(a: seq<u32>, b: seq<u32>, n: nat, sn: u32, ts: u32)
      requires 2 * n <= |a| && 2 * n + 2 <= |b| && a[..2 * n] == b[..2 * n]
      requires b[2 * n] == sn && b[2 * n + 1] == ts
      ensures Pairs(b, n + 1) == Pairs(a, n) + [Ack(sn, ts)]
    {
      forall i | 0 <= i < 2 * n ensures a[i] == b[i] {
        assert a[..2 * n][i] == b[..2 * n][i];
      }
    }

    /** Regrowth of the ACK array: the smallest power of two from 8 that is large enough. */
    method GrowAcks(newsize: nat)
      requires AckShape() && newsize > ackblock
      modifies this`acklist, this`ackblock
      ensures AckShape() && fresh(acklist) && ackblock >= newsize
      ensures acklist[..2 * ackcount] == old(acklist[..2 * ackcount])
    {
      var newblock := 8;
      while newblock < newsize
        invariant newblock > 0
      {
        newblock := 2 * newblock;
      }
      var words := new u32[2 * newblock];
      var list := acklist;
      var x := 0;
      while x < ackcount
        invariant 0 <= x <= ackcount && acklist == list
        invariant words[..2 * x] == list[..2 * x]
        modifies words
      {
        words[2 * x] := list[2 * x];
        words[2 * x + 1] := list[2 * x + 1];
        x := x + 1;
      }
      acklist := words;
      ackblock := newblock;
    }

    /** `ikcp_ack_push`. */
    method AckPush(sn: u32, ts: u32)
      requires Books()
      modifies this`acklist, this`ackblock, this`ackcount, acklist
      ensures Books() && (acklist == old(acklist) || fresh(acklist))
      ensures Acks() == old(Acks()) + [Ack(sn, ts)]
    {
      ghost var a, n := acklist[..], ackcount;
      if ackcount + 1 > ackblock {
        GrowAcks(ackcount + 1);
      }
      assert acklist[..2 * n] == a[..2 * n];
      acklist[2 * ackcount] := sn;
      acklist[2 * ackcount + 1] := ts;
      ackcount := ackcount + 1;
      PairsSnoc(a, acklist[..], n, sn, ts);
    }

    /** A segment is made of the data and given to `ikcp_parse_data`. */
    method TakeNew(s: Segment)
      requires q.Valid()
      modifies this`rcvNxt, q, q.mem, q.Foot()
      ensures q.Valid() && fresh(q.Foot() - old(q.Foot())) && SameSending(old(q.view), q.view)
      ensures Incoming() == TakeData(old(Incoming()), rcvWnd, s)
    {
      hide TakeData, Queues.Valid, Queues.Holding;
      var seg := q.MakeSegment(s);
      rcvNxt := q.ParseData(seg, rcvNxt, rcvWnd);
    }

    /** A data segment is acknowledged, then taken if wanted. */
    method TakeIncoming(s: Segment)
      requires Books() && q.Valid()
      modifies this`acklist, this`ackblock, this`ackcount, acklist, this`rcvNxt, q, q.mem, q.Foot()
      ensures Books() && (acklist == old(acklist) || fresh(acklist))
      ensures q.Valid() && fresh(q.Foot() - old(q.Foot())) && SameSending(old(q.view), q.view)
      ensures AbsRcv() == TakePush(old(AbsRcv()), rcvWnd, s)
    {
      hide TakeData, Acks, Queues.Valid, TimeDiff;
      TakeDataAcks(AbsRcv(), AbsRcv().acks + [Ack(s.sn, s.ts)], rcvWnd, s);
      if TimeDiff(s.sn, Wrap(rcvNxt + rcvWnd)) < 0 {
        AckPush(s.sn, s.ts);
        if TimeDiff(s.sn, rcvNxt) >= 0 {
          TakeNew(s);
        }
      }
    }

    /** One turn of the loop of `ikcp_input` on the receiving side. */
    method TakeCommand(s: Segment)
      requires Books() && q.Valid()
      modifies this`acklist, this`ackblock, this`ackcount, acklist, this`askTell, this`rcvNxt, q, q.mem, q.Foot()
      ensures Books() && (acklist == old(acklist) || fresh(acklist))
      ensures q.Valid() && fresh(q.Foot() - old(q.Foot())) && SameSending(old(q.view), q.view)
      ensures AbsRcv() == RcvStep(old(AbsRcv()), rcvWnd, s)
      ensures askTell == (old(askTell) || s.cmd == CMD_WASK)
    {
      hide TakePush, Acks, AckShape, Queues.Valid;
      if s.cmd == CMD_PUSH {
        TakeIncoming(s);
      } else if s.cmd == CMD_WASK {
        askTell := true;
      }
    }

    static lemma {:induction false} TakeDataAcks(rcv: Rcv, acks: seq<Ack>, wnd: u32, s: Segment)
      ensures TakeData(rcv.(acks := acks), wnd, s) == TakeData(rcv.(acks := []), wnd, s).(acks := acks)
    {
      hide DrainCount, Insert, TimeDiff;
    }

    /** The cumulative acknowledgement of a segment. */
    method DropUpTo(una: u32)
      requires q.Valid()
      modifies this`sndUna, q, q.mem, q.Foot()
      ensures q.Valid() && fresh(q.Foot() - old(q.Foot())) && SameReceiving(old(q.view), q.view)
      ensures AbsSnd() == TakeUna(old(AbsSnd()), una)
    {
      hide DropAcked, TimeDiff, Wrap, Queues.Valid;
      ghost var dropped := q.ParseUna(una);
      ShrinkBuf();
    }

    /** The selective acknowledgement of a segment. */
    method DropOne(sn: u32)
      requires q.Valid()
      modifies this`sndUna, q, q.mem, q.Foot()
      ensures q.Valid() && fresh(q.Foot() - old(q.Foot())) && SameReceiving(old(q.view), q.view)
      ensures AbsSnd() == TakeAck(old(AbsSnd()), sn)
    {
      hide RemoveSn, InFlight, TimeDiff, Wrap, Queues.Valid;
      ParseAck(sn);
      ShrinkBuf();
    }

    /** One turn of the loop of `ikcp_input` on the sending side. */
    method TakeOutgoing(s: Segment)
      requires q.Valid()
      modifies this`sndUna, this`rxSrtt, this`rxRttval, this`rxRto, this`rmtWnd, q, q.mem, q.Foot()
      ensures q.Valid() && fresh(q.Foot() - old(q.Foot())) && SameReceiving(old(q.view), q.view)
      ensures rmtWnd == s.wnd
      ensures AbsSnd() == SndStep(old(AbsSnd()), s) && AbsRtt() == RttStep(old(AbsRtt()), Cfg(), current, s)
    {
      hide TakeUna, TakeAck, UpdateRtt, TimeDiff, Wrap, AbsSnd, AbsRtt, Cfg, Queues.Valid;
      rmtWnd := s.wnd;
      DropUpTo(s.una);
      if s.cmd == CMD_ACK {
        if TimeDiff(current, s.ts) >= 0 {
          UpdateAck(TimeDiff(current, s.ts));
        }
        DropOne(s.sn);
      }
    }

    method TakeBoth(s: Segment)
      requires Books() && q.Valid()
      modifies this`sndUna, this`rxSrtt, this`rxRttval, this`rxRto, this`rmtWnd, q, q.mem, q.Foot()
      modifies this`acklist, this`ackblock, this`ackcount, acklist, this`askTell, this`rcvNxt
      ensures Books() && (acklist == old(acklist) || fresh(acklist)) && q.Valid() && fresh(q.Foot() - old(q.Foot()))
      ensures AbsSnd() == SndStep(old(AbsSnd()), s)
      ensures AbsRcv() == RcvStep(old(AbsRcv()), rcvWnd, s)
      ensures AbsRtt() == RttStep(old(AbsRtt()), Cfg(), current, s)
      ensures askTell == (old(askTell) || s.cmd == CMD_WASK) && rmtWnd == s.wnd
    {
      hide SndStep, RttStep, RcvStep, Acks, AckShape, AbsRtt, Cfg, Queues.Valid;
      TakeOutgoing(s);
      TakeCommand(s);
    }

    /** One turn of the loop of `ikcp_input`, for a segment that passed its checks. */
    method TakeSegment(s: Segment)
      requires Books() && q.Valid()
      modifies this`sndUna, this`rxSrtt, this`rxRttval, this`rxRto, this`rmtWnd, q, q.mem, q.Foot()
      modifies this`acklist, this`ackblock, this`ackcount, acklist, this`askTell, this`rcvNxt
      ensures Books() && (acklist == old(acklist) || fresh(acklist)) && q.Valid() && fresh(q.Foot() - old(q.Foot()))
      ensures Abs() == Step(old(Abs()), s)
    {
      hide Step, SndStep, RttStep, RcvStep, Books, AbsSnd, AbsRcv, AbsRtt, AbsCong, AbsClock, Cfg, Abs, Queues.Valid;
      AbsIs();
      CfgIs();
      TakeBoth(s);
      AbsIs();
      CfgIs();
      StepParts(old(Abs()), s, Abs());
    }

    static lemma {:induction false} StepParts(k: Kcb, s: Segment, k': Kcb)
      requires k'.cfg == k.cfg && k'.cong == k.cong && k'.clock == k.clock && k'.xmit == k.xmit && k'.state == k.state
      requires k'.snd == SndStep(k.snd, s) && k'.rcv == RcvStep(k.rcv, k.cfg.rcvWnd, s)
      requires k'.rtt == RttStep(k.rtt, k.cfg, k.clock.current, s) && k'.rmtWnd == s.wnd
      requires k'.probe == k.probe.(tell := k.probe.tell || s.cmd == CMD_WASK)
      ensures k' == Step(k, s)
    {
      hide SndStep, RttStep, RcvStep;
    }

    static lemma {:induction false} ParseOn(conv: u32, rest: Bytes)
      requires |rest| >= OVERHEAD
      ensures var h := DecodeHead(rest);
              if h.conv != conv then Parse(conv, rest) == Parsed([], -1)
              else if |rest| - OVERHEAD < h.len || Signed(h.len) < 0 then Parse(conv, rest) == Parsed([], -2)
              else if !KnownCmd(h.cmd) then Parse(conv, rest) == Parsed([], -3)
              else var p := Parse(conv, rest[24 + h.len..]);
                   Parse(conv, rest) == Parsed([FromHead(h, rest[24..24 + h.len])] + p.segs, p.ret)
    {
      hide DecodeHead;
    }

    static lemma {:induction false} StepsSnoc(k: Kcb, segs: seq<Segment>, s: Segment)
      ensures Steps(k, segs + [s]) == Step(Steps(k, segs), s)
      ensures ScanAcks(segs + [s]) == if s.cmd == CMD_ACK then ScanAck(ScanAcks(segs), s.sn) else ScanAcks(segs)
    {
      assert (segs + [s])[..|segs|] == segs;
    }

    /** The loop of `ikcp_input`; `segs` are the segments it accepted. */
    method TakeAll(data: Bytes) returns (ret: int, flag: bool, maxack: u32, ghost segs: seq<Segment>)
      requires Books() && q.Valid()
      modifies this`sndUna, this`rxSrtt, this`rxRttval, this`rxRto, this`rmtWnd, q, q.mem, q.Foot()
      modifies this`acklist, this`ackblock, this`ackcount, acklist, this`askTell, this`rcvNxt
      ensures Books() && (acklist == old(acklist) || fresh(acklist)) && q.Valid() && fresh(q.Foot() - old(q.Foot()))
      ensures Parse(conv, data) == Parsed(segs, ret)
      ensures Abs() == Steps(old(Abs()), segs) && AckScan(flag, maxack) == ScanAcks(segs)
    {
      hide Parse, Step, Steps, ScanAcks, DecodeHead, Acks, AckShape, TimeDiff;
      hide Abs, Queues.Valid;
      ghost var k0 := Abs();
      flag, maxack := false, 0;
      segs := [];
      StepsNone(k0);
      var rest := data;
      ParseShort(conv, rest);
      while |rest| >= OVERHEAD
        invariant Books() && (acklist == old(acklist) || fresh(acklist)) && q.Valid() && fresh(q.Foot() - old(q.Foot()))
        invariant Abs() == Steps(k0, segs) && AckScan(flag, maxack) == ScanAcks(segs)
        invariant Parse(conv, data) == Parsed(segs + Parse(conv, rest).segs, Parse(conv, rest).ret)
        decreases |rest|
      {
        ParseOn(conv, rest);
        var h := DecodeHead(rest);
        if h.conv != conv {
          return -1, flag, maxack, segs;
        }
        if |rest| - OVERHEAD < h.len || Signed(h.len) < 0 {
          return -2, flag, maxack, segs;
        }
        if !KnownCmd(h.cmd) {
          return -3, flag, maxack, segs;
        }
        var s := FromHead(h, rest[24..24 + h.len]);
        rest := rest[24 + h.len..];
        TakeSegment(s);
        if s.cmd == CMD_ACK {
          if !flag {
            flag, maxack := true, s.sn;
          } else if TimeDiff(s.sn, maxack) > 0 {
            maxack := s.sn;
          }
        }
        StepsSnoc(k0, segs, s);
        Assoc(segs, [s], Parse(conv, rest).segs);
        segs := segs + [s];
      }
      ParseShort(conv, rest);
      ret := 0;
    }

    static lemma {:induction false} StepsNone(k: Kcb)
      ensures Steps(k, []) == k && ScanAcks([]) == AckScan(false, 0)
    {
    }

    static lemma {:induction false} ParseShort(conv: u32, rest: Bytes)
      ensures |rest| < OVERHEAD ==> Parse(conv, rest) == Parsed([], 0)
      ensures forall p: seq<Segment> :: [] + p == p && p + [] == p
    {
    }

    /** Growth of the congestion window. */
    method GrowWindow()
      requires mss > 0
      modifies this`cwnd, this`incr
      ensures AbsCong() == Grow(old(AbsCong()), rmtWnd, mss)
    {
      hide Wrap, Mul, Div;
      if cwnd < rmtWnd {
        if cwnd < ssthresh {
          cwnd := Wrap(cwnd + 1);
          incr := Wrap(incr + mss);
        } else {
          if incr < mss {
            incr := mss;
          }
          incr := Wrap(incr + Div(Mul(mss, mss), incr) + mss / 16);
          if Mul(Wrap(cwnd + 1), mss) <= incr {
            cwnd := Div(Wrap(incr + mss - 1), mss);
          }
        }
        if cwnd > rmtWnd {
          cwnd := rmtWnd;
          incr := Mul(rmtWnd, mss);
        }
      }
    }

    /** What `ikcp_input` does after its loop ended without an error. */
    method FinishInput(prevUna: u32, flag: bool, maxack: u32)
      requires q.Valid() && mss == Cfg().Mss()
      modifies this`cwnd, this`incr, q, q.mem, q.Foot()
      ensures q.Valid() && fresh(q.Foot() - old(q.Foot()))
      ensures Abs() == Settle(old(Abs()), prevUna, AckScan(flag, maxack))
    {
      hide Wrap, TakeFast, Grow, TimeDiff, Acks, AbsRtt, AbsProbe, AbsClock, Queues.Valid;
      if flag {
        ParseFastack(maxack);
      }
      if TimeDiff(sndUna, prevUna) > 0 {
        GrowWindow();
      }
    }

    /** `ikcp_input`. */
    method Input(data: Bytes) returns (ret: int)
      requires Valid()
      modifies this`sndUna, this`rxSrtt, this`rxRttval, this`rxRto, this`rmtWnd, q, q.mem, q.Foot()
      modifies this`acklist, this`ackblock, this`ackcount, acklist, this`askTell, this`rcvNxt, this`cwnd, this`incr
      ensures Valid() && (acklist == old(acklist) || fresh(acklist)) && fresh(q.Foot() - old(q.Foot()))
      ensures var r := Engine.Input(old(Abs()), data); Abs() == r.0 && ret == r.1
    {
      hide Inv, Parse, Steps, ScanAcks, Settle, Acks, Wrap, AbsRtt, AbsProbe, AbsClock, AbsCong, Queues.Valid;
      InputInv(Abs(), data);
      ghost var r := Engine.Input(Abs(), data);
      var prevUna := sndUna;
      if |data| < OVERHEAD {
        return -1;
      }
      var flag, maxack;
      ghost var segs;
      ret, flag, maxack, segs := TakeAll(data);
      if ret == 0 {
        FinishInput(prevUna, flag, maxack);
      }
      assert Abs() == r.0;
    }

    // ---------- ikcp_flush: writing datagrams ----------

    static method Encode8u(p: array<u8>, i: nat, c: u32) returns (j: nat)
      requires i < p.Length
      modifies p
      ensures j == i + 1 && p[..j] == old(p[..i]) + [c % 0x100]
    {
      p[i] := c % 0x100;
      j := i + 1;
      assert p[..i] == old(p[..i]);
    }

    static method Encode16u(p: array<u8>, i: nat, w: u32) returns (j: nat)
      requires i + 2 <= p.Length
      modifies p
      ensures j == i + 2 && p[..j] == old(p[..i]) + Encode16(w)
    {
      j := Encode8u(p, i, w % 0x100);
      j := Encode8u(p, j, w / 0x100);
    }

    static method Encode32u(p: array<u8>, i: nat, l: u32) returns (j: nat)
      requires i + 4 <= p.Length
      modifies p
      ensures j == i + 4 && p[..j] == old(p[..i]) + Encode32(l)
    {
      j := Encode8u(p, i, l);
      j := Encode8u(p, j, l / 0x100);
      j := Encode8u(p, j, l / 0x1_0000);
      j := Encode8u(p, j, l / 0x100_0000);
    }

    /** `ikcp_encode_seg`. */
    static method EncodeSeg(p: array<u8>, i: nat, s: Segment) returns (j: nat)
      requires i + 24 <= p.Length
      modifies p
      ensures j == i + 24 && p[..j] == old(p[..i]) + EncodeHead(s)
    {
      hide Encode16, Encode32;
      ghost var b := p[..i];
      j := Encode32u(p, i, s.conv);
      j := Encode8u(p, j, s.cmd);
      j := Encode8u(p, j, s.frg);
      j := Encode16u(p, j, s.wnd);
      ghost var h := p[..j];
      assert h == b + (Encode32(s.conv) + [s.cmd % 0x100, s.frg % 0x100] + Encode16(s.wnd));
      j := Encode32u(p, j, s.ts);
      j := Encode32u(p, j, s.sn);
      j := Encode32u(p, j, s.una);
      j := Encode32u(p, j, Wrap(|s.data|));
      assert p[..j] == h + EncodeTail(s);
    }

    static method CopyData(p: array<u8>, i: nat, data: Bytes) returns (j: nat)
      requires i + |data| <= p.Length
      modifies p
      ensures j == i + |data| && p[..j] == old(p[..i]) + data
    {
      forall k | 0 <= k < |data| {
        p[i + k] := data[k];
      }
      j := i + |data|;
      assert p[..i] == old(p[..i]);
      assert p[i..j] == data;
      assert p[..j] == p[..i] + p[i..j];
    }

    /** The buffer holds the open datagram and `out` the closed ones. */
    ghost predicate Packed(ptr: nat, out: seq<Bytes>, pk: Packing)
      reads this`mtu, this`buffer, buffer
    {
      && ptr <= mtu <= buffer.Length
      && buffer[..ptr] == EncodeAll(pk.open)
      && out == EncodeGroups(pk.done)
    }

    static lemma {:induction false} OpenIsEmpty(open: seq<Segment>)
      ensures open == [] <==> |EncodeAll(open)| == 0
    {
    }

    static lemma {:induction false} GroupsSnoc(done: seq<seq<Segment>>, g: seq<Segment>)
      ensures EncodeGroups(done + [g]) == EncodeGroups(done) + [EncodeAll(g)]
    {
    }

    /** `ikcp_output` into `out`; the datagram starts anew. */
    method Output(ptr: nat, out: seq<Bytes>, ghost pk: Packing) returns (out': seq<Bytes>)
      requires Packed(ptr, out, pk)
      ensures out' == EncodeGroups(Close(pk))
    {
      OpenIsEmpty(pk.open);
      GroupsSnoc(pk.done, pk.open);
      hide EncodeAll, EncodeGroups;
      out' := if ptr == 0 then out else out + [buffer[..ptr]];
    }

    /** Everything in `segs` was written, in the open datagram or in a closed one. */
    ghost predicate Written(ptr: nat, out: seq<Bytes>, segs: seq<Segment>)
      reads this`mtu, this`buffer, buffer
    {
      Packed(ptr, out, PackAll(segs, mtu))
    }

    method Write(ptr: nat, out: seq<Bytes>, s: Segment, ghost pk: Packing) returns (ptr': nat, out': seq<Bytes>)
      requires Packed(ptr, out, pk) && OVERHEAD + |s.data| <= mtu
      modifies buffer
      ensures Packed(ptr', out', PackStep(pk, s, mtu))
    {
      ptr', out' := ptr, out;
      ghost var open := pk.open;
      if ptr + OVERHEAD + |s.data| > mtu {
        out' := Output(ptr, out, pk);
        ptr' := 0;
        open := [];
      }
      assert buffer[..ptr'] == EncodeAll(open) by {
        assert EncodeAll([]) == [] && buffer[..0] == [];
      }
      EncodeAllSnoc(open, s);
      assert [] + [s] == [s];
      hide EncodeHead, EncodeAll, EncodeGroups;
      ptr' := EncodeSeg(buffer, ptr', s);
      ptr' := CopyData(buffer, ptr', s.data);
      Assoc(EncodeAll(open), EncodeHead(s), s.data);
    }

    /** Appends a segment to the open datagram, closing it first if the segment does not fit. */
    method Emit(ptr: nat, out: seq<Bytes>, s: Segment, ghost segs: seq<Segment>) returns (ptr': nat, out': seq<Bytes>)
      requires Written(ptr, out, segs) && OVERHEAD + |s.data| <= mtu
      modifies buffer
      ensures Written(ptr', out', segs + [s])
    {
      hide Packed, PackStep, PackAll;
      PackAllSnoc(segs, s, mtu);
      ptr', out' := Write(ptr, out, s, PackAll(segs, mtu));
    }

    // ---------- ikcp_flush: its steps ----------

    /** The ACK loop; the scratch segment keeps the numbers of the last ACK. */
    method EmitAcks(seg: Segment) returns (seg': Segment, ptr: nat, out: seq<Bytes>)
      requires Books() && mtu <= buffer.Length && seg.data == []
      modifies buffer
      ensures var acks := AcksAs(seg, Acks());
              && Written(ptr, out, acks)
              && seg' == if acks == [] then seg else acks[|acks| - 1]
      ensures Acks() == old(Acks())
    {
      seg', ptr, out := seg, 0, [];
      ghost var words := acklist[..];
      ghost var acks := AcksAs(seg, Pairs(words, ackcount));
      PackNone(mtu);
      assert acks[..0] == [] && buffer[..0] == [];
      hide Pairs, Packed, PackAll, AcksAs;
      var i := 0;
      while i < ackcount
        invariant 0 <= i <= ackcount == |acks| && acklist[..] == words && AckShape()
        invariant seg' == if i == 0 then seg else acks[i - 1]
        invariant Written(ptr, out, acks[..i])
      {
        AckAt(seg, words, ackcount, i);
        seg' := seg'.(sn := acklist[2 * i], ts := acklist[2 * i + 1]);
        assert acks[..i + 1] == acks[..i] + [acks[i]];
        hide Written;
        ptr, out := Emit(ptr, out, seg', acks[..i]);
        i := i + 1;
      }
      assert acks[..i] == acks;
    }

    static lemma {:induction false} AckAt(seg: Segment, words: seq<u32>, n: nat, i: nat)
      requires i < n && 2 * n <= |words|
      ensures AcksAs(seg, Pairs(words, n))[i] == seg.(sn := words[2 * i], ts := words[2 * i + 1])
      ensures i > 0 ==> AcksAs(seg, Pairs(words, n))[i - 1] == seg.(sn := words[2 * i - 2], ts := words[2 * i - 1])
    {
      assert 2 * (i - 1) == 2 * i - 2 && 2 * (i - 1) + 1 == 2 * i - 1;
    }

    static lemma {:induction false} PackNone(mtu: nat)
      ensures PackAll([], mtu) == Packing([], []) && EncodeAll([]) == [] && EncodeGroups([]) == []
    {
    }

    /** The probe timer of `ikcp_flush`. */
    method TickProbe()
      modifies this`askSend, this`tsProbe, this`probeWait
      ensures AbsProbe() == ProbeTick(old(AbsProbe()), rmtWnd, current)
    {
      hide Wrap, TimeDiff;
      WrapIs(0, 0);
      if rmtWnd == 0 {
        if probeWait == 0 {
          probeWait := PROBE_INIT;
          tsProbe := Wrap(current + probeWait);
        } else if TimeDiff(current, tsProbe) >= 0 {
          if probeWait < PROBE_INIT {
            probeWait := PROBE_INIT;
          }
          probeWait := Wrap(probeWait + probeWait / 2);
          if probeWait > PROBE_LIMIT {
            probeWait := PROBE_LIMIT;
          }
          tsProbe := Wrap(current + probeWait);
          askSend := true;
        }
      } else {
        tsProbe := 0;
        probeWait := 0;
      }
    }

    /** The admission loop. */
    method AdmitAll(cwnd: u32, st: Stamp)
      requires q.Valid()
      modifies this`sndNxt, q, q.mem, q.Foot()
      ensures q.Valid() && fresh(q.Foot() - old(q.Foot())) && SameReceiving(old(q.view), q.view)
      ensures AbsSnd() == Admit(old(AbsSnd()), cwnd, st)
    {
      hide Admit, Queues.Valid;
      ghost var moved;
      sndNxt, moved := q.AdmitAll(sndUna, sndNxt, cwnd, st);
    }

    /** What the sending loop does to one segment. */
    method Retouch(s: Segment, p: Policy) returns (s': Segment, fate: Fate)
      modifies this`xmit
      ensures s' == Touch(p, s) && fate == FateOf(p, s)
      ensures xmit == if fate == Timeout then Wrap(old(xmit) + 1) else old(xmit)
    {
      hide Wrap, TimeDiff, TruncDiv;
      var now := p.st.now;
      s', fate := s, Quiet;
      if s.xmit == 0 {
        fate := First;
        s' := s'.(xmit := Wrap(s.xmit + 1), rto := p.st.rto, resendts := Wrap(now + p.st.rto + p.rtomin));
      } else if TimeDiff(now, s.resendts) >= 0 {
        fate := Timeout;
        xmit := Wrap(xmit + 1);
        var rto;
        if p.nodelay == 0 {
          rto := Wrap(s.rto + Max(s.rto, p.st.rto));
        } else {
          var step := if p.nodelay < 2 then Signed(s.rto) else Signed(p.st.rto);
          rto := Wrap(s.rto + TruncDiv(step, 2));
        }
        s' := s'.(xmit := Wrap(s.xmit + 1), rto := rto, resendts := Wrap(now + rto));
      } else if s.fastack >= p.resent {
        if Signed(s.xmit) <= p.fastLimit || p.fastLimit <= 0 {
          fate := Fast;
          s' := s'.(xmit := Wrap(s.xmit + 1), fastack := 0, resendts := Wrap(now + s.rto));
        }
      }
      if fate != Quiet {
        s' := s'.(ts := now, wnd := p.st.wnd, una := p.st.una);
      }
    }

    /** `Written` and the buffer's size are all that is needed to go on writing. */
    ghost predicate Fits(segs: seq<Segment>)
      reads this`mtu, this`buffer
    {
      mtu <= buffer.Length && forall i :: 0 <= i < |segs| ==> OVERHEAD + |segs[i].data| <= mtu
    }

    /** One turn of the sending loop. */
    method SendOne(segment: Node, ghost i: nat, p: Policy, ptr: nat, out: seq<Bytes>, ghost segs: seq<Segment>)
      returns (fate: Fate, ptr': nat, out': seq<Bytes>)
      requires q.Valid() && i + 1 < |q.sb| && q.sb[i + 1] == segment && Fits(q.view.sndBuf) && Written(ptr, out, segs)
      modifies q, q.Foot(), this`xmit, this`state, buffer
      ensures q.Valid() && q.Foot() == old(q.Foot()) && q.sb == old(q.sb) && i < |old(q.view).sndBuf|
      ensures var b := old(q.view).sndBuf;
              var t := Touch(p, b[i]);
              && fate == FateOf(p, b[i])
              && q.view == old(q.view).(sndBuf := b[i := t]) && Fits(q.view.sndBuf)
              && Written(ptr', out', if fate == Quiet then segs else segs + [t])
              && state == (if fate != Quiet && t.xmit >= deadLink then DEAD else old(state))
              && xmit == (if fate == Timeout then Wrap(old(xmit) + 1) else old(xmit))
    {
      hide Written, Wrap, Touch, FateOf, Fits, Queues.Valid;
      q.SndAt(i + 1);
      TouchFits(p, q.view.sndBuf, i);
      ptr', out' := ptr, out;
      var s;
      s, fate := Retouch(segment.seg, p);
      q.WriteSnd(segment, s, i + 1);
      if fate != Quiet {
        ptr', out' := Emit(ptr, out, s, segs);
        if s.xmit >= deadLink {
          state := DEAD;
        }
      }
    }

    lemma {:induction false} TouchFits(p: Policy, buf: seq<Segment>, i: nat)
      requires i < |buf| && Fits(buf)
      ensures Fits(buf[i := Touch(p, buf[i])]) && OVERHEAD + |Touch(p, buf[i]).data| <= mtu
    {
      hide BackOff, FateOf;
    }

    static lemma {:induction false} DeadSnoc(due: seq<Segment>, t: Segment, deadLink: u32)
      ensures AnyDead(due + [t], deadLink) <==> AnyDead(due, deadLink) || t.xmit >= deadLink
    {
      assert (due + [t])[|due|] == t;
      assert forall i :: 0 <= i < |due| ==> (due + [t])[i] == due[i];
    }

    static lemma {:induction false} SweepNext(p: Policy, b: seq<Segment>, i: nat, xmit: u32, state: u32, deadLink: u32)
      requires i < |b|
      ensures var w := SweepAt(p, b, i, xmit, state, deadLink);
              && |w.buf| == |b| && w.buf[i] == b[i]
              && SweepAt(p, b, i + 1, xmit, state, deadLink)
                == SweepStep(w, i, FateOf(p, b[i]), Touch(p, b[i]), deadLink)
    {
      var f, t := FateOf(p, b[i]), Touch(p, b[i]);
      hide Touch, FateOf, Wrap, AnyDead;
      assert b[..i + 1][..i] == b[..i] && b[..i + 1][i] == b[i];
      var buf := TouchAll(p, b[..i]) + b[i..];
      assert buf[i := t] == TouchAll(p, b[..i + 1]) + b[i + 1..];
      DeadSnoc(Due(p, b[..i]), t, deadLink);
      WrapAdd(xmit + Fated(p, b[..i], Timeout), 1);
    }

    static lemma {:induction false} SweepStarts(p: Policy, b: seq<Segment>, xmit: u32, state: u32, deadLink: u32)
      ensures SweepAt(p, b, 0, xmit, state, deadLink) == Sweep(b, [], false, false, xmit, state)
    {
      hide Touch, FateOf;
      assert b[..0] == [] && b[0..] == b && TouchAll(p, []) + b == b;
    }

    static lemma {:induction false} SweepEnds(p: Policy, b: seq<Segment>, xmit: u32, state: u32, deadLink: u32)
      ensures SweepAt(p, b, |b|, xmit, state, deadLink)
           == Sweep(TouchAll(p, b), Due(p, b), Fated(p, b, Timeout) > 0, Fated(p, b, Fast) > 0,
                    Wrap(xmit + Fated(p, b, Timeout)), if AnyDead(Due(p, b), deadLink) then DEAD else state)
    {
      hide TouchAll, Due, Fated, AnyDead, Wrap;
      assert b[..|b|] == b && TouchAll(p, b) + b[|b|..] == TouchAll(p, b);
    }

    static lemma {:induction false} SweepParts(w: Sweep, i: nat, f: Fate, t: Segment, deadLink: u32, w': Sweep)
      requires i < |w.buf| && w'.buf == w.buf[i := t]
      requires w'.due == (if f == Quiet then w.due else w.due + [t])
      requires w'.lost == (w.lost || f == Timeout) && w'.fast == (w.fast || f == Fast)
      requires w'.xmit == (if f == Timeout then Wrap(w.xmit + 1) else w.xmit)
      requires w'.state == (if f != Quiet && t.xmit >= deadLink then DEAD else w.state)
      ensures w' == SweepStep(w, i, f, t, deadLink)
    {
    }

    method SendNext(segment: Node, ghost i: nat, p: Policy, ptr: nat, out: seq<Bytes>, lost: bool, fast: bool,
                    ghost ctl: seq<Segment>, ghost due: seq<Segment>)
      returns (ptr': nat, out': seq<Bytes>, lost': bool, fast': bool, ghost due': seq<Segment>)
      requires q.Valid() && i + 1 < |q.sb| && q.sb[i + 1] == segment
      requires Fits(q.view.sndBuf) && Written(ptr, out, ctl + due)
      modifies q, q.Foot(), this`xmit, this`state, buffer
      ensures q.Valid() && q.Foot() == old(q.Foot()) && q.sb == old(q.sb)
      ensures Fits(q.view.sndBuf) && Written(ptr', out', ctl + due')
      ensures q.view == old(q.view).(sndBuf := q.view.sndBuf) && i < |old(q.view).sndBuf|
      ensures var s := old(q.view).sndBuf[i];
              var w := Sweep(old(q.view).sndBuf, due, lost, fast, old(xmit), old(state));
              Sweep(q.view.sndBuf, due', lost', fast', xmit, state)
                == SweepStep(w, i, FateOf(p, s), Touch(p, s), deadLink)
    {
      hide Written, Touch, FateOf, SweepStep, Wrap, Fits, Queues.Valid;
      q.SndAt(i + 1);
      ghost var b := q.view.sndBuf;
      ghost var w, t := Sweep(b, due, lost, fast, xmit, state), Touch(p, b[i]);
      Assoc(ctl, due, [t]);
      var fate;
      fate, ptr', out' := SendOne(segment, i, p, ptr, out, ctl + due);
      due' := if fate == Quiet then due else due + [t];
      lost' := lost || fate == Timeout;
      fast' := fast || fate == Fast;
      SweepParts(w, i, fate, t, deadLink, Sweep(q.view.sndBuf, due', lost', fast', xmit, state));
    }

    /** The sending loop. */
    method SendAll(p: Policy, ptr0: nat, out0: seq<Bytes>, ghost ctl: seq<Segment>)
      returns (ptr: nat, out: seq<Bytes>, lost: bool, fast: bool)
      requires q.Valid() && Fits(q.view.sndBuf) && Written(ptr0, out0, ctl)
      modifies q, q.Foot(), this`xmit, this`state, buffer
      ensures q.Valid() && q.Foot() == old(q.Foot()) && q.view == old(q.view).(sndBuf := q.view.sndBuf)
      ensures var b := old(q.view).sndBuf;
              && Written(ptr, out, ctl + Due(p, b))
              && Sweep(q.view.sndBuf, Due(p, b), lost, fast, xmit, state)
              == SweepAt(p, b, |b|, old(xmit), old(state), deadLink)
    {
      hide Written, Touch, FateOf, SweepAt, SweepStep, Wrap, Due, Fits, Queues.Valid;
      ptr, out, lost, fast := ptr0, out0, false, false;
      ghost var r, b, x, st := q.sb, q.view.sndBuf, xmit, state;
      ghost var due, i: nat := [], 0;
      SweepStarts(p, b, x, st, deadLink);
      assert ctl + [] == ctl;
      q.SndAt(0);
      if b != [] {
        q.SndAt(1);
      }
      var segment: Node? := q.sndBuf.next;
      while segment != q.sndBuf
        invariant q.Valid() && q.Foot() == old(q.Foot()) && q.sb == r && |r| == |b| + 1
        invariant i <= |b| && segment == (if i < |b| then r[i + 1] else q.sndBuf) && (segment == q.sndBuf <==> i == |b|)
        invariant Fits(q.view.sndBuf) && q.view == old(q.view).(sndBuf := q.view.sndBuf)
        invariant Sweep(q.view.sndBuf, due, lost, fast, xmit, state) == SweepAt(p, b, i, x, st, deadLink)
        invariant Written(ptr, out, ctl + due)
        decreases |b| - i
      {
        SweepNext(p, b, i, x, st, deadLink);
        ptr, out, lost, fast, due := SendNext(segment, i, p, ptr, out, lost, fast, ctl, due);
        q.SndAt(i + 1);
        if i + 1 < |b| {
          q.SndAt(i + 2);
        }
        i := i + 1;
        segment := segment.next;
      }
      SweepEnds(p, b, x, st, deadLink);
    }

    /** The end of `ikcp_flush`. */
    method Adapt(fast: bool, lost: bool, window: u32, resent: u32)
      modifies this`cwnd, this`ssthresh, this`incr
      ensures AbsCong() == AfterFlush(old(AbsCong()), fast, lost, Wrap(sndNxt - sndUna), window, resent, mss)
    {
      hide Wrap, Mul;
      if fast {
        var inflight := Wrap(sndNxt - sndUna);
        ssthresh := inflight / 2;
        if ssthresh < THRESH_MIN {
          ssthresh := THRESH_MIN;
        }
        cwnd := Wrap(ssthresh + resent);
        incr := Mul(cwnd, mss);
      }
      if lost {
        ssthresh := window / 2;
        if ssthresh < THRESH_MIN {
          ssthresh := THRESH_MIN;
        }
        cwnd := 1;
        incr := mss;
      }
      if cwnd < 1 {
        cwnd := 1;
        incr := mss;
      }
    }

    // ---------- ikcp_flush, ikcp_update, ikcp_check ----------

    method EmitProbes(ptr0: nat, out0: seq<Bytes>, seg: Segment, ghost segs: seq<Segment>)
      returns (ptr: nat, out: seq<Bytes>)
      requires Written(ptr0, out0, segs) && seg.data == [] && OVERHEAD <= mtu
      modifies this`askSend, this`askTell, buffer
      ensures !askSend && !askTell
      ensures Written(ptr, out, segs + (if old(askSend) then [seg.(cmd := CMD_WASK)] else [])
                                     + (if old(askTell) then [seg.(cmd := CMD_WINS)] else []))
    {
      hide Written;
      ptr, out := ptr0, out0;
      ghost var s := segs;
      assert segs + [] == segs;
      if askSend {
        ptr, out := Emit(ptr, out, seg.(cmd := CMD_WASK), segs);
        s := segs + [seg.(cmd := CMD_WASK)];
      }
      assert s + [] == s;
      if askTell {
        ptr, out := Emit(ptr, out, seg.(cmd := CMD_WINS), s);
      }
      askSend := false;
      askTell := false;
    }

    /** ACKs and window probes. */
    method EmitControl(seg0: Segment) returns (ptr: nat, out: seq<Bytes>)
      requires Books() && mtu <= buffer.Length && OVERHEAD <= mtu && seg0.data == []
      modifies this`ackcount, this`askSend, this`askTell, this`tsProbe, this`probeWait, buffer
      ensures Books() && Acks() == []
      ensures var p := ProbeTick(old(AbsProbe()), rmtWnd, current);
              && AbsProbe() == p.(ask := false, tell := false)
              && Written(ptr, out, Control(seg0, old(Acks()), p))
    {
      hide ProbeTick, AcksAs, Pairs, Written;
      AcksSize(seg0, Acks());
      ghost var acks := AcksAs(seg0, Acks());
      var seg;
      seg, ptr, out := EmitAcks(seg0);
      ackcount := 0;
      PairsNone(acklist[..]);
      TickProbe();
      ptr, out := EmitProbes(ptr, out, seg, acks);
    }

    static lemma {:induction false} PairsNone(words: seq<u32>)
      ensures Pairs(words, 0) == []
    {
    }

    static lemma {:induction false} AcksSize(seg: Segment, pending: seq<Ack>)
      requires seg.data == []
      ensures var acks := AcksAs(seg, pending); acks != [] ==> acks[|acks| - 1].data == []
    {
    }

    /** Data: admission, sending, the last datagram and congestion control. */
    method FlushData(p: Policy, window: u32, ptr0: nat, out0: seq<Bytes>, ghost ctl: seq<Segment>)
      returns (out: seq<Bytes>)
      requires q.Valid() && mss == mtu - OVERHEAD
      requires Written(ptr0, out0, ctl) && Fits(Admit(AbsSnd(), window, p.st).buf)
      modifies this`sndNxt, q, q.mem, q.Foot()
      modifies this`xmit, this`state, this`cwnd, this`ssthresh, this`incr, buffer
      ensures q.Valid() && fresh(q.Foot() - old(q.Foot())) && SameReceiving(old(q.view), q.view)
      ensures Half() == AfterSending(p, window, mss, deadLink, old(Half()))
      ensures out == EncodeGroups(Pack(ctl + Due(p, Admit(old(AbsSnd()), window, p.st).buf), mtu))
    {
      hide Admit, Wrap, Due, Fated, AfterFlush, TouchAll, AnyDead, Queues.Valid, Written, AfterSending, Pack,
           EncodeGroups, Fits;
      ghost var h := Half();
      AdmitAll(window, p.st);
      var lost, fast;
      out, lost, fast := SendData(p, ptr0, out0, ctl);
      Adapt(fast, lost, window, p.resent);
      SendingIs(p, window, mss, deadLink, h);
    }

    /** What the sending loop and the end of `ikcp_flush` write. */
    ghost function Half(): Sending
      reads this`sndUna, this`sndNxt, q`view, this`cwnd, this`ssthresh, this`incr, this`xmit, this`state
    {
      Sending(AbsSnd(), AbsCong(), xmit, state)
    }

    /** The sending loop and the last datagram. */
    method SendData(p: Policy, ptr0: nat, out0: seq<Bytes>, ghost ctl: seq<Segment>)
      returns (out: seq<Bytes>, lost: bool, fast: bool)
      requires q.Valid() && Fits(q.view.sndBuf) && Written(ptr0, out0, ctl)
      modifies q, q.Foot(), this`xmit, this`state, buffer
      ensures var b := old(q.view).sndBuf;
              && q.Valid() && q.Foot() == old(q.Foot()) && q.view == old(q.view).(sndBuf := TouchAll(p, b))
              && lost == (Fated(p, b, Timeout) > 0) && fast == (Fated(p, b, Fast) > 0)
              && xmit == Wrap(old(xmit) + Fated(p, b, Timeout))
              && state == (if AnyDead(Due(p, b), deadLink) then DEAD else old(state))
              && out == EncodeGroups(Pack(ctl + Due(p, b), mtu))
    {
      hide Wrap, Due, Fated, TouchAll, AnyDead, Queues.Valid, Written, SweepAt, Pack, EncodeGroups, Fits;
      ghost var b, x, st := q.view.sndBuf, xmit, state;
      var ptr;
      ptr, out, lost, fast := SendAll(p, ptr0, out0, ctl);
      SweepEnds(p, b, x, st, deadLink);
      out := LastOutput(ptr, out, ctl + Due(p, b));
    }

    method LastOutput(ptr: nat, out: seq<Bytes>, ghost segs: seq<Segment>) returns (out': seq<Bytes>)
      requires Written(ptr, out, segs)
      ensures out' == EncodeGroups(Pack(segs, mtu))
    {
      hide Packed, PackAll, EncodeGroups, Close;
      out' := Output(ptr, out, PackAll(segs, mtu));
    }

    /** The scratch segment, the local `cwnd` and the policy of a flush. */
    method Plan() returns (seg: Segment, window: u32, p: Policy)
      requires q.Valid()
      ensures seg == Template(Abs()) && window == SendWindow(Abs()) && p == PolicyOf(Abs())
    {
      hide Wrap, Acks, Queues.Valid;
      q.Counters();
      var wnd := if q.nrcvQue < rcvWnd then rcvWnd - q.nrcvQue else 0;
      seg := Segment(conv, CMD_ACK, 0, wnd, 0, 0, rcvNxt, [], 0, 0, 0, 0);
      window := Min(sndWnd, rmtWnd);
      if !nocwnd {
        window := Min(cwnd, window);
      }
      p := Policy(Stamp(conv, current, wnd, rcvNxt, Wrap(rxRto)), if fastresend > 0 then fastresend else 0xffff_ffff,
                  if nodelay == 0 then Wrap(rxRto) / 8 else 0, nodelay, fastlimit);
    }

    method FlushBoth(seg: Segment, window: u32, p: Policy) returns (out: seq<Bytes>)
      requires Books() && q.Valid() && mss == mtu - OVERHEAD && mtu <= buffer.Length
      requires Fits(Admit(AbsSnd(), window, p.st).buf) && seg.data == []
      modifies this`ackcount, this`askSend, this`askTell, this`tsProbe, this`probeWait
      modifies this`sndNxt, q, q.mem, q.Foot()
      modifies this`xmit, this`state, this`cwnd, this`ssthresh, this`incr, buffer
      ensures Books() && q.Valid() && fresh(q.Foot() - old(q.Foot()))
      ensures AbsRcv() == old(AbsRcv()).(acks := [])
      ensures var probe := ProbeTick(old(AbsProbe()), rmtWnd, current);
              && AbsProbe() == probe.(ask := false, tell := false)
              && Half() == AfterSending(p, window, mss, deadLink, old(Half()))
              && out == EncodeGroups(Pack(Control(seg, old(Acks()), probe)
                                          + Due(p, Admit(old(AbsSnd()), window, p.st).buf), mtu))
    {
      hide Wrap, Acks, ProbeTick, Admit, Control, Pairs, Written, Due, AfterSending, Pack, EncodeGroups, AbsProbe,
           Queues.Valid;
      ghost var ctl := Control(seg, Acks(), ProbeTick(AbsProbe(), rmtWnd, current));
      var ptr;
      ptr, out := EmitControl(seg);
      out := FlushData(p, window, ptr, out, ctl);
    }

    method FlushParts() returns (out: seq<Bytes>)
      requires Books() && q.Valid() && mss == mtu - OVERHEAD && mtu <= buffer.Length && updated
      requires WillFit()
      modifies this`ackcount, this`askSend, this`askTell, this`tsProbe, this`probeWait
      modifies this`sndNxt, q, q.mem, q.Foot()
      modifies this`xmit, this`state, this`cwnd, this`ssthresh, this`incr, buffer
      ensures Books() && q.Valid() && fresh(q.Foot() - old(q.Foot()))
      ensures var r := Engine.Flush(old(Abs())); Abs() == r.k && out == EncodeGroups(r.out)
    {
      hide Wrap, Acks, Template, SendWindow, PolicyOf, StampOf, ProbeTick, Admit, Control, Pairs, Due, AfterSending,
           Engine.Flush, Pack, EncodeGroups, Fits, AbsProbe, AbsRtt, AckShape, Queues.Valid, Abs, Cfg, AbsSnd,
           AbsRcv, AbsCong, AbsClock, WillFit, Half, Books;
      CfgIs();
      WillFitIs();
      var seg, window, p := Plan();
      out := FlushBoth(seg, window, p);
      FlushedAbs(out);
    }

    /** What a flush will send fits its datagrams. */
    ghost predicate WillFit()
      reads this, acklist, q`view
    {
      Fits(Admit(AbsSnd(), SendWindow(Abs()), StampOf(Abs())).buf)
    }

    lemma {:induction false} WillFitIs()
      requires WillFit()
      ensures var k := Abs();
              Template(k).data == [] && Fits(Admit(AbsSnd(), SendWindow(k), PolicyOf(k).st).buf)
    {
      hide Admit, SendWindow, Fits;
    }

    /** The value after a flush, from the parts that were written. */
    twostate lemma {:induction false} FlushedAbs(out: seq<Bytes>)
      requires old(updated) && Cfg() == old(Cfg()) && AbsClock() == old(AbsClock()) && AbsRtt() == old(AbsRtt())
      requires rmtWnd == old(rmtWnd) && AbsRcv() == old(AbsRcv()).(acks := [])
      requires Half() == AfterSending(PolicyOf(old(Abs())), SendWindow(old(Abs())), mtu - OVERHEAD, deadLink,
                                      old(Half()))
      requires var k := old(Abs());
               var p, probe := PolicyOf(k), ProbeTick(old(AbsProbe()), old(rmtWnd), old(current));
               && AbsProbe() == probe.(ask := false, tell := false)
               && out == EncodeGroups(Pack(Control(Template(k), old(Acks()), probe)
                                           + Due(p, Admit(old(AbsSnd()), SendWindow(k), p.st).buf), mtu))
      ensures var r := Engine.Flush(old(Abs())); Abs() == r.k && out == EncodeGroups(r.out)
    {
      hide Wrap, Acks, Template, SendWindow, PolicyOf, StampOf, ProbeTick, Admit, Control, Due, AfterSending,
           Engine.Flush, Pack, EncodeGroups;
      FlushIs(old(Abs()), Abs(), out);
    }

    /** `ikcp_flush`; `out` are the datagrams handed to the output callback. */
    method Flush() returns (out: seq<Bytes>)
      requires Valid()
      modifies this`ackcount, this`askSend, this`askTell, this`tsProbe, this`probeWait
      modifies this`sndNxt, q, q.mem, q.Foot()
      modifies this`xmit, this`state, this`cwnd, this`ssthresh, this`incr, buffer
      ensures Valid() && fresh(q.Foot() - old(q.Foot()))
      ensures var r := Engine.Flush(old(Abs())); Abs() == r.k && out == EncodeGroups(r.out)
    {
      hide Inv, Engine.Flush, Admit, SendWindow, StampOf, Acks, Wrap, Queues.Valid;
      FlushInv(Abs());
      if !updated {
        FlushIdle(Abs());
        return [];
      }
      AdmittedFits(Abs());
      out := FlushParts();
    }

    /** `ikcp_update`. */
    method Update(now: u32) returns (out: seq<Bytes>)
      requires Valid()
      modifies this`ackcount, this`askSend, this`askTell, this`tsProbe, this`probeWait
      modifies this`sndNxt, q, q.mem, q.Foot()
      modifies this`xmit, this`state, this`cwnd, this`ssthresh, this`incr, buffer
      modifies this`current, this`updated, this`tsFlush
      ensures Valid() && fresh(q.Foot() - old(q.Foot()))
      ensures var r := Engine.Update(old(Abs()), now); Abs() == r.k && out == EncodeGroups(r.out)
    {
      hide Inv, Engine.Flush, Tick, Acks, Wrap, Abs, Cfg, AbsSnd, AbsRcv, AbsRtt, AbsCong, AbsProbe, Queues.Valid;
      AbsIs();
      CfgIs();
      ghost var k, foot := Abs(), q.Foot();
      ClockInv(k, Tick(k.clock, now, k.cfg.interval).0);
      NoGroups();
      var due := Advance(now);
      AbsIs();
      assert Abs() == k.(clock := Tick(k.clock, now, k.cfg.interval).0);
      out := [];
      if due {
        out := Flush();
      }
    }

    /** The flush clock of `ikcp_update`. */
    method Advance(now: u32) returns (due: bool)
      modifies this`current, this`updated, this`tsFlush
      ensures (AbsClock(), due) == Tick(old(AbsClock()), now, interval)
    {
      hide Wrap, TimeDiff;
      current := now;
      if !updated {
        updated := true;
        tsFlush := current;
      }
      var slap := TimeDiff(current, tsFlush);
      if slap >= 10000 || slap < -10000 {
        tsFlush := current;
        slap := 0;
      }
      due := slap >= 0;
      if due {
        tsFlush := Wrap(tsFlush + interval);
        if TimeDiff(current, tsFlush) >= 0 {
          tsFlush := Wrap(current + interval);
        }
      }
    }

    /** `ikcp_check`. */
    method Check(now: u32) returns (when: u32)
      requires q.Valid()
      ensures when == Engine.Check(Abs(), now)
    {
      hide Wrap, TimeDiff, Acks, NextResend, Queues.Valid;
      if !updated {
        return now;
      }
      var tsFlush' := tsFlush;
      if TimeDiff(now, tsFlush') >= 10000 || TimeDiff(now, tsFlush') < -10000 {
        tsFlush' := now;
      }
      assert TimeDiff(now, now) == 0 by { TimeDiffSame(now); }
      if TimeDiff(now, tsFlush') >= 0 {
        return now;
      }
      var tmFlush := TimeDiff(tsFlush', now);
      var tmPacket := q.NearestResend(now);
      if tmPacket <= 0 {
        return now;
      }
      var minimal := if tmPacket < tmFlush then tmPacket else tmFlush;
      if minimal >= interval {
        minimal := interval;
      }
      when := Wrap(now + minimal);
    }

    /** `ikcp_waitsnd`. */
    method WaitSnd() returns (n: u32)
      requires q.Valid()
      ensures n == Wrap(|q.view.sndBuf| + |q.view.sndQueue|)
    {
      hide Wrap, Queues.Valid;
      q.Counters();
      WrapAdd(|q.view.sndBuf|, q.nsndQue);
      WrapAdd(|q.view.sndQueue|, |q.view.sndBuf|);
      n := Wrap(q.nsndBuf + q.nsndQue);
    }

    /** `ikcp_release`: every segment that was made has been deleted. */
    method Release()
      requires Valid()
      modifies this`ackcount, q, q.mem, q.Foot()
      ensures q.mem.alive == {}
    {
      hide Inv, Acks, Queues.Valid;
      q.Release();
      ackcount := 0;
    }

    lemma {:induction false} AdmittedFits(k: Kcb)
      requires Inv(k) && k.cfg.mtu == mtu <= buffer.Length
      ensures Fits(Admit(k.snd, SendWindow(k), StampOf(k)).buf)
    {
      assert SendWindow(k) <= SPAN;
      AdmitInv(k.snd, k.cfg, SendWindow(k), StampOf(k));
      hide Admit, Window, Good;
    }

    static lemma {:induction false} NoGroups()
      ensures EncodeGroups([]) == []
    {
    }

    static lemma {:induction false} FlushIdle(k: Kcb)
      requires !k.clock.updated
      ensures Engine.Flush(k) == Flushed(k, []) && EncodeGroups([]) == []
    {
    }
  }

  /** What the sending loop works on. */
  datatype Sweep = Sweep(buf: seq<Segment>, due: seq<Segment>, lost: bool, fast: bool, xmit: u32, state: u32)

  /** The state of the sending loop after it passed the first `i` segments of `b`. */
  ghost function SweepAt(p: Policy, b: seq<Segment>, i: nat, xmit: u32, state: u32, deadLink: u32): Sweep
    requires i <= |b|
  {
    var b0 := b[..i];
    Sweep(TouchAll(p, b0) + b[i..], Due(p, b0), Fated(p, b0, Timeout) > 0, Fated(p, b0, Fast) > 0,
          Wrap(xmit + Fated(p, b0, Timeout)), if AnyDead(Due(p, b0), deadLink) then DEAD else state)
  }

  ghost function SweepStep(w: Sweep, i: nat, f: Fate, t: Segment, deadLink: u32): Sweep
    requires i < |w.buf|
  {
    Sweep(w.buf[i := t], if f == Quiet then w.due else w.due + [t], w.lost || f == Timeout, w.fast || f == Fast,
          if f == Timeout then Wrap(w.xmit + 1) else w.xmit,
          if f != Quiet && t.xmit >= deadLink then DEAD else w.state)
  }

  datatype Sending = Sending(snd: Snd, cong: Cong, xmit: u32, state: u32)

  /** What admission, the sending loop and congestion control make of `h`. */
  ghost function AfterSending(p: Policy, window: u32, mss: u32, deadLink: u32, h: Sending): Sending {
    var snd := Admit(h.snd, window, p.st);
    var lost, fast := Fated(p, snd.buf, Timeout), Fated(p, snd.buf, Fast);
    Sending(snd.(buf := TouchAll(p, snd.buf)),
            AfterFlush(h.cong, fast > 0, lost > 0, Wrap(snd.nxt - snd.una), window, p.resent, mss),
            Wrap(h.xmit + lost), if AnyDead(Due(p, snd.buf), deadLink) then DEAD else h.state)
  }

  lemma {:induction false} SendingIs(p: Policy, window: u32, mss: u32, deadLink: u32, h: Sending)
    ensures var snd := Admit(h.snd, window, p.st);
            var lost, fast := Fated(p, snd.buf, Timeout), Fated(p, snd.buf, Fast);
            AfterSending(p, window, mss, deadLink, h)
            == Sending(snd.(buf := TouchAll(p, snd.buf)),
                       AfterFlush(h.cong, fast > 0, lost > 0, Wrap(snd.nxt - snd.una), window, p.resent, mss),
                       Wrap(h.xmit + lost), if AnyDead(Due(p, snd.buf), deadLink) then DEAD else h.state)
  {
  }

  lemma {:induction false} FlushIs(k: Kcb, k': Kcb, out: seq<Bytes>)
    requires k.clock.updated
    requires k'.cfg == k.cfg && k'.clock == k.clock && k'.rtt == k.rtt && k'.rmtWnd == k.rmtWnd
    requires k'.rcv == k.rcv.(acks := [])
    requires Sending(k'.snd, k'.cong, k'.xmit, k'.state)
          == AfterSending(PolicyOf(k), SendWindow(k), k.cfg.Mss(), k.cfg.deadLink,
                          Sending(k.snd, k.cong, k.xmit, k.state))
    requires var p, probe := PolicyOf(k), ProbeTick(k.probe, k.rmtWnd, k.clock.current);
             && k'.probe == probe.(ask := false, tell := false)
             && out == EncodeGroups(Pack(Control(Template(k), k.rcv.acks, probe)
                                         + Due(p, Admit(k.snd, SendWindow(k), p.st).buf), k.cfg.mtu))
    ensures k' == Engine.Flush(k).k && out == EncodeGroups(Engine.Flush(k).out)
  {
    hide PolicyOf, SendWindow, ProbeTick, Admit, Due, Fated, TouchAll, AfterFlush, AnyDead, Pack, Control, Template,
         Wrap;
  }
}
