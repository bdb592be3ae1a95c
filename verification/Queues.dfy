/** The four queues of the control block in the heap: circular lists with a counter each, and the allocator
    of their segments. A segment is deleted at most once, and between any two calls those that are alive are
    exactly the entries of the four lists, each in one of them. Each method is proved to compute its function
    of module `Engine` on the contents. */
module Queues {
  import opened Serial
  import opened Wire
  import opened Engine
  import opened Iqueue

  /** The contents of the queues. */
  datatype View = View(sndQueue: seq<Segment>, rcvQueue: seq<Segment>, sndBuf: seq<Segment>, rcvBuf: seq<Segment>)

  class Queues {
    const mem: Memory
    const sndQueue: Node
    const rcvQueue: Node
    const sndBuf: Node
    const rcvBuf: Node
    var nsndQue: u32
    var nrcvQue: u32
    var nsndBuf: u32
    var nrcvBuf: u32
    ghost var sq: seq<Node>    // the list of `sndQueue`, its head included
    ghost var rq: seq<Node>
    ghost var sb: seq<Node>
    ghost var rb: seq<Node>
    ghost var view: View

    /** Four circular lists without a common member and counters that count their entries; the segments
        that are alive are the entries of the lists and those in `loose`. */
    ghost predicate Holding(loose: set<Node>)
      reads this, mem, Nodes(sq), Nodes(rq), Nodes(sb), Nodes(rb)
    {
      && List(sq, sndQueue, view.sndQueue) && List(rq, rcvQueue, view.rcvQueue)
      && List(sb, sndBuf, view.sndBuf) && List(rb, rcvBuf, view.rcvBuf)
      && Owned(Nodes(sq), Nodes(rq), Nodes(sb), Nodes(rb), Heads(), loose, mem.alive)
      && nsndQue == Wrap(|view.sndQueue|) && nrcvQue == |view.rcvQueue|
      && nsndBuf == Wrap(|view.sndBuf|) && nrcvBuf == Wrap(|view.rcvBuf|)
    }

    /** Holds between any two calls: the segments that are alive are exactly the entries of the lists. */
    ghost predicate Valid()
      reads this, mem, Nodes(sq), Nodes(rq), Nodes(sb), Nodes(rb)
    {
      Holding({})
    }

    /** The members of the four lists. */
    ghost function Foot(): set<Node>
      reads this
    {
      Nodes(sq) + Nodes(rq) + Nodes(sb) + Nodes(rb)
    }

    ghost function Heads(): set<Node> {
      {sndQueue, rcvQueue, sndBuf, rcvBuf}
    }

    /** The list heads and the allocator of a new control block. */
    constructor ()
      ensures Valid() && view == View([], [], [], []) && fresh(mem) && fresh(Foot())
    {
      hide Ring, Segs, Wrap, List, Owned, Nodes, Holding;
      var none := NewSegment(0, []);
      sndQueue := new Node(none);
      rcvQueue := new Node(none);
      sndBuf := new Node(none);
      rcvBuf := new Node(none);
      mem := new Memory();
      nsndQue, nrcvQue, nsndBuf, nrcvBuf := 0, 0, 0, 0;
      new;
      Alone(sndQueue);
      Alone(rcvQueue);
      Alone(sndBuf);
      Alone(rcvBuf);
      OwnedAtFirst(sndQueue, rcvQueue, sndBuf, rcvBuf);
      NodesOne(sndQueue);
      NodesOne(rcvQueue);
      NodesOne(sndBuf);
      NodesOne(rcvBuf);
      WrapIs(0, 0);
      Relist([sndQueue], [rcvQueue], [sndBuf], [rcvBuf], View([], [], [], []), {});
    }

    /** The ghost fields follow what was done to the lists. */
    ghost method Relist(sq': seq<Node>, rq': seq<Node>, sb': seq<Node>, rb': seq<Node>, v: View, loose: set<Node>)
      requires List(sq', sndQueue, v.sndQueue) && List(rq', rcvQueue, v.rcvQueue)
      requires List(sb', sndBuf, v.sndBuf) && List(rb', rcvBuf, v.rcvBuf)
      requires Owned(Nodes(sq'), Nodes(rq'), Nodes(sb'), Nodes(rb'), Heads(), loose, mem.alive)
      requires nsndQue == Wrap(|v.sndQueue|) && nrcvQue == |v.rcvQueue|
      requires nsndBuf == Wrap(|v.sndBuf|) && nrcvBuf == Wrap(|v.rcvBuf|)
      modifies this`sq, this`rq, this`sb, this`rb, this`view
      ensures Holding(loose) && sq == sq' && rq == rq' && sb == sb' && rb == rb' && view == v
    {
      hide List, Owned, Wrap;
      sq, rq, sb, rb, view := sq', rq', sb', rb', v;
    }

    lemma {:induction false} Parts(loose: set<Node>)
      requires Holding(loose)
      ensures List(sq, sndQueue, view.sndQueue) && List(rq, rcvQueue, view.rcvQueue)
      ensures List(sb, sndBuf, view.sndBuf) && List(rb, rcvBuf, view.rcvBuf)
      ensures Owned(Nodes(sq), Nodes(rq), Nodes(sb), Nodes(rb), Heads(), loose, mem.alive)
      ensures nsndQue == Wrap(|view.sndQueue|) && nrcvQue == |view.rcvQueue|
      ensures nsndBuf == Wrap(|view.sndBuf|) && nrcvBuf == Wrap(|view.rcvBuf|)
    {
      hide List, Owned, Wrap;
    }

    /** `snd_buf` shares no member with the other lists, and its entries are alive. */
    lemma {:induction false} SndBufApart(loose: set<Node>)
      requires Holding(loose)
      ensures Nodes(sb) !! Nodes(sq) && Nodes(sb) !! Nodes(rq) && Nodes(sb) !! Nodes(rb)
      ensures Nodes(sb) <= mem.alive + {sndBuf} && Nodes(sb) !! {sndQueue, rcvQueue, rcvBuf} + loose
    {
      hide Wrap;
      assert sndQueue in Nodes(sq) && rcvQueue in Nodes(rq) && rcvBuf in Nodes(rb);
    }

    /** `rcv_buf` shares no member with the other lists, and its entries are alive. */
    lemma {:induction false} RcvBufApart(loose: set<Node>)
      requires Holding(loose)
      ensures Nodes(rb) !! Nodes(sq) && Nodes(rb) !! Nodes(rq) && Nodes(rb) !! Nodes(sb)
      ensures Nodes(rb) <= mem.alive + {rcvBuf} && Nodes(rb) !! {sndQueue, rcvQueue, sndBuf} + loose
    {
      hide Wrap;
      assert sndQueue in Nodes(sq) && rcvQueue in Nodes(rq) && sndBuf in Nodes(sb);
    }

    /** `snd_queue` shares no member with the other lists, and its entries are alive. */
    lemma {:induction false} SndQueueApart(loose: set<Node>)
      requires Holding(loose)
      ensures Nodes(sq) !! Nodes(rq) && Nodes(sq) !! Nodes(sb) && Nodes(sq) !! Nodes(rb)
      ensures Nodes(sq) <= mem.alive + {sndQueue} && Nodes(sq) !! {rcvQueue, sndBuf, rcvBuf} + loose
    {
      hide Wrap;
      assert rcvQueue in Nodes(rq) && sndBuf in Nodes(sb) && rcvBuf in Nodes(rb);
    }

    /** `rcv_queue` shares no member with the other lists, and its entries are alive. */
    lemma {:induction false} RcvQueueApart(loose: set<Node>)
      requires Holding(loose)
      ensures Nodes(rq) !! Nodes(sq) && Nodes(rq) !! Nodes(sb) && Nodes(rq) !! Nodes(rb)
      ensures Nodes(rq) <= mem.alive + {rcvQueue} && Nodes(rq) !! {sndQueue, sndBuf, rcvBuf} + loose
    {
      hide Wrap;
      assert sndQueue in Nodes(sq) && sndBuf in Nodes(sb) && rcvBuf in Nodes(rb);
    }

    // ---------- ikcp_input ----------

    /** `ikcp_parse_una`: the first segments of `snd_buf` are deleted. */
    method ParseUna(una: u32) returns (ghost dropped: nat)
      requires Valid()
      modifies this`nsndBuf, this`sq, this`rq, this`sb, this`rb, this`view, mem, Nodes(sb)`next, Nodes(sb)`prev
      ensures Valid() && Foot() <= old(Foot()) && dropped < |old(sb)| && sb == Rest(old(sb), dropped)
      ensures mem.alive == old(mem.alive) - Nodes(old(sb)[1..1 + dropped])
      ensures view == old(view).(sndBuf := DropAcked(old(view).sndBuf, una))
    {
      hide Ring, Segs, Rest, Wrap, DropAcked, List, Owned, Holding, Distinct;
      Parts({});
      SndBufApart({});
      ghost var r := sb;
      ListParts(r, sndBuf, view.sndBuf);
      var n: int;
      ghost var gone;
      n, gone := Iqueue.ParseUna(sndBuf, una, mem, r);
      assert List(sq, sndQueue, view.sndQueue) && List(rq, rcvQueue, view.rcvQueue) && List(rb, rcvBuf, view.rcvBuf);
      RestSize(r, n);
      NodesRest(r, n);
      OwnedLess(Nodes(sq), Nodes(rq), Nodes(r), Nodes(rb), Heads(), {}, old(mem.alive), gone);
      WrapAdd(|r| - 1, -n);
      IsList(Rest(r, n), sndBuf);
      dropped := n;
      nsndBuf := Wrap(nsndBuf - n);
      Relist(sq, rq, Rest(r, n), rb, view.(sndBuf := DropAcked(view.sndBuf, una)), {});
    }

    /** The loop of `ikcp_parse_ack`: at most segment `k` of `snd_buf` is deleted. */
    method ParseAck(sn: u32) returns (ghost k: nat)
      requires Valid()
      modifies this`nsndBuf, this`sq, this`rq, this`sb, this`rb, this`view, mem, Nodes(sb)`next, Nodes(sb)`prev
      ensures Valid() && Foot() <= old(Foot())
      ensures if sb == old(sb) then mem.alive == old(mem.alive)
              else 0 < k < |old(sb)| && sb == Without(old(sb), k) && mem.alive == old(mem.alive) - {old(sb)[k]}
      ensures view == old(view).(sndBuf := RemoveSn(old(view).sndBuf, sn))
    {
      hide Ring, Segs, Wrap, List, Owned, Holding, Distinct, Without, RemoveSn;
      Parts({});
      SndBufApart({});
      ghost var r := sb;
      ListParts(r, sndBuf, view.sndBuf);
      InNodes(r);
      var dropped;
      dropped, k := Iqueue.ParseAck(sndBuf, sn, mem, r);
      assert List(sq, sndQueue, view.sndQueue) && List(rq, rcvQueue, view.rcvQueue) && List(rb, rcvBuf, view.rcvBuf);
      if dropped {
        WithoutSize(r, k);
        NodesWithout(r, k);
        OwnedLess(Nodes(sq), Nodes(rq), Nodes(r), Nodes(rb), Heads(), {}, old(mem.alive), {r[k]});
        WrapAdd(|r| - 1, -1);
        IsList(Without(r, k), sndBuf);
        nsndBuf := Wrap(nsndBuf - 1);
        Relist(sq, rq, Without(r, k), rb, view.(sndBuf := RemoveSn(view.sndBuf, sn)), {});
      } else {
        IsList(r, sndBuf);
        Relist(sq, rq, r, rb, view, {});
      }
    }

    /** The loop of `ikcp_parse_fastack`: counters in the segments of `snd_buf` are written in place. */
    method ParseFastack(sn: u32)
      requires Valid()
      modifies this`sq, this`rq, this`sb, this`rb, this`view, Nodes(sb)`seg
      ensures Valid() && Foot() == old(Foot()) && sb == old(sb)
      ensures view == old(view).(sndBuf := BumpFast(old(view).sndBuf, sn))
    {
      hide Ring, Segs, Wrap, List, Owned, Holding, Distinct, BumpFast;
      Parts({});
      SndBufApart({});
      ListParts(sb, sndBuf, view.sndBuf);
      Iqueue.ParseFastack(sndBuf, sn, sb);
      assert List(sq, sndQueue, view.sndQueue) && List(rq, rcvQueue, view.rcvQueue) && List(rb, rcvBuf, view.rcvBuf);
      IsList(sb, sndBuf);
      Relist(sq, rq, sb, rb, view.(sndBuf := Segs(sb)), {});
    }

    /** `ikcp_segment_new` for a segment that is in no list yet. */
    method MakeSegment(s: Segment) returns (node: Node)
      requires Valid()
      modifies mem, this`sq, this`rq, this`sb, this`rb, this`view
      ensures Holding({node}) && fresh(node) && node.seg == s && mem.alive == old(mem.alive) + {node}
      ensures Foot() == old(Foot()) && view == old(view) && sb == old(sb) && sq == old(sq) && rb == old(rb)
              && rq == old(rq)
    {
      hide Ring, Segs, Wrap, List, Owned, Holding, Distinct;
      Parts({});
      node := mem.New(s);
      assert List(sq, sndQueue, view.sndQueue) && List(rq, rcvQueue, view.rcvQueue) && List(rb, rcvBuf, view.rcvBuf)
             && List(sb, sndBuf, view.sndBuf);
      OwnedMore(Nodes(sq), Nodes(rq), Nodes(sb), Nodes(rb), Heads(), old(mem.alive), {node});
      Relist(sq, rq, sb, rb, view, {node});
    }

    /** The insertion of `ikcp_parse_data`; a segment whose number is there already is deleted. */
    method InsertNew(newseg: Node) returns (ghost k: nat)
      requires Holding({newseg})
      modifies this`nrcvBuf, this`sq, this`rq, this`sb, this`rb, this`view, mem, Nodes(rb)`next, Nodes(rb)`prev,
               newseg`next, newseg`prev
      ensures Valid() && Foot() <= old(Foot()) + {newseg} && rq == old(rq)
      ensures if Insert(old(view).rcvBuf, newseg.seg) == old(view).rcvBuf
              then rb == old(rb) && mem.alive == old(mem.alive) - {newseg}
              else k < |old(rb)| && rb == With(old(rb), k, newseg) && mem.alive == old(mem.alive)
      ensures view == old(view).(rcvBuf := Insert(old(view).rcvBuf, newseg.seg))
    {
      hide Ring, Segs, Wrap, List, Owned, Holding, Distinct, With, Insert;
      Parts({newseg});
      RcvBufApart({newseg});
      LooseApart(newseg);
      ghost var r := rb;
      ListParts(r, rcvBuf, view.rcvBuf);
      InNodes(r);
      var added;
      added, k := InsertData(rcvBuf, newseg, mem, r);
      assert List(sq, sndQueue, view.sndQueue) && List(rq, rcvQueue, view.rcvQueue) && List(sb, sndBuf, view.sndBuf);
      if added {
        WithSize(r, k, newseg);
        OwnedTaken(Nodes(sq), Nodes(rq), Nodes(sb), Nodes(r), Heads(), mem.alive, newseg);
        WrapAdd(|r| - 1, 1);
        IsList(With(r, k, newseg), rcvBuf);
        nrcvBuf := Wrap(nrcvBuf + 1);
        Relist(sq, rq, sb, With(r, k, newseg), view.(rcvBuf := Insert(view.rcvBuf, newseg.seg)), {});
      } else {
        OwnedLess(Nodes(sq), Nodes(rq), Nodes(sb), Nodes(r), Heads(), {newseg}, old(mem.alive), {newseg});
        IsList(r, rcvBuf);
        Relist(sq, rq, sb, r, view, {});
      }
    }

    lemma {:induction false} LooseApart(x: Node)
      requires Holding({x})
      ensures x in mem.alive && x !in Foot() && x !in Heads()
    {
      hide Wrap;
      assert sndQueue in Nodes(sq) && rcvQueue in Nodes(rq) && sndBuf in Nodes(sb) && rcvBuf in Nodes(rb);
    }

    /** The loop that moves segments from `rcv_buf` to `rcv_queue`. */
    method MoveAvailable(nxt: u32, wnd: u32) returns (nxt': u32, ghost moved: nat)
      requires Valid()
      modifies this`nrcvBuf, this`nrcvQue, this`sq, this`rq, this`sb, this`rb, this`view
      modifies Nodes(rb)`next, Nodes(rb)`prev, Nodes(rq)`next, Nodes(rq)`prev
      ensures Valid() && Foot() == old(Foot())
      ensures moved < |old(rb)| && rb == Rest(old(rb), moved) && rq == Joined(old(rb), old(rq), moved)
      ensures view == old(view).(rcvQueue := view.rcvQueue, rcvBuf := view.rcvBuf)
      ensures Rcv(nxt', view.rcvQueue, view.rcvBuf, []) == Drain(old(Rcv(nxt, view.rcvQueue, view.rcvBuf, [])), wnd)
    {
      hide Ring, Segs, Wrap, List, Owned, Holding, Distinct, Rest, Joined, Drain;
      Parts({});
      RcvBufApart({});
      RcvQueueApart({});
      ghost var r, t := rb, rq;
      ListParts(r, rcvBuf, view.rcvBuf);
      ListParts(t, rcvQueue, view.rcvQueue);
      var n: int;
      nxt', n := Iqueue.MoveAvailable(rcvBuf, rcvQueue, nxt, nrcvQue, wnd, r, t);
      assert List(sq, sndQueue, view.sndQueue) && List(sb, sndBuf, view.sndBuf);
      Shared(r, t, n);
      OwnedMoved(Nodes(sq), Nodes(t), Nodes(sb), Nodes(r), Heads(), mem.alive, Nodes(Joined(r, t, n)),
                 Nodes(Rest(r, n)));
      WrapAdd(|r| - 1, -n);
      IsList(Rest(r, n), rcvBuf);
      IsList(Joined(r, t, n), rcvQueue);
      moved := n;
      nrcvBuf := Wrap(nrcvBuf - n);
      nrcvQue := nrcvQue + n;
      Relist(sq, Joined(r, t, n), sb, Rest(r, n),
             view.(rcvQueue := Segs(Joined(r, t, n)), rcvBuf := Segs(Rest(r, n))), {});
    }

    /** `ikcp_parse_data`; the segment is deleted if it is outside the window or its number is there already. */
    method ParseData(newseg: Node, nxt: u32, wnd: u32) returns (nxt': u32)
      requires Holding({newseg})
      modifies this`nrcvBuf, this`nrcvQue, this`sq, this`rq, this`sb, this`rb, this`view, mem, newseg`next, newseg`prev
      modifies Nodes(rb)`next, Nodes(rb)`prev, Nodes(rq)`next, Nodes(rq)`prev
      ensures Valid() && Foot() <= old(Foot()) + {newseg}
      ensures var v := old(view);
              mem.alive == if Wanted(nxt, wnd, newseg.seg.sn) && Insert(v.rcvBuf, newseg.seg) != v.rcvBuf
                           then old(mem.alive) else old(mem.alive) - {newseg}
      ensures view == old(view).(rcvQueue := view.rcvQueue, rcvBuf := view.rcvBuf)
      ensures Rcv(nxt', view.rcvQueue, view.rcvBuf, [])
           == TakeData(old(Rcv(nxt, view.rcvQueue, view.rcvBuf, [])), wnd, newseg.seg)
    {
      hide Ring, Segs, Wrap, List, Owned, Holding, Distinct, Insert, Drain, TimeDiff, TakeData, Wanted;
      TakeDataIs(Rcv(nxt, view.rcvQueue, view.rcvBuf, []), wnd, newseg.seg);
      if TimeDiff(newseg.seg.sn, Wrap(nxt + wnd)) >= 0 || TimeDiff(newseg.seg.sn, nxt) < 0 {
        LooseApart(newseg);
        Forget(newseg);
        return nxt;
      }
      nxt' := Store(newseg, nxt, wnd);
    }

    /** `ikcp_parse_data` behind its test. */
    method Store(newseg: Node, nxt: u32, wnd: u32) returns (nxt': u32)
      requires Holding({newseg})
      modifies this`nrcvBuf, this`nrcvQue, this`sq, this`rq, this`sb, this`rb, this`view, mem
      modifies newseg`next, newseg`prev, Nodes(rb)`next, Nodes(rb)`prev, Nodes(rq)`next, Nodes(rq)`prev
      ensures Valid() && Foot() <= old(Foot()) + {newseg}
      ensures var v := old(view);
              mem.alive == if Insert(v.rcvBuf, newseg.seg) != v.rcvBuf then old(mem.alive)
                else old(mem.alive) - {newseg}
      ensures view == old(view).(rcvQueue := view.rcvQueue, rcvBuf := view.rcvBuf)
      ensures Rcv(nxt', view.rcvQueue, view.rcvBuf, [])
           == Drain(old(Rcv(nxt, view.rcvQueue, Insert(view.rcvBuf, newseg.seg), [])), wnd)
    {
      hide Ring, Segs, Wrap, List, Owned, Holding, Distinct, Insert, Drain, Rest, Joined, With;
      ghost var r := rb;
      ghost var k := InsertNew(newseg);
      if k < |r| {
        NodesWith(r, k, newseg);
      }
      ghost var moved;
      nxt', moved := MoveAvailable(nxt, wnd);
    }

    /** `ikcp_segment_delete` for a segment that is in no list. */
    method Forget(node: Node)
      requires Holding({node})
      modifies mem, this`sq, this`rq, this`sb, this`rb, this`view
      ensures Valid() && Foot() == old(Foot()) && view == old(view) && mem.alive == old(mem.alive) - {node}
    {
      hide Ring, Segs, Wrap, List, Owned, Holding, Distinct;
      Parts({node});
      LooseApart(node);
      OwnedLess(Nodes(sq), Nodes(rq), Nodes(sb), Nodes(rb), Heads(), {node}, mem.alive, {node});
      mem.Delete(node);
      assert List(sq, sndQueue, view.sndQueue) && List(rq, rcvQueue, view.rcvQueue) && List(rb, rcvBuf, view.rcvBuf)
             && List(sb, sndBuf, view.sndBuf);
      Relist(sq, rq, sb, rb, view, {});
    }

    // ---------- ikcp_recv ----------

    /** `ikcp_peeksize`. */
    method PeekSize() returns (size: int)
      requires Valid()
      ensures size == Engine.PeekSize(view.rcvQueue)
    {
      hide Ring, Segs, Wrap, List, Owned, Holding, Distinct, Engine.PeekSize;
      Parts({});
      ListParts(rq, rcvQueue, view.rcvQueue);
      size := Iqueue.PeekSize(rcvQueue, nrcvQue, rq);
    }

    /** The merge loop: the segments of the first message are deleted, or in a peek left where they are. */
    method Merge(ispeek: bool) returns (data: Bytes, ghost n: nat)
      requires Valid()
      modifies this`nrcvQue, this`sq, this`rq, this`sb, this`rb, this`view, mem, Nodes(rq)`next, Nodes(rq)`prev
      ensures Valid() && Foot() <= old(Foot())
      ensures n < |old(rq)| && rq == if ispeek then old(rq) else Rest(old(rq), n)
      ensures mem.alive == if ispeek then old(mem.alive) else old(mem.alive) - Nodes(old(rq)[1..1 + n])
      ensures var v := old(view);
              && n == MergeCount(v.rcvQueue) && data == Payload(v.rcvQueue[..n])
              && view == v.(rcvQueue := if ispeek then v.rcvQueue else v.rcvQueue[n..])
    {
      hide Ring, Segs, Wrap, List, Owned, Holding, Distinct, Rest, MergeCount, Payload;
      Parts({});
      RcvQueueApart({});
      ghost var r := rq;
      ListParts(r, rcvQueue, view.rcvQueue);
      var count: int;
      ghost var gone;
      data, count, gone := Iqueue.Merge(rcvQueue, ispeek, mem, r);
      assert List(sq, sndQueue, view.sndQueue) && List(sb, sndBuf, view.sndBuf) && List(rb, rcvBuf, view.rcvBuf);
      n := count;
      if ispeek {
        assert mem.alive == old(mem.alive);
        IsList(r, rcvQueue);
        Relist(sq, r, sb, rb, view, {});
      } else {
        RestSize(r, count);
        NodesRest(r, count);
        OwnedLess(Nodes(sq), Nodes(r), Nodes(sb), Nodes(rb), Heads(), {}, old(mem.alive), gone);
        IsList(Rest(r, count), rcvQueue);
        nrcvQue := nrcvQue - count;
        Relist(sq, Rest(r, count), sb, rb, view.(rcvQueue := view.rcvQueue[count..]), {});
      }
    }

    // ---------- ikcp_flush ----------

    /** The admission loop: segments move from `snd_queue` to `snd_buf`, and are numbered in place. */
    method AdmitAll(una: u32, nxt: u32, cwnd: u32, st: Stamp) returns (nxt': u32, ghost moved: nat)
      requires Valid()
      modifies this`nsndQue, this`nsndBuf, this`sq, this`rq, this`sb, this`rb, this`view
      modifies Nodes(sq)`next, Nodes(sq)`prev, Nodes(sb)`next, Nodes(sb)`prev, Nodes(sq)`seg
      ensures Valid() && Foot() == old(Foot())
      ensures moved < |old(sq)| && sq == Rest(old(sq), moved) && sb == Joined(old(sq), old(sb), moved)
      ensures view == old(view).(sndQueue := view.sndQueue, sndBuf := view.sndBuf)
      ensures Snd(una, nxt', view.sndQueue, view.sndBuf)
           == Admit(old(Snd(una, nxt, view.sndQueue, view.sndBuf)), cwnd, st)
    {
      hide Ring, Segs, Wrap, List, Owned, Holding, Distinct, Rest, Joined, Admit;
      Parts({});
      SndQueueApart({});
      SndBufApart({});
      ghost var r, t := sq, sb;
      ListParts(r, sndQueue, view.sndQueue);
      ListParts(t, sndBuf, view.sndBuf);
      var n: int;
      nxt', n := Iqueue.AdmitAll(sndQueue, sndBuf, una, nxt, cwnd, st, r, t);
      assert List(rq, rcvQueue, view.rcvQueue) && List(rb, rcvBuf, view.rcvBuf);
      Shared(r, t, n);
      OwnedMoved(Nodes(r), Nodes(rq), Nodes(t), Nodes(rb), Heads(), mem.alive, Nodes(Rest(r, n)),
                 Nodes(Joined(r, t, n)));
      WrapAdd(|r| - 1, -n);
      WrapAdd(|t| - 1, n);
      IsList(Rest(r, n), sndQueue);
      IsList(Joined(r, t, n), sndBuf);
      moved := n;
      nsndQue := Wrap(nsndQue - n);
      nsndBuf := Wrap(nsndBuf + n);
      Relist(Rest(r, n), rq, Joined(r, t, n), rb,
             view.(sndQueue := Segs(Rest(r, n)), sndBuf := Segs(Joined(r, t, n))), {});
    }

    /** The sending loop writes into segment `k` of `snd_buf`. */
    method WriteSnd(p: Node, s: Segment, ghost k: nat)
      requires Valid() && 0 < k < |sb| && sb[k] == p
      modifies this`sq, this`rq, this`sb, this`rb, this`view, p`seg
      ensures Valid() && Foot() == old(Foot()) && sb == old(sb)
      ensures k <= |old(view).sndBuf| && view == old(view).(sndBuf := old(view).sndBuf[k - 1 := s])
    {
      hide Ring, Segs, Wrap, List, Owned, Holding, Distinct;
      Parts({});
      SndBufApart({});
      ListParts(sb, sndBuf, view.sndBuf);
      InNodes(sb);
      Iqueue.Write(p, s, sb, k);
      assert List(sq, sndQueue, view.sndQueue) && List(rq, rcvQueue, view.rcvQueue) && List(rb, rcvBuf, view.rcvBuf);
      IsList(sb, sndBuf);
      Relist(sq, rq, sb, rb, view.(sndBuf := view.sndBuf[k - 1 := s]), {});
    }

    // ---------- ikcp_send ----------

    /** The last queued segment is replaced by a new one and deleted. */
    method ReplaceQueued(s: Segment)
      requires Valid() && view.sndQueue != []
      modifies this`sq, this`rq, this`sb, this`rb, this`view, mem, Nodes(sq)`next, Nodes(sq)`prev
      ensures Valid() && |sq| == |old(sq)| > 0 && sq[..|sq| - 1] == old(sq)[..|sq| - 1]
      ensures var last, last' := old(sq)[|sq| - 1], sq[|sq| - 1];
              && fresh(last') && mem.alive == old(mem.alive) + {last'} - {last}
                && Foot() == old(Foot()) + {last'} - {last}
      ensures var b := old(view).sndQueue; view == old(view).(sndQueue := b[..|b| - 1] + [s])
    {
      hide Ring, Segs, Wrap, List, Owned, Holding, Distinct;
      Parts({});
      SndQueueApart({});
      ghost var r := sq;
      ListParts(r, sndQueue, view.sndQueue);
      IsHead(r, |r| - 1);
      InNodes(r);
      var node := ReplaceLast(sndQueue, s, mem, r);
      assert List(rq, rcvQueue, view.rcvQueue) && List(sb, sndBuf, view.sndBuf) && List(rb, rcvBuf, view.rcvBuf);
      ghost var r' := r[..|r| - 1] + [node];
      OwnedMore(Nodes(r), Nodes(rq), Nodes(sb), Nodes(rb), Heads(), old(mem.alive), {node});
      OwnedLess(Nodes(r) + {node}, Nodes(rq), Nodes(sb), Nodes(rb), Heads(), {}, old(mem.alive) + {node}, {r[|r| - 1]});
      IsList(r', sndQueue);
      Relist(r', rq, sb, rb, view.(sndQueue := Segs(r')), {});
    }

    /** Stream mode: the last queued segment is replaced by a fuller one; `rest` is what did not fit. */
    method FillLast(data: Bytes, mss: u32) returns (rest: Bytes)
      requires Valid()
      modifies this`sq, this`rq, this`sb, this`rb, this`view, mem, Nodes(sq)`next, Nodes(sq)`prev
      ensures Valid() && fresh(Foot() - old(Foot()))
      ensures |sq| == |old(sq)| > 0 && sq[..|sq| - 1] == old(sq)[..|sq| - 1]
      ensures var last, last' := old(sq)[|sq| - 1], sq[|sq| - 1];
              && (last' == last || fresh(last'))
              && mem.alive == if last' == last then old(mem.alive) else old(mem.alive) + {last'} - {last}
      ensures view == old(view).(sndQueue := Fill(old(view).sndQueue, mss, data, true))
      ensures rest == data[TopUp(old(view).sndQueue, mss, |data|, true)..]
    {
      hide Ring, Segs, Wrap, List, Owned, Holding, Distinct, Fill, TopUp;
      rest := data;
      Parts({});
      ListParts(sq, sndQueue, view.sndQueue);
      Neighbours(sq, 0);
      FillIs(view.sndQueue, mss, data);
      if sndQueue != sndQueue.next {
        SegsAt(sq, |sq| - 1);
        var last := sndQueue.prev.seg;
        if |last.data| < mss {
          var capacity := mss - |last.data|;
          var extend := if |data| < capacity then |data| else capacity;
          ReplaceQueued(NewSegment(0, last.data + data[..extend]));
          rest := data[extend..];
        }
      }
    }

    /** The fragmentation loop. */
    method AppendAll(data: Bytes, mss: u32, count: nat, stream: bool) returns (ghost made: set<Node>)
      requires Valid() && count < WND_RCV
      modifies this`nsndQue, this`sq, this`rq, this`sb, this`rb, this`view, mem, Nodes(sq)`next, Nodes(sq)`prev
      ensures Valid() && Foot() == old(Foot()) + made && fresh(made) && mem.alive == old(mem.alive) + made
              && old(sq) <= sq
      ensures view == old(view).(sndQueue := old(view).sndQueue + Cut(data, mss, count, stream))
    {
      hide Ring, Segs, Wrap, List, Owned, Holding, Distinct, Cut;
      Parts({});
      SndQueueApart({});
      ghost var r := sq;
      ListParts(r, sndQueue, view.sndQueue);
      ghost var r';
      r', made := Fragment(sndQueue, data, mss, count, stream, mem, r);
      assert List(rq, rcvQueue, view.rcvQueue) && List(sb, sndBuf, view.sndBuf) && List(rb, rcvBuf, view.rcvBuf);
      OwnedMore(Nodes(r), Nodes(rq), Nodes(sb), Nodes(rb), Heads(), old(mem.alive), made);
      WrapAdd(|r| - 1, count);
      IsList(r', sndQueue);
      nsndQue := Wrap(nsndQue + count);
      Relist(r', rq, sb, rb, view.(sndQueue := view.sndQueue + Cut(data, mss, count, stream)), {});
    }

    // ---------- ikcp_release ----------

    method ClearSndBuf()
      requires Valid()
      modifies this`nsndBuf, this`sq, this`rq, this`sb, this`rb, this`view, mem, Nodes(sb)`next, Nodes(sb)`prev
      ensures Valid() && Foot() <= old(Foot()) && view == old(view).(sndBuf := [])
    {
      hide Ring, Segs, Wrap, List, Owned, Holding, Distinct;
      Parts({});
      SndBufApart({});
      ghost var r := sb;
      ListParts(r, sndBuf, view.sndBuf);
      InNodes(r);
      ghost var gone := Clear(sndBuf, mem, r);
      assert List(sq, sndQueue, view.sndQueue) && List(rq, rcvQueue, view.rcvQueue) && List(rb, rcvBuf, view.rcvBuf);
      NodesOne(sndBuf);
      OwnedLess(Nodes(sq), Nodes(rq), Nodes(r), Nodes(rb), Heads(), {}, old(mem.alive), gone);
      IsList([sndBuf], sndBuf);
      WrapIs(0, 0);
      nsndBuf := 0;
      Relist(sq, rq, [sndBuf], rb, view.(sndBuf := []), {});
    }

    method ClearRcvBuf()
      requires Valid()
      modifies this`nrcvBuf, this`sq, this`rq, this`sb, this`rb, this`view, mem, Nodes(rb)`next, Nodes(rb)`prev
      ensures Valid() && Foot() <= old(Foot()) && view == old(view).(rcvBuf := [])
    {
      hide Ring, Segs, Wrap, List, Owned, Holding, Distinct;
      Parts({});
      RcvBufApart({});
      ghost var r := rb;
      ListParts(r, rcvBuf, view.rcvBuf);
      InNodes(r);
      ghost var gone := Clear(rcvBuf, mem, r);
      assert List(sq, sndQueue, view.sndQueue) && List(rq, rcvQueue, view.rcvQueue) && List(sb, sndBuf, view.sndBuf);
      NodesOne(rcvBuf);
      OwnedLess(Nodes(sq), Nodes(rq), Nodes(sb), Nodes(r), Heads(), {}, old(mem.alive), gone);
      IsList([rcvBuf], rcvBuf);
      WrapIs(0, 0);
      nrcvBuf := 0;
      Relist(sq, rq, sb, [rcvBuf], view.(rcvBuf := []), {});
    }

    method ClearSndQueue()
      requires Valid()
      modifies this`nsndQue, this`sq, this`rq, this`sb, this`rb, this`view, mem, Nodes(sq)`next, Nodes(sq)`prev
      ensures Valid() && Foot() <= old(Foot()) && view == old(view).(sndQueue := [])
    {
      hide Ring, Segs, Wrap, List, Owned, Holding, Distinct;
      Parts({});
      SndQueueApart({});
      ghost var r := sq;
      ListParts(r, sndQueue, view.sndQueue);
      InNodes(r);
      ghost var gone := Clear(sndQueue, mem, r);
      assert List(rq, rcvQueue, view.rcvQueue) && List(sb, sndBuf, view.sndBuf) && List(rb, rcvBuf, view.rcvBuf);
      NodesOne(sndQueue);
      OwnedLess(Nodes(r), Nodes(rq), Nodes(sb), Nodes(rb), Heads(), {}, old(mem.alive), gone);
      IsList([sndQueue], sndQueue);
      WrapIs(0, 0);
      nsndQue := 0;
      Relist([sndQueue], rq, sb, rb, view.(sndQueue := []), {});
    }

    method ClearRcvQueue()
      requires Valid()
      modifies this`nrcvQue, this`sq, this`rq, this`sb, this`rb, this`view, mem, Nodes(rq)`next, Nodes(rq)`prev
      ensures Valid() && Foot() <= old(Foot()) && view == old(view).(rcvQueue := [])
    {
      hide Ring, Segs, Wrap, List, Owned, Holding, Distinct;
      Parts({});
      RcvQueueApart({});
      ghost var r := rq;
      ListParts(r, rcvQueue, view.rcvQueue);
      InNodes(r);
      ghost var gone := Clear(rcvQueue, mem, r);
      assert List(sq, sndQueue, view.sndQueue) && List(sb, sndBuf, view.sndBuf) && List(rb, rcvBuf, view.rcvBuf);
      NodesOne(rcvQueue);
      OwnedLess(Nodes(sq), Nodes(r), Nodes(sb), Nodes(rb), Heads(), {}, old(mem.alive), gone);
      IsList([rcvQueue], rcvQueue);
      WrapIs(0, 0);
      nrcvQue := 0;
      Relist(sq, [rcvQueue], sb, rb, view.(rcvQueue := []), {});
    }

    /** The loops of `ikcp_release`: no segment is left. */
    method Release()
      requires Valid()
      modifies this, mem, Foot()
      ensures Valid() && mem.alive == {} && view == View([], [], [], [])
    {
      hide Valid;
      ClearSndBuf();
      ClearRcvBuf();
      ClearSndQueue();
      ClearRcvQueue();
      NoneLeft();
    }

    lemma {:induction false} NoneLeft()
      requires Valid() && view == View([], [], [], [])
      ensures mem.alive == {}
    {
      hide Ring, Segs, Wrap, List;
      Parts({});
      ListParts(sq, sndQueue, []);
      ListParts(rq, rcvQueue, []);
      ListParts(sb, sndBuf, []);
      ListParts(rb, rcvBuf, []);
      assert sq == [sndQueue] && rq == [rcvQueue] && sb == [sndBuf] && rb == [rcvBuf];
    }

    // ---------- reading ----------

    lemma {:induction false} Counters()
      requires Valid()
      ensures nsndQue == Wrap(|view.sndQueue|) && nrcvQue == |view.rcvQueue|
      ensures nsndBuf == Wrap(|view.sndBuf|) && nrcvBuf == Wrap(|view.rcvBuf|)
    {
      hide Wrap, List, Owned;
    }

    /** Entry `k` of `snd_buf`, or for 0 its head, and what follows it. */
    lemma {:induction false} SndAt(k: nat)
      requires Valid() && (k == 0 || k < |sb|)
      ensures k < |sb|
      ensures |view.sndBuf| == |sb| - 1 && sb[k].next == (if k + 1 < |sb| then sb[k + 1] else sndBuf)
      ensures (sb[k] == sndBuf <==> k == 0) && (k > 0 ==> sb[k].seg == view.sndBuf[k - 1]) && sb[0] == sndBuf
    {
      hide Ring, Segs, Wrap, List, Owned, Holding, Distinct;
      Parts({});
      ListParts(sb, sndBuf, view.sndBuf);
      Neighbours(sb, k);
      IsHead(sb, k);
      if k > 0 {
        SegsAt(sb, k);
      }
    }

    method NothingToRead() returns (empty: bool)
      requires Valid()
      ensures empty <==> view.rcvQueue == []
    {
      hide Ring, Segs, Wrap, List, Owned, Holding, Distinct;
      Parts({});
      ListParts(rq, rcvQueue, view.rcvQueue);
      empty := IsEmpty(rcvQueue, rq);
    }

    /** `ikcp_shrink_buf`: the first unacknowledged number. */
    method FirstUnacked(nxt: u32) returns (una: u32)
      requires Valid()
      ensures una == if view.sndBuf != [] then view.sndBuf[0].sn else nxt
    {
      hide Ring, Segs, Wrap, List, Owned, Holding, Distinct;
      Parts({});
      ListParts(sb, sndBuf, view.sndBuf);
      Neighbours(sb, 0);
      SegsSize(sb);
      var p := sndBuf.next;
      una := if p != sndBuf then p.seg.sn else nxt;
    }

    /** The loop of `ikcp_check`. */
    method NearestResend(now: u32) returns (tm: i32)
      requires Valid()
      ensures if tm > 0 then tm == NextResend(view.sndBuf, now) else NextResend(view.sndBuf, now) <= 0
    {
      hide Ring, Segs, Wrap, List, Owned, Holding, Distinct, NextResend;
      Parts({});
      ListParts(sb, sndBuf, view.sndBuf);
      tm := Iqueue.NearestResend(sndBuf, now, sb);
    }
  }

  /** The test that opens `ikcp_parse_data`. */
  ghost predicate Wanted(nxt: u32, wnd: u32, sn: u32) {
    TimeDiff(sn, Wrap(nxt + wnd)) < 0 && TimeDiff(sn, nxt) >= 0
  }

  lemma {:induction false} TakeDataIs(rcv: Rcv, wnd: u32, s: Segment)
    ensures TakeData(rcv, wnd, s) == if Wanted(rcv.nxt, wnd, s.sn) then Drain(rcv.(buf := Insert(rcv.buf, s)), wnd)
            else rcv
    ensures Wanted(rcv.nxt, wnd, s.sn) <==> TimeDiff(s.sn, Wrap(rcv.nxt + wnd)) < 0 && TimeDiff(s.sn, rcv.nxt) >= 0
  {
    hide Drain, Insert, TimeDiff, Wrap;
  }

  /** `r` is the list behind `head` and holds `segs`. */
  ghost predicate List(r: seq<Node>, head: Node, segs: seq<Segment>)
    reads Nodes(r)
  {
    Ring(r) && r[0] == head && Segs(r) == segs
  }

  lemma {:induction false} ListParts(r: seq<Node>, head: Node, segs: seq<Segment>)
    requires List(r, head, segs)
    ensures Ring(r) && r != [] && Distinct(r) && r[0] == head && Segs(r) == segs && |segs| == |r| - 1
  {
  }

  lemma {:induction false} IsList(r: seq<Node>, head: Node)
    requires Ring(r) && r != [] && r[0] == head
    ensures List(r, head, Segs(r)) && |Segs(r)| == |r| - 1
  {
  }

  lemma {:induction false} Alone(head: Node)
    requires head.next == head == head.prev
    ensures List([head], head, [])
  {
  }

  /** Four disjoint lists, of which the members other than their heads, and those in `loose`, are alive. */
  ghost predicate Owned(a: set<Node>, b: set<Node>, c: set<Node>, d: set<Node>, heads: set<Node>, loose: set<Node>,
                        alive: set<Node>)
  {
    a !! b !! c !! d !! loose && alive == (a + b + c + d) - heads + loose
  }

  lemma {:induction false} OwnedAtFirst(a: Node, b: Node, c: Node, d: Node)
    requires a != b && a != c && a != d && b != c && b != d && c != d
    ensures Owned(Nodes([a]), Nodes([b]), Nodes([c]), Nodes([d]), {a, b, c, d}, {}, {})
  {
    assert Nodes([a]) == {a} && Nodes([b]) == {b} && Nodes([c]) == {c} && Nodes([d]) == {d};
  }

  lemma {:induction false} NodesOne(a: Node)
    ensures Nodes([a]) == {a}
  {
  }

  /** Segments are taken out of one list and deleted. */
  lemma {:induction false} OwnedLess(a: set<Node>, b: set<Node>, c: set<Node>, d: set<Node>, heads: set<Node>,
                                     loose: set<Node>, alive: set<Node>, gone: set<Node>)
    requires Owned(a, b, c, d, heads, loose, alive) && gone !! heads
    ensures gone <= a ==> Owned(a - gone, b, c, d, heads, loose, alive - gone)
    ensures gone <= b ==> Owned(a, b - gone, c, d, heads, loose, alive - gone)
    ensures gone <= c ==> Owned(a, b, c - gone, d, heads, loose, alive - gone)
    ensures gone <= d ==> Owned(a, b, c, d - gone, heads, loose, alive - gone)
    ensures gone == loose ==> Owned(a, b, c, d, heads, {}, alive - gone)
  {
  }
  /** New segments, which are in no list yet or are all put into the first. */
  lemma {:induction false} OwnedMore(a: set<Node>, b: set<Node>, c: set<Node>, d: set<Node>, heads: set<Node>,
                                     alive: set<Node>, made: set<Node>)
    requires Owned(a, b, c, d, heads, {}, alive) && made !! a + b + c + d + heads
    ensures Owned(a, b, c, d, heads, made, alive + made) && Owned(a + made, b, c, d, heads, {}, alive + made)
  {
  }

  /** A loose segment is put into the last list. */
  lemma {:induction false} OwnedTaken(a: set<Node>, b: set<Node>, c: set<Node>, d: set<Node>, heads: set<Node>,
                                      alive: set<Node>, x: Node)
    requires Owned(a, b, c, d, heads, {x}, alive) && x !in heads
    ensures Owned(a, b, c, d + {x}, heads, {}, alive)
  {
  }

  /** Segments change between the two sending or the two receiving lists. */
  lemma {:induction false} OwnedMoved(a: set<Node>, b: set<Node>, c: set<Node>, d: set<Node>, heads: set<Node>,
                                      alive: set<Node>, x: set<Node>, y: set<Node>)
    requires Owned(a, b, c, d, heads, {}, alive) && x !! y
    ensures x + y == a + c ==> Owned(x, b, y, d, heads, {}, alive)
    ensures x + y == b + d ==> Owned(a, x, c, y, heads, {}, alive)
  {
  }

  lemma {:induction false} FillIs(queue: seq<Segment>, mss: u32, data: Bytes)
    ensures var last := |queue| - 1;
            if queue == [] || |queue[last].data| >= mss then
              Fill(queue, mss, data, true) == queue && data[TopUp(queue, mss, |data|, true)..] == data
            else
              var extend := if |data| < mss - |queue[last].data| then |data| else mss - |queue[last].data|;
              && Fill(queue, mss, data, true) == queue[..last] + [NewSegment(0, queue[last].data + data[..extend])]
              && TopUp(queue, mss, |data|, true) == extend
  {
  }

  lemma {:induction false} FillOff(queue: seq<Segment>, mss: u32, data: Bytes)
    ensures Fill(queue, mss, data, false) == queue && data[TopUp(queue, mss, |data|, false)..] == data
  {
  }

  lemma {:induction false} WithSize(r: seq<Node>, k: nat, node: Node)
    requires k < |r|
    ensures |With(r, k, node)| == |r| + 1 && With(r, k, node)[0] == r[0]
  {
  }

  lemma {:induction false} WithoutSize(r: seq<Node>, k: nat)
    requires 0 < k < |r|
    ensures |Without(r, k)| == |r| - 1 && Without(r, k)[0] == r[0] && Nodes(Without(r, k)) <= Nodes(r)
  {
  }
}
