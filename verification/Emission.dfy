/** What `ikcp_flush` puts on the wire: acknowledgements in push order, then the window commands,
    then the due segments of `snd_buf`, packed into datagrams that decode to exactly these. */
module Emission {
  import opened Serial
  import opened Seqs
  import opened Wire
  import opened Engine
  import opened SenderWindow
  import opened Receiver
  import opened Invariant

  /** An acknowledgement of a pending number, or a window command. */
  ghost predicate IsControl(s: Segment, k: Kcb) {
    && s.conv == k.cfg.conv && s.frg == 0 && s.data == [] && s.una == k.rcv.nxt
    && s.wnd == WndUnused(k.rcv, k.cfg.rcvWnd)
    && (s.cmd == CMD_ACK || s.cmd == CMD_WASK || s.cmd == CMD_WINS)
    && (s.cmd == CMD_ACK ==> exists i :: 0 <= i < |k.rcv.acks| && k.rcv.acks[i].sn == s.sn)
  }

  /** A segment of the send buffer, stamped with what the receiving half had in order. */
  ghost predicate IsData(s: Segment, k: Kcb, k': Kcb) {
    s in k'.snd.buf && s.una == k.rcv.nxt && s.wnd == WndUnused(k.rcv, k.cfg.rcvWnd)
  }

  /** The segments a flush of `k` emits, in order. */
  function Outgoing(k: Kcb): seq<Segment> {
    Control(Template(k), k.rcv.acks, ProbeTick(k.probe, k.rmtWnd, k.clock.current))
    + Due(PolicyOf(k), Admit(k.snd, SendWindow(k), StampOf(k)).buf)
  }

  lemma {:induction false} ControlShape(k: Kcb, p: Probe)
    ensures forall s :: s in Control(Template(k), k.rcv.acks, p) ==> IsControl(s, k)
  {
    var seg, acks := Template(k), AcksAs(Template(k), k.rcv.acks);
    var last := if acks == [] then seg else acks[|acks| - 1];
    assert last.cmd == CMD_ACK && last.conv == seg.conv && last.frg == 0 && last.data == [] && last.una == seg.una
        && last.wnd == seg.wnd;
    hide Template, AcksAs, WndUnused;
    forall s | s in acks ensures IsControl(s, k) {
      AckShape(k, s);
    }
    TemplateShape(k);
  }

  lemma {:induction false} TemplateShape(k: Kcb)
    ensures var t := Template(k);
            t.conv == k.cfg.conv && t.una == k.rcv.nxt && t.wnd == WndUnused(k.rcv, k.cfg.rcvWnd) && t.data == []
              && t.frg == 0
  {
  }

  lemma {:induction false} AckShape(k: Kcb, s: Segment)
    requires s in AcksAs(Template(k), k.rcv.acks)
    ensures IsControl(s, k)
  {
    hide WndUnused;
    var i :| 0 <= i < |k.rcv.acks| && AcksAs(Template(k), k.rcv.acks)[i] == s;
    assert k.rcv.acks[i].sn == s.sn;
  }

  lemma {:induction false} DueShape(p: Policy, buf: seq<Segment>)
    ensures forall s :: s in Due(p, buf) ==> s in TouchAll(p, buf) && s.una == p.st.una && s.wnd == p.st.wnd
  {
    hide BackOff, FateOf;
    if buf != [] {
      var n := |buf| - 1;
      DueShape(p, buf[..n]);
      TouchUna(p, buf[n]);
      hide Touch;
      var all, init := TouchAll(p, buf), TouchAll(p, buf[..n]);
      assert all == init + [Touch(p, buf[n])];
    }
  }

  lemma {:induction false} TouchUna(p: Policy, s: Segment)
    ensures FateOf(p, s) != Quiet ==> Touch(p, s).una == p.st.una && Touch(p, s).wnd == p.st.wnd
  {
    hide BackOff, FateOf;
  }

  lemma {:induction false} OutgoingShape(k: Kcb)
    requires k.clock.updated
    ensures forall s :: s in Outgoing(k) ==> IsControl(s, k) || IsData(s, k, Engine.Flush(k).k)
    ensures Engine.Flush(k).out == Pack(Outgoing(k), k.cfg.mtu)
  {
    var snd := Admit(k.snd, SendWindow(k), StampOf(k));
    ControlShape(k, ProbeTick(k.probe, k.rmtWnd, k.clock.current));
    DueShape(PolicyOf(k), snd.buf);
    FlushShape(k);
    FlushOut(k);
    assert PolicyOf(k).st.una == k.rcv.nxt && PolicyOf(k).st.wnd == WndUnused(k.rcv, k.cfg.rcvWnd);
    hide Engine.Flush, Control, Due, TouchAll, Admit, PolicyOf, SendWindow, ProbeTick, IsControl, WndUnused;
  }

  lemma {:induction false} FlushOut(k: Kcb)
    requires k.clock.updated
    ensures Engine.Flush(k).out == Pack(Outgoing(k), k.cfg.mtu)
  {
    hide Pack, Control, Due, Admit, SendWindow, ProbeTick, AfterFlush, Fated, TouchAll;
  }

  /** Every segment a flush emits can be decoded by the peer and fits a datagram. */
  lemma {:induction false} OutgoingFits(k: Kcb)
    requires Inv(k) && k.clock.updated
    ensures forall s :: s in Outgoing(k) ==>
              Sendable(k.cfg.conv, s) && OVERHEAD + |s.data| <= k.cfg.mtu && s.frg < WND_RCV
  {
    OutgoingShape(k);
    FlushInv(k);
    FlushShape(k);
    hide Engine.Flush, Outgoing, Window, Good, RttInv, Admit, TouchAll;
  }

  /** Packing and parsing undo each other: the datagrams of a flush are each non-empty, within the
      MTU, and decode to the segments it meant to send, in order. */
  lemma {:induction false} FlushDecodes(k: Kcb)
    requires Inv(k) && k.clock.updated
    ensures var out := Engine.Flush(k).out;
            && Flatten(out) == Outgoing(k)
            && (forall g :: g in out ==> 0 < |EncodeAll(g)| <= k.cfg.mtu)
            && (forall g :: g in out ==> Parse(k.cfg.conv, EncodeAll(g)) == Parsed(AllOnWire(g), 0))
            && (forall g, s :: g in out && s in g ==> s in Outgoing(k))
  {
    OutgoingFits(k);
    FlushOut(k);
    var out := Engine.Flush(k).out;
    hide Engine.Flush, Outgoing, EncodeAll, Parse, AllOnWire, Flatten, Pack, Inv, Sendable;
    PackRoundTrip(k.cfg.conv, Outgoing(k), k.cfg.mtu);
    forall g, s | g in out && s in g ensures s in Outgoing(k) {
      var i :| 0 <= i < |out| && out[i] == g;
      InFlatten(out, i, s);
    }
  }

  /** None of these datagrams ends where the next segment would still have had room. */
  lemma {:induction false} FlushPacks(k: Kcb)
    requires Inv(k) && k.clock.updated
    ensures var out := Engine.Flush(k).out;
            forall i :: 0 < i < |out| ==>
              out[i] != [] && |EncodeAll(out[i - 1])| + OVERHEAD + |out[i][0].data| > k.cfg.mtu
  {
    hide Engine.Flush, Outgoing, EncodeAll, Pack, Inv, Sendable;
    OutgoingFits(k);
    FlushOut(k);
    PackIsGreedy(Outgoing(k), k.cfg.mtu);
  }

  // ---------- as the peer sees it ----------

  /** What the decoder of an endpoint reads from the datagrams, one after another. */
  function Decoded(conv: u32, datagrams: seq<Bytes>): seq<Segment> {
    if datagrams == [] then []
    else Decoded(conv, datagrams[..|datagrams| - 1]) + Parse(conv, datagrams[|datagrams| - 1]).segs
  }

  lemma {:induction false} DecodedGroups(conv: u32, groups: seq<seq<Segment>>)
    requires forall g :: g in groups ==> Parse(conv, EncodeAll(g)) == Parsed(AllOnWire(g), 0)
    ensures Decoded(conv, EncodeGroups(groups)) == AllOnWire(Flatten(groups))
  {
    hide Parse, EncodeAll, OnWire;
    if groups == [] {
      assert EncodeGroups(groups) == [] && AllOnWire([]) == [];
    } else {
      var last := |groups| - 1;
      var g, init := groups[last], groups[..last];
      assert g in groups && forall h :: h in init ==> h in groups;
      DecodedGroups(conv, init);
      assert EncodeGroups(groups)[..last] == EncodeGroups(init) && EncodeGroups(groups)[last] == EncodeAll(g);
      AllOnWireAppend(Flatten(init), g);
    }
  }

  lemma {:induction false} AllOnWireAppend(a: seq<Segment>, b: seq<Segment>)
    ensures AllOnWire(a + b) == AllOnWire(a) + AllOnWire(b)
  {
    hide OnWire;
  }

  /** The peer reads from a flush exactly the segments it meant to send, in order. */
  lemma {:induction false} FlushDecoded(k: Kcb)
    requires Inv(k) && k.clock.updated
    ensures Decoded(k.cfg.conv, EncodeGroups(Engine.Flush(k).out)) == AllOnWire(Outgoing(k))
  {
    hide Engine.Flush, Parse, EncodeAll, Inv, Outgoing, OnWire;
    FlushDecodes(k);
    DecodedGroups(k.cfg.conv, Engine.Flush(k).out);
  }

  /** The acknowledgement whose number and time the window commands repeat. */
  function LastAck(acks: seq<Ack>): Ack {
    if acks == [] then Ack(0, 0) else acks[|acks| - 1]
  }

  lemma {:induction false} ControlLayout(seg: Segment, acks: seq<Ack>, p: Probe)
    requires seg.cmd == CMD_ACK && seg.frg == 0 && seg.data == [] && seg.sn == 0 && seg.ts == 0
    ensures var c, n := Control(seg, acks, p), |acks|;
            && (forall i :: 0 <= i < |c| ==> c[i].frg == 0 && c[i].data == [])
            && (forall i :: n <= i < |c| ==> c[i].sn == LastAck(acks).sn && c[i].ts == LastAck(acks).ts)
            && |c| == n + (if p.ask then 1 else 0) + (if p.tell then 1 else 0)
            && (forall i :: 0 <= i < n ==> c[i].cmd == CMD_ACK && c[i].sn == acks[i].sn && c[i].ts == acks[i].ts)
            && (p.ask ==> c[n].cmd == CMD_WASK)
            && (p.tell ==> c[|c| - 1].cmd == CMD_WINS)
  {
  }

  lemma {:induction false} FreeIs(rcv: Rcv, wnd: u32)
    ensures WndUnused(rcv, wnd) == Max(0, wnd - |rcv.queue|)
  {
  }

  /** The timer of an open question has run out. */
  predicate ProbeDue(k: Kcb) {
    k.rmtWnd == 0 && k.probe.wait != 0 && TimeDiff(k.clock.current, k.probe.tsProbe) >= 0
  }

  lemma {:induction false} AskIs(k: Kcb)
    ensures var p := ProbeTick(k.probe, k.rmtWnd, k.clock.current);
            p.tell == k.probe.tell && (p.ask <==> k.probe.ask || ProbeDue(k))
  {
    hide TimeDiff, Wrap;
  }

  /** What the peer reads: the pending acknowledgements in push order, the window question if it is due,
      the window announcement if it was asked for, then data. The window commands repeat the number and time of the
      last acknowledgement. Each segment carries `rcv_nxt`, and as much of the free window as 16 bits hold. */
  lemma {:induction false} FlushOnWire(k: Kcb)
    requires Inv(k) && k.clock.updated
    ensures var d, acks := Decoded(k.cfg.conv, EncodeGroups(Engine.Flush(k).out)), k.rcv.acks;
            var n, ask := |acks|, k.probe.ask || ProbeDue(k);
            var m := n + (if ask then 1 else 0) + (if k.probe.tell then 1 else 0);
            && m <= |d|
            && (forall i :: 0 <= i < n ==> d[i].cmd == CMD_ACK && d[i].sn == acks[i].sn && d[i].ts == acks[i].ts)
            && (ask ==> d[n].cmd == CMD_WASK)
            && (k.probe.tell ==> d[m - 1].cmd == CMD_WINS)
            && (forall i :: 0 <= i < m ==> d[i].frg == 0 && d[i].data == [])
            && (forall i :: n <= i < m ==> d[i].sn == LastAck(acks).sn && d[i].ts == LastAck(acks).ts)
            && (forall i :: m <= i < |d| ==> d[i].cmd == CMD_PUSH)
            && (forall i :: 0 <= i < |d| ==>
                  d[i].una == k.rcv.nxt && d[i].wnd == Max(0, k.cfg.rcvWnd - |k.rcv.queue|) % 0x1_0000)
  {
    hide Parse, EncodeAll, Flatten, Inv, Due, Admit, SendWindow, StampOf, PolicyOf, ProbeTick, WndUnused, Template,
         Control, Engine.Flush, ProbeDue;
    FreeIs(k.rcv, k.cfg.rcvWnd);
    AskIs(k);
    FlushDecoded(k);
    DataCommands(k);
    UnaAndWindow(k);
    TemplateCmd(k);
    ControlLayout(Template(k), k.rcv.acks, ProbeTick(k.probe, k.rmtWnd, k.clock.current));
  }

  /** What was announced is no longer pending; nothing else of the receiving half changes. */
  lemma {:induction false} FlushClears(k: Kcb)
    requires k.clock.updated
    ensures var k' := Engine.Flush(k).k;
            k'.rcv == k.rcv.(acks := []) && !k'.probe.ask && !k'.probe.tell
  {
    FlushShape(k);
    hide Pack, Control, Due, Admit, SendWindow, ProbeTick, AfterFlush, Fated, TouchAll, StampOf, PolicyOf, AnyDead,
         Template, Wrap;
  }

  /** Each segment of a flush announces the free window as it is if and only if that is below 65536. With a
      receive window of 65536 and an empty queue it announces 0. */
  lemma {:induction false} WindowArrivesIff(k: Kcb)
    requires Inv(k) && k.clock.updated
    ensures var d := Decoded(k.cfg.conv, EncodeGroups(Engine.Flush(k).out));
            var free := Max(0, k.cfg.rcvWnd - |k.rcv.queue|);
            forall i :: 0 <= i < |d| ==>
              && (d[i].wnd == free <==> free < 0x1_0000)
              && (k.cfg.rcvWnd == 0x1_0000 && k.rcv.queue == [] ==> d[i].wnd == 0)
  {
    hide Decoded, Inv, Engine.Flush, ProbeDue;
    FlushOnWire(k);
  }

  lemma {:induction false} UnaAndWindow(k: Kcb)
    requires k.clock.updated
    ensures forall i :: 0 <= i < |Outgoing(k)| ==>
              Outgoing(k)[i].una == k.rcv.nxt && Outgoing(k)[i].wnd == WndUnused(k.rcv, k.cfg.rcvWnd)
  {
    OutgoingShape(k);
    hide Engine.Flush, Outgoing, WndUnused;
    forall i | 0 <= i < |Outgoing(k)|
      ensures Outgoing(k)[i].una == k.rcv.nxt && Outgoing(k)[i].wnd == WndUnused(k.rcv, k.cfg.rcvWnd)
    {
      assert Outgoing(k)[i] in Outgoing(k);
    }
  }

  lemma {:induction false} TemplateCmd(k: Kcb)
    ensures var t := Template(k); t.cmd == CMD_ACK && t.frg == 0 && t.data == [] && t.sn == 0 && t.ts == 0
  {
  }

  lemma {:induction false} DataCommands(k: Kcb)
    requires Inv(k) && k.clock.updated
    ensures forall s :: s in Due(PolicyOf(k), Admit(k.snd, SendWindow(k), StampOf(k)).buf) ==> s.cmd == CMD_PUSH
  {
    FlushInv(k);
    FlushShape(k);
    DueShape(PolicyOf(k), Admit(k.snd, SendWindow(k), StampOf(k)).buf);
    hide Engine.Flush, Window, Good, RttInv, Admit, TouchAll, Due, SendWindow, StampOf, PolicyOf;
  }
}
