/** Sessions of up to 2^31 fragments in each direction need no bound on the age of datagrams. */
module Sessions {
  import opened Serial
  import opened Engine
  import opened SenderWindow
  import opened Receiver
  import opened Invariant
  import opened Delivery
  import opened Network
  import opened Safety

  /** Any call at either endpoint after any other; every datagram ever emitted may be delivered at any
      time, any number of times. */
  ghost predicate LooseRun(ws: seq<World>) {
    ws != [] && Init(ws[0]) && forall i :: 0 <= i < |ws| - 1 ==> LooseTransition(ws[i], ws[i + 1])
  }

  ghost predicate Short(w: World) {
    |w.a.sent| <= TWO31 && |w.b.sent| <= TWO31
  }

  /** The numbers noted on datagrams are numbers of fragments. */
  ghost predicate Dated(net: set<Packet>) {
    forall p :: p in net ==> p.una >= 0 && p.floor >= 0
  }

  ghost predicate WorldDated(w: World) {
    w.a.floor >= 0 && w.b.floor >= 0 && Dated(w.ab) && Dated(w.ba)
  }

  lemma {:induction false} ActDates(x: Node, y: Node, xy: set<Packet>, yx: set<Packet>, e: Event)
    requires Linked(Act(x, e).0, y, xy, yx)
    requires x.floor >= 0 && (e.Deliver? ==> e.p.una >= 0)
    ensures Act(x, e).0.floor >= 0 && Dated(Act(x, e).1) && |x.sent| <= |Act(x, e).0.sent|
  {
    var x' := Act(x, e).0;
    assert SndOk(x'.k.snd, x'.sent) by {
      hide Inv, Readable, SndOk, RcvOk, Covered, AcksTrue, FwdOk, BwdOk, Act;
    }
    hide Linked, Window, Off, Engine.Flush, Engine.Update, Engine.Send, Engine.Recv, Engine.Input;
  }

  lemma {:induction false} SentGrows(x: Node, e: Event)
    ensures |x.sent| <= |Act(x, e).0.sent|
  {
    hide Engine.Flush, Engine.Update, Engine.Send, Engine.Recv, Engine.Input;
  }

  lemma {:induction false} LooseGrows(w: World, w': World)
    requires LooseTransition(w, w')
    ensures |w.a.sent| <= |w'.a.sent| && |w.b.sent| <= |w'.b.sent|
  {
    hide Act;
    var e: Event :| CallAtA(w, e, w') || CallAtB(w, e, w');
    SentGrows(w.a, e);
    SentGrows(w.b, e);
  }

  lemma {:induction false} RunGrows(ws: seq<World>, i: nat, j: nat)
    requires LooseRun(ws) && i <= j < |ws|
    ensures |ws[i].a.sent| <= |ws[j].a.sent| && |ws[i].b.sent| <= |ws[j].b.sent|
  {
    hide LooseTransition, Init;
    if i < j {
      RunGrows(ws, i, j - 1);
      assert LooseTransition(ws[j - 1], ws[(j - 1) + 1]);
      LooseGrows(ws[j - 1], ws[j]);
    }
  }

  /** In a short session every datagram is timely. */
  lemma {:induction false} ShortStep(w: World, w': World)
    requires WorldInv(w) && WorldDated(w) && Short(w) && LooseTransition(w, w')
    ensures Transition(w, w') && WorldDated(w')
  {
    hide Linked, Act;
    var e: Event :| CallAtA(w, e, w') || CallAtB(w, e, w');
    if CallAtA(w, e, w') {
      assert StepAtA(w, e, w');
    } else {
      assert StepAtB(w, e, w');
    }
    StepKeepsInv(w, w');
    if CallAtA(w, e, w') {
      ActDates(w.a, w.b, w'.ab, w'.ba, e);
    } else {
      LinkedBothWays(w'.a, w'.b, w'.ab, w'.ba);
      ActDates(w.b, w.a, w'.ba, w'.ab, e);
    }
  }

  lemma {:induction false} ShortPrefix(ws: seq<World>, i: nat)
    requires LooseRun(ws) && i < |ws| && Short(ws[|ws| - 1])
    ensures Run(ws[..i + 1]) && WorldDated(ws[i])
  {
    hide Transition, LooseTransition, Linked;
    if i == 0 {
      assert ws[..1][0] == ws[0];
    } else {
      ShortPrefix(ws, i - 1);
      hide Init;
      RunKeepsInv(ws[..i], i - 1);
      RunGrows(ws, i - 1, |ws| - 1);
      assert LooseTransition(ws[i - 1], ws[(i - 1) + 1]);
      ShortStep(ws[i - 1], ws[i]);
      var before, now := ws[..i], ws[..i + 1];
      forall j | 0 <= j < |now| - 1 ensures Transition(now[j], now[j + 1]) {
        if j < i - 1 {
          assert Transition(before[j], before[j + 1]);
        }
      }
    }
  }

  lemma {:induction false} ShortIsTimely(ws: seq<World>)
    requires LooseRun(ws) && Short(ws[|ws| - 1])
    ensures Run(ws)
  {
    hide Run;
    ShortPrefix(ws, |ws| - 1);
    assert ws[..|ws| - 1 + 1] == ws;
  }

  /** End-to-end safety of sessions of up to 2^31 fragments in each direction, with nothing assumed of
      the network but that it delivers only what was emitted. */
  lemma {:induction false} ShortSessionSafety(ws: seq<World>, i: nat)
    requires LooseRun(ws) && Short(ws[|ws| - 1]) && i < |ws|
    ensures InOrder(ws[i].a, ws[i].b) && InOrder(ws[i].b, ws[i].a)
  {
    hide Run, LooseRun, InOrder;
    ShortIsTimely(ws);
    EndToEndSafety(ws, i);
  }

  // ---------- what goes wrong with older datagrams ----------

  /** The receiver that is at number `r` takes a fragment numbered `n` into its window, but as another
      number, exactly if `n` lies in the window some full turns of the 32-bit numbers away. */
  lemma {:induction false} MisplacedIff(rcv: Rcv, wnd: u32, n: int, r: int)
    requires Good(rcv, wnd) && rcv.nxt == Wrap(r)
    ensures var sn := Wrap(n);
            && BelowWindowEnd(rcv, wnd, sn) && TimeDiff(sn, rcv.nxt) >= 0 && r + TimeDiff(sn, rcv.nxt) != n
            <==> exists k: int :: k != 0 && r <= Turned(n, k) < r + wnd
  {
    var sn, o := Wrap(n), Off(Wrap(n), rcv.nxt);
    WindowTests(rcv, wnd, sn);
    OffOfWraps(n, r);
    assert o < wnd ==> TimeDiff(sn, rcv.nxt) == o;
    hide BelowWindowEnd, TimeDiff, Off, Good;
    if o < wnd && r + o != n {
      var k := -((n - r) / TWO32);
      assert Turned(n, k) == r + o;
      assert k != 0;
    }
    if k: int :| k != 0 && r <= Turned(n, k) < r + wnd {
      WrapIs(n - r, k);
    }
  }

  /** The number that is `k` full turns after `n`. */
  function Turned(n: int, k: int): int {
    n + k * TWO32
  }

  /** The sender whose first unacknowledged number is `base` drops segments on a cumulative acknowledgement
      up to an older number `v`, which acknowledges none of them, exactly if `v` lies less than 2^31 beyond
      `base` some full turns away; so within one turn, exactly if `v` is more than 2^31 old. */
  lemma {:induction false} StaleUnaDropsIff(snd: Snd, base: int, v: int)
    requires Window(snd) && snd.buf != [] && snd.una == Wrap(base) && v <= base
    ensures var drops := TakeUna(snd, Wrap(v)).buf != snd.buf;
            && (drops <==> exists k: int :: base < Turned(v, k) < base + TWO31)
            && (base - TWO32 < v ==> (drops <==> v < base - TWO31))
  {
    var n := TakeUnaMeans(snd, Wrap(v));
    assert snd.buf[0].sn == snd.una && Off(snd.una, snd.una) == 0;
    assert n > 0 <==> TimeDiff(Wrap(v), snd.una) > 0;
    assert TakeUna(snd, Wrap(v)).buf == snd.buf <==> n == 0 by {
      hide TakeUna, Window, TimeDiff, Off;
      assert n == 0 ==> snd.buf[n..] == snd.buf;
    }
    hide TakeUna, Window;
    AheadIff(v, base);
    if k: int :| base < Turned(v, k) < base + TWO31 {
      assert base - TWO32 < v ==> k == 1;
    }
    if base - TWO32 < v < base - TWO31 {
      assert base < Turned(v, 1) < base + TWO31;
    }
  }

  lemma {:induction false} AheadIff(v: int, base: int)
    ensures TimeDiff(Wrap(v), Wrap(base)) > 0 <==> exists k: int :: base < Turned(v, k) < base + TWO31
  {
    OffOfWraps(v, base);
    var o := Wrap(v - base);
    assert TimeDiff(Wrap(v), Wrap(base)) == Signed(o);
    hide TimeDiff, Off;
    if 0 < o < TWO31 {
      var k := -((v - base) / TWO32);
      assert Turned(v, k) == base + o;
    }
    if k: int :| base < Turned(v, k) < base + TWO31 {
      WrapIs(v - base, k);
    }
  }
}
