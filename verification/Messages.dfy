/** Messages, the fragments they are cut into, and their reassembly. */
module Messages {
  import opened Serial
  import opened Seqs
  import opened Wire
  import opened Engine

  /** The part of a segment that carries a message: its fragment number and its bytes. */
  datatype Frag = Frag(frg: u32, data: Bytes)

  function Frags(segs: seq<Segment>): (f: seq<Frag>)
    ensures |f| == |segs|
  {
    seq(|segs|, i requires 0 <= i < |segs| => Frag(segs[i].frg, segs[i].data))
  }

  /** The fragments of one message. */
  function FragsOf(msg: Bytes, mss: u32): seq<Frag>
    requires mss > 0 && FragCount(|msg|, mss) < WND_RCV
  {
    Frags(Cut(msg, mss, FragCount(|msg|, mss), false))
  }

  /** Messages that `ikcp_send` can take. */
  ghost predicate Sendables(msgs: seq<Bytes>, mss: u32)
    requires mss > 0
  {
    forall i :: 0 <= i < |msgs| ==> FragCount(|msgs[i]|, mss) < WND_RCV
  }

  function AllFrags(msgs: seq<Bytes>, mss: u32): seq<Frag>
    requires mss > 0 && Sendables(msgs, mss)
  {
    if msgs == [] then [] else FragsOf(msgs[0], mss) + AllFrags(msgs[1..], mss)
  }

  function BytesOf(frags: seq<Frag>): Bytes {
    if frags == [] then [] else frags[0].data + BytesOf(frags[1..])
  }

  function Concat(msgs: seq<Bytes>): Bytes {
    if msgs == [] then [] else msgs[0] + Concat(msgs[1..])
  }

  lemma {:induction false} AllFragsAppend(a: seq<Bytes>, b: seq<Bytes>, mss: u32)
    requires mss > 0 && Sendables(a, mss) && Sendables(b, mss)
    ensures Sendables(a + b, mss) && AllFrags(a + b, mss) == AllFrags(a, mss) + AllFrags(b, mss)
  {
    var c := a + b;
    if a == [] {
      assert c == b;
    } else {
      hide FragsOf, FragCount;
      assert c[0] == a[0] && c[1..] == a[1..] + b;
      AllFragsAppend(a[1..], b, mss);
      Assoc(FragsOf(a[0], mss), AllFrags(a[1..], mss), AllFrags(b, mss));
    }
  }

  lemma {:induction false} AllFragsSnoc(msgs: seq<Bytes>, m: Bytes, mss: u32)
    requires mss > 0 && Sendables(msgs, mss) && FragCount(|m|, mss) < WND_RCV
    ensures Sendables(msgs + [m], mss) && AllFrags(msgs + [m], mss) == AllFrags(msgs, mss) + FragsOf(m, mss)
  {
    hide FragsOf, FragCount;
    AllFragsAppend(msgs, [m], mss);
    assert AllFrags([m], mss) == FragsOf(m, mss) + AllFrags([], mss);
    assert FragsOf(m, mss) + [] == FragsOf(m, mss);
  }

  lemma {:induction false} BytesOfAppend(a: seq<Frag>, b: seq<Frag>)
    ensures BytesOf(a + b) == BytesOf(a) + BytesOf(b)
  {
    var c := a + b;
    if a == [] {
      assert c == b;
    } else {
      assert c[0] == a[0] && c[1..] == a[1..] + b;
      BytesOfAppend(a[1..], b);
      Assoc(a[0].data, BytesOf(a[1..]), BytesOf(b));
    }
  }

  lemma {:induction false} ConcatAppend(a: seq<Bytes>, b: seq<Bytes>)
    ensures Concat(a + b) == Concat(a) + Concat(b)
  {
    var c := a + b;
    if a == [] {
      assert c == b;
    } else {
      assert c[0] == a[0] && c[1..] == a[1..] + b;
      ConcatAppend(a[1..], b);
      Assoc(a[0], Concat(a[1..]), Concat(b));
    }
  }

  lemma {:induction false} FragsAppend(a: seq<Segment>, b: seq<Segment>)
    ensures Frags(a + b) == Frags(a) + Frags(b)
  {
  }

  lemma {:induction false} PayloadIsBytesOf(segs: seq<Segment>)
    ensures Payload(segs) == BytesOf(Frags(segs))
  {
    if segs != [] {
      PayloadIsBytesOf(segs[1..]);
      assert Frags(segs)[1..] == Frags(segs[1..]);
    }
  }

  // ---------- one message ----------

  /** `count` segments of `mss` bytes hold the message, and no fewer do. */
  lemma {:induction false} FragCountFits(len: nat, mss: u32)
    requires mss > 0
    ensures var c := FragCount(len, mss);
            c >= 1 && len <= c * mss && (c > 1 ==> (c - 1) * mss < len)
  {
    var c := FragCount(len, mss);
    if len > mss {
      var x := len + mss - 1;
      assert c == x / mss && x == c * mss + x % mss;
      assert (c - 1) * mss == c * mss - mss;
    }
  }

  lemma {:induction false} CutCons(data: Bytes, mss: u32, count: nat, stream: bool)
    requires 0 < count < TWO32
    ensures var size := Min(|data|, mss);
            var c, head, rest := Cut(data, mss, count, stream),
              NewSegment(if stream then 0 else count - 1, data[..size]),
                                 Cut(data[size..], mss, count - 1, stream);
            c == [head] + rest && c[0] == head && c[1..] == rest && |c| == 1 + |rest|
  {
  }

  lemma {:induction false} CutNone(data: Bytes, mss: u32, stream: bool)
    ensures Cut(data, mss, 0, stream) == []
  {
  }

  lemma {:induction false} TimesLess(count: nat, mss: nat)
    requires count > 0
    ensures count * mss == (count - 1) * mss + mss && (count - 1) * mss >= 0
  {
  }

  lemma {:induction false} CutNumbers(data: Bytes, mss: u32, count: nat, stream: bool)
    requires count < TWO32
    ensures var c := Cut(data, mss, count, stream);
            && |c| == count
            && (forall i :: 0 <= i < count ==> c[i].frg == if stream then 0 else count - 1 - i)
  {
    hide Cut;
    if count == 0 {
      CutNone(data, mss, stream);
    } else {
      CutCons(data, mss, count, stream);
      CutNumbers(data[Min(|data|, mss)..], mss, count - 1, stream);
    }
  }

  lemma {:induction false} CutPayload(data: Bytes, mss: u32, count: nat, stream: bool)
    requires count < TWO32 && |data| <= count * mss
    ensures Payload(Cut(data, mss, count, stream)) == data
  {
    hide Cut, Payload;
    if count == 0 {
      CutNone(data, mss, stream);
      assert Payload([]) == [] by { PayloadNone(); }
      assert data == [];
    } else {
      var size := Min(|data|, mss);
      var c := Cut(data, mss, count, stream);
      CutCons(data, mss, count, stream);
      TimesLess(count, mss);
      CutPayload(data[size..], mss, count - 1, stream);
      PayloadCons(c);
      assert data[..size] + data[size..] == data;
    }
  }

  lemma {:induction false} PayloadNone()
    ensures Payload([]) == []
  {
  }

  lemma {:induction false} PayloadCons(segs: seq<Segment>)
    requires segs != []
    ensures Payload(segs) == segs[0].data + Payload(segs[1..])
  {
  }

  lemma {:induction false} CutSizes(data: Bytes, mss: u32, count: nat, stream: bool)
    requires 1 <= count < TWO32 && (count > 1 ==> (count - 1) * mss < |data|)
    ensures |Cut(data, mss, count, stream)| == count
    ensures forall i :: 0 <= i < count - 1 ==> |Cut(data, mss, count, stream)[i].data| == mss
  {
    hide Cut;
    CutNumbers(data, mss, count, stream);
    if count > 1 {
      TimesLess(count - 1, mss);
      CutCons(data, mss, count, stream);
      CutSizes(data[mss..], mss, count - 1, stream);
    }
  }

  /** Cutting: numbers descend to 0, every piece but the last is exactly `mss` long, and together
      the pieces are the message. */
  lemma {:induction false} CutIsWhole(data: Bytes, mss: u32, stream: bool)
    requires mss > 0 && FragCount(|data|, mss) < WND_RCV
    ensures var n := FragCount(|data|, mss);
            var c := Cut(data, mss, n, stream);
            && |c| == n >= 1
            && (forall i :: 0 <= i < n ==> c[i].frg == if stream then 0 else n - 1 - i)
            && (forall i :: 0 <= i < n - 1 ==> |c[i].data| == mss)
            && Payload(c) == data
  {
    var n := FragCount(|data|, mss);
    FragCountFits(|data|, mss);
    hide FragCount;
    CutNumbers(data, mss, n, stream);
    CutSizes(data, mss, n, stream);
    CutPayload(data, mss, n, stream);
  }

  lemma {:induction false} FragsOfShape(msg: Bytes, mss: u32)
    requires mss > 0 && FragCount(|msg|, mss) < WND_RCV
    ensures var f := FragsOf(msg, mss);
            && |f| == FragCount(|msg|, mss) >= 1
            && (forall i :: 0 <= i < |f| ==> f[i].frg == |f| - 1 - i)
            && BytesOf(f) == msg
  {
    CutIsWhole(msg, mss, false);
    hide FragCount;
    PayloadIsBytesOf(Cut(msg, mss, FragCount(|msg|, mss), false));
  }

  // ---------- the reader ----------

  /** Fragment numbers that descend to 0 at index `c - 1` make the merge loop take `c` segments. */
  lemma {:induction false} MergeCountAt(queue: seq<Segment>, c: nat)
    requires 1 <= c <= |queue|
    requires forall i :: 0 <= i < c ==> queue[i].frg == c - 1 - i
    ensures MergeCount(queue) == c
  {
    if c > 1 {
      assert forall i :: 0 <= i < c - 1 ==> queue[1..][i] == queue[i + 1];
      MergeCountAt(queue[1..], c - 1);
    }
  }

  /** A queue that starts at a message boundary: a message can be read exactly if all its segments
      are there, and then the merge loop takes these and no others. */
  lemma {:induction false} ReadBoundary(queue: seq<Segment>, msg: Bytes, rest: seq<Frag>, mss: u32)
    requires mss > 0 && FragCount(|msg|, mss) < WND_RCV
    requires queue != [] && Frags(queue) <= FragsOf(msg, mss) + rest
    ensures var c := FragCount(|msg|, mss);
            && (PeekSize(queue) >= 0 <==> |queue| >= c)
            && (|queue| >= c ==> MergeCount(queue) == c && Frags(queue[..c]) == FragsOf(msg, mss)
                                 && Payload(queue[..c]) == msg && PeekSize(queue) == |msg|)
  {
    hide FragsOf, FragCount, BytesOf, Payload, MergeCount;
    FragsOfShape(msg, mss);
    var f, c := FragsOf(msg, mss), FragCount(|msg|, mss);
    assert Frags(queue)[0] == (f + rest)[0] == f[0];
    assert queue[0].frg == c - 1;
    if |queue| >= c {
      forall i | 0 <= i < c ensures queue[i].frg == c - 1 - i {
        assert Frags(queue)[i] == (f + rest)[i] == f[i];
      }
      forall i | 0 <= i < c ensures Frags(queue[..c])[i] == f[i] {
        assert Frags(queue)[i] == (f + rest)[i] == f[i];
      }
      MergeCountAt(queue, c);
      assert Frags(queue[..c]) == f;
      PayloadIsBytesOf(queue[..c]);
      if c == 1 {
        assert queue[..1] == [queue[0]];
        PayloadCons(queue[..1]);
        PayloadNone();
        assert queue[..1][1..] == [] && queue[0].data + [] == queue[0].data;
      }
    }
  }

  // ---------- the writer ----------

  lemma {:induction false} TooLong(len: nat, mss: u32)
    requires mss > 0
    ensures FragCount(len, mss) >= 128 <==> len > 127 * mss
  {
    FragCountFits(len, mss);
    var c := FragCount(len, mss);
    hide FragCount;
    if c >= 128 {
      TimesAtMost(127, c - 1, mss);
    } else {
      TimesAtMost(c, 127, mss);
    }
  }

  lemma {:induction false} TimesAtMost(a: nat, b: nat, mss: nat)
    requires a <= b
    ensures a * mss <= b * mss
  {
    MulNonNegative(b - a, mss);
    assert (b - a) * mss == b * mss - a * mss;
  }

  /** The pieces of `data` in which nothing is lost and no more pieces are made than needed: each but the last
      has exactly `mss` bytes, and the last has some, save for an empty message. */
  ghost predicate Pieces(segs: seq<Segment>, data: Bytes, mss: u32) {
    && segs != [] && Payload(segs) == data
    && (forall i :: 0 <= i < |segs| - 1 ==> |segs[i].data| == mss)
    && |segs[|segs| - 1].data| <= mss && (data != [] ==> segs[|segs| - 1].data != [])
  }

  lemma {:induction false} CutLastSize(data: Bytes, mss: u32, count: nat, stream: bool)
    requires 1 <= count < TWO32 && |data| <= count * mss && (count > 1 ==> (count - 1) * mss < |data|)
    ensures |Cut(data, mss, count, stream)| == count
    ensures |Cut(data, mss, count, stream)[count - 1].data| == |data| - (count - 1) * mss
  {
    hide Cut;
    CutCons(data, mss, count, stream);
    TimesLess(count, mss);
    if count > 1 {
      TimesLess(count - 1, mss);
      CutLastSize(data[mss..], mss, count - 1, stream);
    } else {
      CutNone(data[Min(|data|, mss)..], mss, stream);
    }
  }

  lemma {:induction false} CutPieces(data: Bytes, mss: u32, stream: bool)
    requires mss > 0 && FragCount(|data|, mss) < WND_RCV
    ensures Pieces(Cut(data, mss, FragCount(|data|, mss), stream), data, mss)
  {
    var n := FragCount(|data|, mss);
    CutIsWhole(data, mss, stream);
    FragCountFits(|data|, mss);
    CutLastSize(data, mss, n, stream);
    TimesLess(n, mss);
    hide FragCount, Cut;
  }

  /** Message mode: a send is refused exactly if the message is longer than 127 segments can be, and then the
      queue is as it was; otherwise exactly the pieces of the message are appended, numbered downwards to 0. */
  lemma {:induction false} EnqueueMessage(queue: seq<Segment>, mss: u32, data: Bytes)
    requires mss > 0
    ensures var (q, ret) := Enqueue(queue, mss, data, false);
            && (ret != 0 <==> |data| > 127 * mss)
            && (ret != 0 ==> ret == -2 && q == queue)
            && (ret == 0 ==>
                  && FragCount(|data|, mss) < WND_RCV
                  && queue <= q && Frags(q) == Frags(queue) + FragsOf(data, mss)
                  && Pieces(q[|queue|..], data, mss)
                  && forall i :: |queue| <= i < |q| ==> q[i].frg == |q| - 1 - i)
  {
    assert data[0..] == data;
    var c := FragCount(|data|, mss);
    TooLong(|data|, mss);
    if c < WND_RCV {
      var cut := Cut(data, mss, c, false);
      FragsAppend(queue, cut);
      CutPieces(data, mss, false);
      CutNumbers(data, mss, c, false);
      assert (queue + cut)[|queue|..] == cut;
      hide Cut, FragCount, Pieces;
    }
  }

  lemma {:induction false} PayloadAppend(a: seq<Segment>, b: seq<Segment>)
    ensures Payload(a + b) == Payload(a) + Payload(b)
  {
    var c := a + b;
    if a == [] {
      assert c == b;
    } else {
      assert c[0] == a[0] && c[1..] == a[1..] + b;
      PayloadAppend(a[1..], b);
      Assoc(a[0].data, Payload(a[1..]), Payload(b));
    }
  }

  ghost predicate Plain(segs: seq<Segment>) {
    forall i :: 0 <= i < |segs| ==> segs[i].frg == 0
  }

  /** All but the last segment are full. */
  ghost predicate Full(segs: seq<Segment>, mss: u32) {
    forall i :: 0 <= i < |segs| - 1 ==> |segs[i].data| == mss
  }

  lemma {:induction false} FillIsExact(queue: seq<Segment>, mss: u32, data: Bytes)
    requires mss > 0 && Plain(queue)
    ensures var q, t := Fill(queue, mss, data, true), TopUp(queue, mss, |data|, true);
            && Plain(q) && |q| == |queue| && Payload(q) == Payload(queue) + data[..t]
            && (forall i :: 0 <= i < |queue| - 1 ==> q[i] == queue[i])
            && (t < |data| && queue != [] && |queue[|queue| - 1].data| <= mss ==> |q[|q| - 1].data| == mss)
  {
    var q, t := Fill(queue, mss, data, true), TopUp(queue, mss, |data|, true);
    if queue != [] && |queue[|queue| - 1].data| < mss {
      var l := |queue| - 1;
      var last, fuller := queue[l], q[l];
      assert queue == queue[..l] + [last] && q == queue[..l] + [fuller];
      PayloadAppend(queue[..l], [last]);
      PayloadAppend(queue[..l], [fuller]);
      assert Payload([last]) == last.data + Payload([]) && Payload([fuller]) == fuller.data + Payload([]);
      Assoc(Payload(queue[..l]), last.data, data[..t]);
    } else {
      assert data[..0] == [];
    }
  }

  /** How many bytes the last queued segment has room for. */
  function Left(queue: seq<Segment>, mss: u32): nat {
    if queue == [] then 0 else Max(0, mss - |queue[|queue| - 1].data|)
  }

  lemma {:induction false} TopUpIs(queue: seq<Segment>, mss: u32, len: nat)
    ensures TopUp(queue, mss, len, true) == Min(len, Left(queue, mss))
  {
  }

  lemma {:induction false} StreamRefuses(queue: seq<Segment>, mss: u32, data: Bytes)
    requires mss > 0
    ensures var t := Min(|data|, Left(queue, mss));
            Enqueue(queue, mss, data, true).1 == if |data| - t > 127 * mss then -2 else 0
  {
    TopUpIs(queue, mss, |data|);
    var rest := data[TopUp(queue, mss, |data|, true)..];
    TooLong(|rest|, mss);
    hide Fill, Cut, FragCount, TopUp;
  }

  /** Stream mode: a send is refused exactly if what does not fit into the last queued segment is longer than 127
      segments can be; what fits has been appended even then. An accepted send appends exactly its bytes; every
      queued segment but the last stays exactly `mss` long, and no segment is added empty. */
  lemma {:induction false} EnqueueStream(queue: seq<Segment>, mss: u32, data: Bytes)
    requires mss > 0 && Plain(queue) && Full(queue, mss) && (queue != [] ==> |queue[|queue| - 1].data| <= mss)
    ensures var (q, ret) := Enqueue(queue, mss, data, true);
            var t := Min(|data|, Left(queue, mss));
            && Plain(q) && Full(q, mss) && (q != [] ==> |q[|q| - 1].data| <= mss)
            && (ret == if |data| - t > 127 * mss then -2 else 0)
            && Payload(q) == Payload(queue) + (if ret == 0 then data else data[..t])
            && |queue| <= |q| && forall i :: |queue| <= i < |q| ==> q[i].data != []
  {
    hide Fill, TopUp, Cut, FragCount, Payload, Left, Enqueue, Plain, Full;
    StreamRefuses(queue, mss, data);
    TopUpIs(queue, mss, |data|);
    FillIsExact(queue, mss, data);
    var f, t := Fill(queue, mss, data, true), TopUp(queue, mss, |data|, true);
    var rest := data[t..];
    assert data[..t] + rest == data;
    FillLastSize(queue, mss, data);
    FullSame(queue, f, mss);
    StreamParts(queue, mss, data);
    if rest == [] {
      assert data[..t] == data;
    } else if FragCount(|rest|, mss) < WND_RCV {
      AppendPieces(f, rest, mss);
      Assoc(Payload(queue), data[..t], rest);
    }
  }

  lemma {:induction false} FullSame(queue: seq<Segment>, f: seq<Segment>, mss: u32)
    requires |f| == |queue| && Full(queue, mss) && forall i :: 0 <= i < |queue| - 1 ==> f[i] == queue[i]
    ensures Full(f, mss)
  {
  }

  lemma {:induction false} StreamParts(queue: seq<Segment>, mss: u32, data: Bytes)
    requires mss > 0
    ensures var f, rest := Fill(queue, mss, data, true), data[TopUp(queue, mss, |data|, true)..];
            var c := FragCount(|rest|, mss);
            && (rest == [] ==> Enqueue(queue, mss, data, true) == (f, 0))
            && (rest != [] && c < WND_RCV ==> Enqueue(queue, mss, data, true) == (f + Cut(rest, mss, c, true), 0))
            && (rest != [] && c >= WND_RCV ==> Enqueue(queue, mss, data, true) == (f, -2))
  {
    hide Fill, TopUp, Cut, FragCount;
  }

  lemma {:induction false} AppendPieces(f: seq<Segment>, rest: Bytes, mss: u32)
    requires mss > 0 && FragCount(|rest|, mss) < WND_RCV && rest != []
    requires Plain(f) && Full(f, mss) && (f != [] ==> |f[|f| - 1].data| == mss)
    ensures var q := f + Cut(rest, mss, FragCount(|rest|, mss), true);
            && q != [] && Plain(q) && Full(q, mss) && |q[|q| - 1].data| <= mss && Payload(q) == Payload(f) + rest
            && |f| <= |q| && forall i :: |f| <= i < |q| ==> q[i].data != []
  {
    hide Cut, FragCount, Payload;
    var cut := Cut(rest, mss, FragCount(|rest|, mss), true);
    CutIsWhole(rest, mss, true);
    CutPieces(rest, mss, true);
    PayloadAppend(f, cut);
    FullAppend(f, cut, mss);
    assert forall i :: |f| <= i < |f| + |cut| ==> (f + cut)[i] == cut[i - |f|];
  }

  lemma {:induction false} FillLastSize(queue: seq<Segment>, mss: u32, data: Bytes)
    requires queue != [] ==> |queue[|queue| - 1].data| <= mss
    ensures var f := Fill(queue, mss, data, true); f != [] ==> |f[|f| - 1].data| <= mss
  {
  }

  lemma {:induction false} FullAppend(f: seq<Segment>, cut: seq<Segment>, mss: u32)
    requires cut != [] && Plain(f) && (f != [] ==> |f[|f| - 1].data| == mss) && Full(f, mss)
    requires (forall i :: 0 <= i < |cut| ==> cut[i].frg == 0) && forall i :: 0 <= i < |cut| - 1 ==> |cut[i].data| == mss
    ensures Plain(f + cut) && Full(f + cut, mss) && (f + cut)[|f + cut| - 1] == cut[|cut| - 1]
  {
  }

  /** Stream mode is not atomic: a send leaves its mark although it is refused exactly if the last
      queued segment has room while what does not fit there needs 128 segments or more. */
  lemma {:induction false} StreamRefusalKeepsQueueIff(queue: seq<Segment>, mss: u32, data: Bytes)
    requires mss > 0 && Plain(queue) && Enqueue(queue, mss, data, true).1 != 0
    ensures Payload(Enqueue(queue, mss, data, true).0) == Payload(queue)
       <==> queue == [] || |queue[|queue| - 1].data| >= mss
  {
    FillIsExact(queue, mss, data);
    var t := TopUp(queue, mss, |data|, true);
    assert |Payload(queue) + data[..t]| == |Payload(queue)| + t;
    assert |data[t..]| == |data| - t;
  }

  /** For example, with segments of 26 bytes: after one byte was sent, a send of 128 segments' worth is
      refused and still fills up the queued segment. */
  lemma {:induction false} RefusedSendLeavesMark()
    ensures var k := Create(Config(1, 50, 32, 128, 100, 0, 100, 0, 5, false, true, 20));
            var k1, data := Engine.Send(k, [7]).0, seq(26 * 128, i => 0);
            var r := Engine.Send(k1, data);
            && Payload(k1.snd.queue) == [7] && r.1 == -2
            && Payload(r.0.snd.queue) == [7] + data[..25]
  {
    var k := Create(Config(1, 50, 32, 128, 100, 0, 100, 0, 5, false, true, 20));
    var data: Bytes := seq(26 * 128, i => 0);
    SendFirstByte(k);
    PayloadOne([7]);
    PayloadOne([7] + data[..25]);
    assert [] + ([7] + data[..25]) == [7] + data[..25];
    RefusedOnto([7], data);
    hide Enqueue, Payload;
    assert k.cfg.Mss() == 26;
  }

  lemma {:induction false} PayloadOne(data: Bytes)
    ensures Payload([NewSegment(0, data)]) == data
  {
    assert Payload([NewSegment(0, data)]) == data + Payload([]);
  }

  lemma {:induction false} RefusedOnto(head: Bytes, data: Bytes)
    requires |head| == 1 && |data| == 26 * 128
    ensures Enqueue([NewSegment(0, head)], 26, data, true) == ([NewSegment(0, head + data[..25])], -2)
  {
    var q := [NewSegment(0, head)];
    assert q[..0] == [] && TopUp(q, 26, |data|, true) == 25;
    var filled := [NewSegment(0, head + data[..25])];
    assert [] + filled == filled && Fill(q, 26, data, true) == filled;
    assert |data[25..]| == 3303 && FragCount(|data[25..]|, 26) == 128;
    hide Cut, Fill, TopUp, FragCount;
  }

  lemma {:induction false} SendFirstByte(k: Kcb)
    requires k.snd.queue == [] && k.cfg.stream && k.cfg.mtu == 50
    ensures Engine.Send(k, [7]) == (k.(snd := k.snd.(queue := [NewSegment(0, [7])])), 0)
  {
    var data: Bytes := [7];
    assert data[0..] == data && data[..1] == data && data[1..] == [];
    var one := [NewSegment(0, data)];
    assert one + [] == one && [] + one == one;
    assert Cut(data, 26, 1, true) == one + Cut([], 26, 0, true);
    assert FragCount(|data|, 26) == 1 && Enqueue([], 26, data, true) == (one, 0);
  }

  // ---------- round trip ----------

  datatype Sent = Sent(queue: seq<Segment>, accepted: seq<Bytes>)

  /** A sequence of `ikcp_send` calls in message mode on an empty queue. */
  function SendEach(msgs: seq<Bytes>, mss: u32): Sent
    requires mss > 0
  {
    if msgs == [] then Sent([], [])
    else
      var s, m := SendEach(msgs[..|msgs| - 1], mss), msgs[|msgs| - 1];
      var (q, ret) := Enqueue(s.queue, mss, m, false);
      Sent(q, if ret == 0 then s.accepted + [m] else s.accepted)
  }

  /** Reading a queue until `ikcp_recv` has nothing more to give. */
  function ReadEach(queue: seq<Segment>): seq<Bytes>
    decreases |queue|
  {
    if PeekSize(queue) < 0 then []
    else [Payload(queue[..MergeCount(queue)])] + ReadEach(queue[MergeCount(queue)..])
  }

  lemma {:induction false} SendEachFrags(msgs: seq<Bytes>, mss: u32)
    requires mss > 0
    ensures var s := SendEach(msgs, mss);
            Sendables(s.accepted, mss) && Frags(s.queue) == AllFrags(s.accepted, mss)
  {
    if msgs != [] {
      var s, m := SendEach(msgs[..|msgs| - 1], mss), msgs[|msgs| - 1];
      SendEachFrags(msgs[..|msgs| - 1], mss);
      EnqueueMessage(s.queue, mss, m);
      if FragCount(|m|, mss) < WND_RCV {
        AllFragsSnoc(s.accepted, m, mss);
      }
    }
  }

  lemma {:induction false} ReadEachFrags(queue: seq<Segment>, msgs: seq<Bytes>, mss: u32)
    requires mss > 0 && Sendables(msgs, mss) && Frags(queue) == AllFrags(msgs, mss)
    ensures ReadEach(queue) == msgs
    decreases |msgs|
  {
    if msgs == [] {
      assert queue == [];
    } else {
      var m, rest := msgs[0], AllFrags(msgs[1..], mss);
      FragsOfShape(m, mss);
      hide FragsOf, FragCount, PeekSize, MergeCount;
      var c := FragCount(|m|, mss);
      assert |queue| == c + |rest|;
      ReadBoundary(queue, m, rest, mss);
      assert Frags(queue[c..]) == Frags(queue)[c..] == rest;
      ReadEachFrags(queue[c..], msgs[1..], mss);
    }
  }

  /** Fragmentation round trip: whatever is sent, reading the queue gives back exactly the accepted
      messages, in order. */
  lemma {:induction false} FragmentationRoundTrip(msgs: seq<Bytes>, mss: u32)
    requires mss > 0
    ensures ReadEach(SendEach(msgs, mss).queue) == SendEach(msgs, mss).accepted
  {
    SendEachFrags(msgs, mss);
    ReadEachFrags(SendEach(msgs, mss).queue, SendEach(msgs, mss).accepted, mss);
  }

  /** What a send takes in in stream mode. */
  function StreamTaken(queue: seq<Segment>, mss: u32, m: Bytes): Bytes
    requires mss > 0
  {
    if Enqueue(queue, mss, m, true).1 == 0 then m else m[..Min(|m|, Left(queue, mss))]
  }

  lemma {:induction false} StreamTakes(queue: seq<Segment>, mss: u32, m: Bytes)
    requires mss > 0 && Plain(queue) && Full(queue, mss) && (queue != [] ==> |queue[|queue| - 1].data| <= mss)
    ensures var q := Enqueue(queue, mss, m, true).0;
            && Plain(q) && Full(q, mss) && (q != [] ==> |q[|q| - 1].data| <= mss)
            && Payload(q) == Payload(queue) + StreamTaken(queue, mss, m)
  {
    hide Plain, Full, Enqueue, Left, Payload;
    EnqueueStream(queue, mss, m);
  }

  /** A sequence of `ikcp_send` calls in stream mode on an empty queue; what is taken in of a refused one is
      what filled up the last segment. */
  function StreamEach(msgs: seq<Bytes>, mss: u32): Sent
    requires mss > 0
  {
    if msgs == [] then Sent([], [])
    else
      var s, m := StreamEach(msgs[..|msgs| - 1], mss), msgs[|msgs| - 1];
      Sent(Enqueue(s.queue, mss, m, true).0, s.accepted + [StreamTaken(s.queue, mss, m)])
  }

  lemma {:induction false} ConcatSnoc(msgs: seq<Bytes>, m: Bytes)
    ensures Concat(msgs + [m]) == Concat(msgs) + m
  {
    ConcatAppend(msgs, [m]);
    assert Concat([m]) == m + Concat([]);
  }

  lemma {:induction false} StreamEachBytes(msgs: seq<Bytes>, mss: u32)
    requires mss > 0
    ensures var s := StreamEach(msgs, mss);
            && Plain(s.queue) && Full(s.queue, mss) && (s.queue != [] ==> |s.queue[|s.queue| - 1].data| <= mss)
            && Payload(s.queue) == Concat(s.accepted)
  {
    if msgs != [] {
      hide Plain, Full, Enqueue, StreamTaken, Payload, Concat;
      var before, m := msgs[..|msgs| - 1], msgs[|msgs| - 1];
      var s := StreamEach(before, mss);
      StreamEachBytes(before, mss);
      StreamTakes(s.queue, mss, m);
      ConcatSnoc(s.accepted, StreamTaken(s.queue, mss, m));
    }
  }

  lemma {:induction false} ReadEachPlain(queue: seq<Segment>)
    requires Plain(queue)
    ensures Concat(ReadEach(queue)) == Payload(queue)
    decreases |queue|
  {
    if queue != [] {
      ReadEachPlain(queue[1..]);
      assert queue[..1] == [queue[0]] && Payload([queue[0]]) == queue[0].data + Payload([]);
      var head, rest := Payload(queue[..1]), ReadEach(queue[1..]);
      assert ([head] + rest)[0] == head && ([head] + rest)[1..] == rest;
    }
  }

  /** The same in stream mode: the bytes taken in come back, in order. */
  lemma {:induction false} StreamRoundTrip(msgs: seq<Bytes>, mss: u32)
    requires mss > 0
    ensures Concat(ReadEach(StreamEach(msgs, mss).queue)) == Concat(StreamEach(msgs, mss).accepted)
  {
    hide ReadEach, Concat, Payload, StreamEach;
    StreamEachBytes(msgs, mss);
    ReadEachPlain(StreamEach(msgs, mss).queue);
  }
}
