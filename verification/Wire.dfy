/** The 24-byte little-endian segment header, the packing of segments into datagrams of at most
    `mtu` bytes, and the decoder that the receiving side runs over a datagram. */
module Wire {
  import opened Seqs
  import opened Serial

  const CMD_PUSH: u8 := 81
  const CMD_ACK: u8 := 82
  const CMD_WASK: u8 := 83
  const CMD_WINS: u8 := 84
  const OVERHEAD: u32 := 24

  type Bytes = seq<u8>

  /** `struct IKCPSEG`; its `len` is the length of `data`. */
  datatype Segment = Segment(conv: u32, cmd: u32, frg: u32, wnd: u32, ts: u32, sn: u32, una: u32,
                             data: Bytes, resendts: u32, rto: u32, fastack: u32, xmit: u32)

  datatype Head = Head(conv: u32, cmd: u8, frg: u8, wnd: u16, ts: u32, sn: u32, una: u32, len: u32)

  predicate KnownCmd(cmd: int) {
    cmd == CMD_PUSH || cmd == CMD_ACK || cmd == CMD_WASK || cmd == CMD_WINS
  }

  // ---------- encoding ----------

  function Encode16(w: int): (b: Bytes)
    ensures |b| == 2
  {
    [w % 0x100, (w / 0x100) % 0x100]
  }

  function Encode32(l: u32): (b: Bytes)
    ensures |b| == 4
  {
    [l % 0x100, (l / 0x100) % 0x100, (l / 0x1_0000) % 0x100, (l / 0x100_0000) % 0x100]
  }

  /** The header words behind `conv`, `cmd`, `frg` and `wnd`. */
  function EncodeTail(s: Segment): (b: Bytes)
    ensures |b| == 16
  {
    Encode32(s.ts) + Encode32(s.sn) + Encode32(s.una) + Encode32(Wrap(|s.data|))
  }

  /** `ikcp_encode_seg`: `cmd` and `frg` are cut to 8 bits and `wnd` to 16. */
  function EncodeHead(s: Segment): (b: Bytes)
    ensures |b| == 24
  {
    Encode32(s.conv) + [s.cmd % 0x100, s.frg % 0x100] + Encode16(s.wnd) + EncodeTail(s)
  }

  function Encode(s: Segment): (b: Bytes)
    ensures |b| == 24 + |s.data|
  {
    EncodeHead(s) + s.data
  }

  function EncodeAll(segs: seq<Segment>): Bytes {
    if segs == [] then [] else Encode(segs[0]) + EncodeAll(segs[1..])
  }

  lemma {:induction false} EncodeAllAppend(a: seq<Segment>, b: seq<Segment>)
    ensures EncodeAll(a + b) == EncodeAll(a) + EncodeAll(b)
  {
    if a == [] {
      assert a + b == b;
    } else {
      var c := a + b;
      assert c[0] == a[0] && c[1..] == a[1..] + b;
      EncodeAllAppend(a[1..], b);
      Assoc(Encode(a[0]), EncodeAll(a[1..]), EncodeAll(b));
    }
  }

  lemma {:induction false} EncodeAllSnoc(a: seq<Segment>, s: Segment)
    ensures EncodeAll(a + [s]) == EncodeAll(a) + Encode(s)
  {
    EncodeAllAppend(a, [s]);
    assert EncodeAll([s]) == Encode(s);
  }

  // ---------- decoding ----------

  function Decode16(b: Bytes, i: nat): u16
    requires i + 2 <= |b|
  {
    var b0: int, b1: int := b[i], b[i + 1];
    b0 + 0x100 * b1
  }

  function Decode32(b: Bytes, i: nat): u32
    requires i + 4 <= |b|
  {
    var b0: int, b1: int, b2: int, b3: int := b[i], b[i + 1], b[i + 2], b[i + 3];
    b0 + 0x100 * (b1 + 0x100 * (b2 + 0x100 * b3))
  }

  function DecodeHead(b: Bytes): Head
    requires |b| >= 24
  {
    Head(Decode32(b, 0), b[4], b[5], Decode16(b, 6), Decode32(b, 8), Decode32(b, 12), Decode32(b, 16), Decode32(b, 20))
  }

  /** The segment `ikcp_input` builds from a header and its payload; the fields that only the
      sender uses are left zero. */
  function FromHead(h: Head, data: Bytes): Segment {
    Segment(h.conv, h.cmd, h.frg, h.wnd, h.ts, h.sn, h.una, data, 0, 0, 0, 0)
  }

  /** A segment as the peer sees it: what the header cannot carry is gone. */
  function OnWire(s: Segment): Segment {
    Segment(s.conv, s.cmd % 0x100, s.frg % 0x100, s.wnd % 0x1_0000, s.ts, s.sn, s.una, s.data, 0, 0, 0, 0)
  }

  function AllOnWire(segs: seq<Segment>): seq<Segment> {
    seq(|segs|, i requires 0 <= i < |segs| => OnWire(segs[i]))
  }

  datatype Parsed = Parsed(segs: seq<Segment>, ret: int)

  /** The segments the loop of `ikcp_input` goes through before it stops, and its return code. */
  function Parse(conv: u32, data: Bytes): Parsed
    decreases |data|
  {
    if |data| < OVERHEAD then Parsed([], 0)
    else
      var h := DecodeHead(data);
      if h.conv != conv then Parsed([], -1)
      else if |data| - OVERHEAD < h.len || Signed(h.len) < 0 then Parsed([], -2)
      else if !KnownCmd(h.cmd) then Parsed([], -3)
      else
        var rest := Parse(conv, data[24 + h.len..]);
        Parsed([FromHead(h, data[24..24 + h.len])] + rest.segs, rest.ret)
  }

  lemma {:induction false} Decode32At(b: Bytes, i: nat, l: u32)
    requires i + 4 <= |b| && b[i..i + 4] == Encode32(l)
    ensures Decode32(b, i) == l
  {
    var e := b[i..i + 4];
    assert b[i] == e[0] && b[i + 1] == e[1] && b[i + 2] == e[2] && b[i + 3] == e[3];
    var q1, q2, q3 := l / 0x100, l / 0x1_0000, l / 0x100_0000;
    assert q2 == q1 / 0x100 && q3 == q2 / 0x100 && q3 < 0x100;
  }

  lemma {:induction false} Decode16At(b: Bytes, i: nat, w: u32)
    requires i + 2 <= |b| && b[i..i + 2] == Encode16(w)
    ensures Decode16(b, i) == w % 0x1_0000
  {
    var e := b[i..i + 2];
    assert b[i] == e[0] && b[i + 1] == e[1];
    LowBytes(w);
  }

  lemma {:induction false} LowBytes(w: int)
    ensures w % 0x100 + 0x100 * (w / 0x100 % 0x100) == w % 0x1_0000
  {
    var q, r := w / 0x1_0000, w % 0x1_0000;
    assert w / 0x100 == 0x100 * q + r / 0x100;
    assert w % 0x100 == r % 0x100 && w / 0x100 % 0x100 == r / 0x100;
  }

  lemma {:induction false} HeadSlices(s: Segment, post: Bytes)
    ensures var b := EncodeHead(s) + post;
            && b[0..4] == Encode32(s.conv) && b[4] == s.cmd % 0x100 && b[5] == s.frg % 0x100
            && b[6..8] == Encode16(s.wnd) && b[8..24] == EncodeTail(s)
  {
    hide Encode32, Encode16, EncodeTail;
  }

  lemma {:induction false} TailSlices(s: Segment)
    ensures var t := EncodeTail(s);
            && t[0..4] == Encode32(s.ts) && t[4..8] == Encode32(s.sn)
            && t[8..12] == Encode32(s.una) && t[12..16] == Encode32(Wrap(|s.data|))
  {
    hide Encode32;
  }

  /** Header round trip: what was cut by the encoder is all that is lost. */
  lemma {:induction false} DecodeHeadEncode(s: Segment, post: Bytes)
    requires |s.data| < TWO32
    ensures DecodeHead(EncodeHead(s) + post)
         == Head(s.conv, s.cmd % 0x100, s.frg % 0x100, s.wnd % 0x1_0000, s.ts, s.sn, s.una, |s.data|)
  {
    var b, t := EncodeHead(s) + post, EncodeTail(s);
    hide EncodeHead, EncodeTail, Encode32, Encode16, Decode32, Decode16;
    HeadSlices(s, post);
    TailSlices(s);
    Decode32At(b, 0, s.conv);
    Decode16At(b, 6, s.wnd);
    assert b[8..12] == t[0..4] && b[12..16] == t[4..8] && b[16..20] == t[8..12] && b[20..24] == t[12..16];
    Decode32At(b, 8, s.ts);
    Decode32At(b, 12, s.sn);
    Decode32At(b, 16, s.una);
    Decode32At(b, 20, |s.data|);
  }

  /** A segment the decoder of an endpoint with this `conv` accepts. */
  predicate Sendable(conv: u32, s: Segment) {
    s.conv == conv && KnownCmd(s.cmd) && |s.data| < TWO31
  }

  lemma {:induction false} ParseOne(conv: u32, s: Segment, rest: Bytes)
    requires Sendable(conv, s)
    ensures var p := Parse(conv, rest);
            Parse(conv, Encode(s) + rest) == Parsed([OnWire(s)] + p.segs, p.ret)
  {
    hide EncodeHead, DecodeHead;
    var b := Encode(s) + rest;
    Assoc(EncodeHead(s), s.data, rest);
    DecodeHeadEncode(s, s.data + rest);
    assert b[24..24 + |s.data|] == s.data;
    assert b[24 + |s.data|..] == rest;
  }

  /** The decoder gives back exactly the segments that were encoded, in order. */
  lemma {:induction false} ParseEncodeAll(conv: u32, segs: seq<Segment>)
    requires forall s :: s in segs ==> Sendable(conv, s)
    ensures Parse(conv, EncodeAll(segs)) == Parsed(AllOnWire(segs), 0)
  {
    if segs != [] {
      hide Encode, Parse;
      assert segs[0] in segs;
      ParseEncodeAll(conv, segs[1..]);
      ParseOne(conv, segs[0], EncodeAll(segs[1..]));
      assert AllOnWire(segs) == [OnWire(segs[0])] + AllOnWire(segs[1..]);
    } else {
      assert AllOnWire(segs) == [];
    }
  }

  lemma {:induction false} Encode32Decode(b: Bytes, i: nat)
    requires i + 4 <= |b|
    ensures Encode32(Decode32(b, i)) == b[i..i + 4]
  {
    var b0: int, b1: int, b2: int, b3: int := b[i], b[i + 1], b[i + 2], b[i + 3];
    var q2 := b2 + 0x100 * b3;
    var q1 := b1 + 0x100 * q2;
    var l := b0 + 0x100 * q1;
    assert l / 0x100 == q1 && l % 0x100 == b[i];
    assert q1 / 0x100 == q2 && q1 % 0x100 == b[i + 1];
    assert q2 / 0x100 == b[i + 3] && q2 % 0x100 == b[i + 2];
    assert l / 0x1_0000 == q2 && l / 0x100_0000 == b[i + 3];
  }

  lemma {:induction false} EncodeHeadDecode(b: Bytes, data: Bytes)
    requires |b| >= 24 && DecodeHead(b).len == |data|
    ensures EncodeHead(FromHead(DecodeHead(b), data)) == b[..24]
  {
    hide Encode32, Decode32;
    var s := FromHead(DecodeHead(b), data);
    Encode32Decode(b, 0);
    Encode32Decode(b, 8);
    Encode32Decode(b, 12);
    Encode32Decode(b, 16);
    Encode32Decode(b, 20);
    assert Encode16(s.wnd) == b[6..8];
    assert [s.cmd % 0x100, s.frg % 0x100] == b[4..6];
    assert b[..24] == b[0..4] + b[4..6] + b[6..8] + (b[8..12] + b[12..16] + b[16..20] + b[20..24]);
  }

  lemma {:induction false} EncodeDecoded(conv: u32, data: Bytes)
    requires Parse(conv, data).segs != []
    ensures var s, p := Parse(conv, data).segs[0], Parse(conv, data);
            && Sendable(conv, s) && OnWire(s) == s && |Encode(s)| <= |data|
            && data == Encode(s) + data[|Encode(s)|..]
            && p.segs[1..] == Parse(conv, data[|Encode(s)|..]).segs
            && p.ret == Parse(conv, data[|Encode(s)|..]).ret
  {
    hide EncodeHead, DecodeHead;
    var h := DecodeHead(data);
    var s := FromHead(h, data[24..24 + h.len]);
    EncodeHeadDecode(data, s.data);
    Assoc(data[..24], s.data, data[24 + h.len..]);
  }

  /** Conversely, whatever was decoded is literally the prefix of the input that was consumed,
      and an accepted input leaves less than one header behind. */
  lemma {:induction false} EncodeAllParse(conv: u32, data: Bytes)
    ensures var p := Parse(conv, data);
            && EncodeAll(p.segs) <= data
            && (forall s :: s in p.segs ==> Sendable(conv, s) && OnWire(s) == s)
            && (p.ret == 0 <==> |data| - |EncodeAll(p.segs)| < OVERHEAD)
    decreases |data|
  {
    var p := Parse(conv, data);
    if p.segs != [] {
      hide Encode, Parse, Sendable, OnWire;
      EncodeDecoded(conv, data);
      var s := p.segs[0];
      var rest := data[|Encode(s)|..];
      EncodeAllParse(conv, rest);
      PrefixAppend(Encode(s), EncodeAll(p.segs[1..]), rest);
    }
  }

  // ---------- layout ----------

  /** The number a string of bytes stands for, least significant byte first. */
  function Value(b: Bytes): nat {
    if b == [] then 0
    else
      var low: nat := b[0];
      low + 0x100 * Value(b[1..])
  }

  lemma {:induction false} ValueOf2(b: Bytes)
    requires |b| == 2
    ensures var b0: int, b1: int := b[0], b[1]; Value(b) == b0 + 0x100 * b1
  {
    assert b[1..] == [b[1]] && b[1..][1..] == [];
    assert Value([]) == 0;
  }

  lemma {:induction false} ValueOf4(b: Bytes)
    requires |b| == 4
    ensures Value(b) == Decode32(b, 0)
  {
    ValueOf2(b[2..]);
    assert b[1..][1..] == b[2..];
    assert Value(b[1..]) == b[1] + 0x100 * Value(b[2..]);
  }

  lemma {:induction false} ValueAt(b: Bytes, i: nat)
    requires i + 4 <= |b|
    ensures Value(b[i..i + 4]) == Decode32(b, i)
  {
    ValueOf4(b[i..i + 4]);
  }

  lemma {:induction false} ValueOfEncode16(w: int)
    ensures Value(Encode16(w)) == w % 0x1_0000
  {
    hide Value;
    ValueOf2(Encode16(w));
    LowBytes(w);
  }

  /** Where each field lies in the 24 bytes in front of the payload, as a number with its least significant byte
      first; `cmd` and `frg` have one byte, `wnd` has two. */
  lemma {:induction false} HeaderLayout(s: Segment)
    requires |s.data| < TWO32
    ensures var b := Encode(s);
            && |b| == 24 + |s.data| && b[24..] == s.data
            && Value(b[0..4]) == s.conv && b[4] == s.cmd % 0x100 && b[5] == s.frg % 0x100
            && Value(b[6..8]) == s.wnd % 0x1_0000 && Value(b[8..12]) == s.ts && Value(b[12..16]) == s.sn
            && Value(b[16..20]) == s.una && Value(b[20..24]) == |s.data|
  {
    hide EncodeHead, DecodeHead, Decode32, Encode16, Value;
    var b := Encode(s);
    DecodeHeadEncode(s, s.data);
    HeadSlices(s, s.data);
    ValueOfEncode16(s.wnd);
    HeadValues(b);
  }

  lemma {:induction false} HeadValues(b: Bytes)
    requires |b| >= 24
    ensures var h := DecodeHead(b);
            && Value(b[0..4]) == h.conv && h.cmd == b[4] && Value(b[20..24]) == h.len
            && Value(b[8..12]) == h.ts && Value(b[12..16]) == h.sn && Value(b[16..20]) == h.una
  {
    hide Decode32, Value;
    ValueAt(b, 0);
    ValueAt(b, 8);
    ValueAt(b, 12);
    ValueAt(b, 16);
    ValueAt(b, 20);
  }

  /** Why the decoder stops, told by the bytes it did not take: less than a header; or a header of another
      session; or one that announces more payload than there is; or one with an unknown command. */
  lemma {:induction false} ParseStops(conv: u32, data: Bytes)
    ensures var p := Parse(conv, data);
            && EncodeAll(p.segs) <= data
            && var rest := data[|EncodeAll(p.segs)|..];
               && p.ret == (if |rest| < 24 then 0
                            else if Value(rest[0..4]) != conv then -1
                            else if Value(rest[20..24]) > |rest| - 24 || Value(rest[20..24]) >= TWO31 then -2
                            else -3)
               && (p.ret == -3 ==> rest[4] != 81 && rest[4] != 82 && rest[4] != 83 && rest[4] != 84)
    decreases |data|
  {
    var p := Parse(conv, data);
    if p.segs == [] {
      assert EncodeAll(p.segs) == [] && data[0..] == data;
      if |data| >= 24 {
        HeadValues(data);
      }
      hide DecodeHead, Value;
    } else {
      hide Encode, Parse, Sendable, OnWire, Value;
      EncodeDecoded(conv, data);
      var s := p.segs[0];
      var rest := data[|Encode(s)|..];
      ParseStops(conv, rest);
      PrefixAppend(Encode(s), EncodeAll(p.segs[1..]), rest);
      assert data[|EncodeAll(p.segs)|..] == rest[|EncodeAll(p.segs[1..])|..];
    }
  }

  // ---------- packing ----------

  /** Closed datagrams, and the segments already written to the buffer of the open one. */
  datatype Packing = Packing(done: seq<seq<Segment>>, open: seq<Segment>)

  /** `ikcp_output`: an empty buffer is not sent. */
  function Close(p: Packing): seq<seq<Segment>> {
    if p.open == [] then p.done else p.done + [p.open]
  }

  function PackStep(p: Packing, s: Segment, mtu: nat): Packing {
    if |EncodeAll(p.open)| + OVERHEAD + |s.data| > mtu then Packing(Close(p), [s])
    else Packing(p.done, p.open + [s])
  }

  function PackAll(segs: seq<Segment>, mtu: nat): Packing {
    if segs == [] then Packing([], [])
    else PackStep(PackAll(segs[..|segs| - 1], mtu), segs[|segs| - 1], mtu)
  }

  function Pack(segs: seq<Segment>, mtu: nat): seq<seq<Segment>> {
    Close(PackAll(segs, mtu))
  }

  function EncodeGroups(groups: seq<seq<Segment>>): seq<Bytes> {
    seq(|groups|, i requires 0 <= i < |groups| => EncodeAll(groups[i]))
  }

  lemma {:induction false} PackAllSnoc(segs: seq<Segment>, s: Segment, mtu: nat)
    ensures PackAll(segs + [s], mtu) == PackStep(PackAll(segs, mtu), s, mtu)
  {
    assert (segs + [s])[..|segs|] == segs;
  }

  ghost predicate GoodGroup(g: seq<Segment>, mtu: nat) {
    g != [] && 0 < |EncodeAll(g)| <= mtu
  }

  ghost predicate GoodPacking(p: Packing, mtu: nat) {
    && (forall g :: g in p.done ==> GoodGroup(g, mtu))
    && |EncodeAll(p.open)| <= mtu
    && (p.open != [] ==> GoodGroup(p.open, mtu))
  }

  lemma {:induction false} PackStepGood(p: Packing, s: Segment, mtu: nat)
    requires GoodPacking(p, mtu) && OVERHEAD + |s.data| <= mtu
    ensures GoodPacking(PackStep(p, s, mtu), mtu)
    ensures var q := PackStep(p, s, mtu); Flatten(q.done) + q.open == Flatten(p.done) + p.open + [s]
  {
    hide Encode, EncodeAll, Flatten;
    assert |Encode(s)| == OVERHEAD + |s.data|;
    FlattenSnoc(p.done, p.open);
    EncodeAllSnoc(p.open, s);
    EncodeAllOne(s);
    Assoc(Flatten(p.done), p.open, [s]);
    assert p.open == [] ==> Flatten(p.done) + p.open == Flatten(p.done);
  }

  lemma {:induction false} EncodeAllOne(s: Segment)
    ensures EncodeAll([s]) == Encode(s)
  {
  }

  lemma {:induction false} PackAllGood(segs: seq<Segment>, mtu: nat)
    requires forall s :: s in segs ==> OVERHEAD + |s.data| <= mtu
    ensures GoodPacking(PackAll(segs, mtu), mtu)
    ensures var p := PackAll(segs, mtu); Flatten(p.done) + p.open == segs
  {
    if segs == [] {
      assert EncodeAll([]) == [];
    } else {
      hide GoodPacking, PackStep, Flatten;
      var init, s := segs[..|segs| - 1], segs[|segs| - 1];
      assert segs == init + [s];
      PackAllGood(init, mtu);
      PackStepGood(PackAll(init, mtu), s, mtu);
    }
  }

  /** No segment was moved to the next datagram that had room in the one before. */
  ghost predicate Greedy(p: Packing, mtu: nat) {
    && (forall i :: 0 < i < |p.done| ==>
          p.done[i] != [] && |EncodeAll(p.done[i - 1])| + OVERHEAD + |p.done[i][0].data| > mtu)
    && (p.done != [] ==>
          p.open != [] && |EncodeAll(p.done[|p.done| - 1])| + OVERHEAD + |p.open[0].data| > mtu)
  }

  lemma {:induction false} PackStepGreedy(p: Packing, s: Segment, mtu: nat)
    requires Greedy(p, mtu) && OVERHEAD + |s.data| <= mtu
    ensures Greedy(PackStep(p, s, mtu), mtu) && PackStep(p, s, mtu).open != []
  {
    hide EncodeAll;
    if p.open == [] {
      EncodeNone();
    }
  }

  lemma {:induction false} EncodeNone()
    ensures EncodeAll([]) == []
  {
  }

  /** The datagrams are as few as they can be without changing the order. */
  lemma {:induction false} PackIsGreedy(segs: seq<Segment>, mtu: nat)
    requires forall s :: s in segs ==> OVERHEAD + |s.data| <= mtu
    ensures Greedy(PackAll(segs, mtu), mtu)
    ensures var groups := Pack(segs, mtu);
            forall i :: 0 < i < |groups| ==>
              groups[i] != [] && |EncodeAll(groups[i - 1])| + OVERHEAD + |groups[i][0].data| > mtu
  {
    hide PackStep, EncodeAll;
    if segs != [] {
      PackIsGreedy(segs[..|segs| - 1], mtu);
      PackStepGreedy(PackAll(segs[..|segs| - 1], mtu), segs[|segs| - 1], mtu);
    }
  }

  /** The datagrams of one flush: none empty, none above the MTU, no segment split or lost, and the
      decoder run over them in turn yields the segments in order. */
  lemma {:induction false} PackRoundTrip(conv: u32, segs: seq<Segment>, mtu: nat)
    requires forall s :: s in segs ==> Sendable(conv, s) && OVERHEAD + |s.data| <= mtu
    ensures var groups := Pack(segs, mtu);
            && Flatten(groups) == segs
            && (forall g :: g in groups ==> 0 < |EncodeAll(g)| <= mtu)
            && (forall g :: g in groups ==> Parse(conv, EncodeAll(g)) == Parsed(AllOnWire(g), 0))
  {
    PackAllGood(segs, mtu);
    var p := PackAll(segs, mtu);
    var groups := Pack(segs, mtu);
    FlattenSnoc(p.done, p.open);
    assert Flatten(groups) == segs;
    forall g | g in groups
      ensures 0 < |EncodeAll(g)| <= mtu && Parse(conv, EncodeAll(g)) == Parsed(AllOnWire(g), 0)
    {
      assert GoodGroup(g, mtu);
      forall s | s in g ensures Sendable(conv, s) {
        var i :| 0 <= i < |groups| && groups[i] == g;
        InFlatten(groups, i, s);
      }
      ParseEncodeAll(conv, g);
    }
  }
}
