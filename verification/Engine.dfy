/** The control block as a value, and what each operation of the engine does to it.
    The sequence-number and clock fields are 32-bit words throughout and every addition the C code
    makes on them wraps here too. Class `Endpoint.Kcp` computes these functions with loops over
    mutable fields; the theorems about the protocol are about these functions. */
module Engine {
  import opened Serial
  import opened Wire

  const RTO_MAX: u32 := 60000
  const RTO_DEF: u32 := 200
  const RTO_MIN: u32 := 100
  const RTO_NDL: u32 := 30
  const WND_SND: u32 := 32
  const WND_RCV: u32 := 128
  const MTU_DEF: u32 := 1400
  const INTERVAL: u32 := 100
  const DEADLINK: u32 := 20
  const THRESH_INIT: u32 := 2
  const THRESH_MIN: u32 := 2
  const PROBE_INIT: u32 := 7000
  const PROBE_LIMIT: u32 := 120000
  const FASTACK_LIMIT: i32 := 5
  const DEAD: u32 := 0xffff_ffff

  /** What `ikcp_setmtu` accepts. */
  type Mtu = x: int | 50 <= x < 0x8000_0000 witness 1400

  datatype Config = Config(conv: u32, mtu: Mtu, sndWnd: u32, rcvWnd: u32, interval: u32, nodelay: u32,
                           minRto: i32, fastResend: i32, fastLimit: i32, nocwnd: bool, stream: bool,
                           deadLink: u32)
  {
    function Mss(): (mss: u32)
      ensures mss > 0
    {
      mtu - OVERHEAD
    }
  }

  datatype Ack = Ack(sn: u32, ts: u32)

  datatype Snd = Snd(una: u32, nxt: u32, queue: seq<Segment>, buf: seq<Segment>)
  datatype Rcv = Rcv(nxt: u32, queue: seq<Segment>, buf: seq<Segment>, acks: seq<Ack>)
  datatype Rtt = Rtt(srtt: i32, rttval: i32, rto: i32)
  datatype Cong = Cong(cwnd: u32, ssthresh: u32, incr: u32)
  datatype Probe = Probe(ask: bool, tell: bool, tsProbe: u32, wait: u32)
  datatype Clock = Clock(current: u32, tsFlush: u32, updated: bool)

  datatype Kcb = Kcb(cfg: Config, snd: Snd, rcv: Rcv, rtt: Rtt, cong: Cong, probe: Probe, clock: Clock,
                     rmtWnd: u32, xmit: u32, state: u32)

  /** What holds of a configuration made by `ikcp_create`, `ikcp_setmtu`, `ikcp_wndsize` and
      `ikcp_nodelay`. */
  predicate GoodConfig(cfg: Config) {
    && 0 < cfg.sndWnd < TWO31
    && WND_RCV <= cfg.rcvWnd < TWO31
    && 10 <= cfg.interval <= 5000
    && (cfg.minRto == RTO_NDL || cfg.minRto == RTO_MIN)
    && 0 <= cfg.fastResend
  }

  /** `ikcp_wndsize`. */
  function WithWindows(cfg: Config, sndwnd: i32, rcvwnd: i32): (cfg': Config)
    ensures GoodConfig(cfg) ==> GoodConfig(cfg')
  {
    cfg.(sndWnd := if sndwnd > 0 then sndwnd else cfg.sndWnd,
         rcvWnd := if rcvwnd > 0 then Max(rcvwnd, WND_RCV) else cfg.rcvWnd)
  }

  /** `ikcp_nodelay`. */
  function WithNoDelay(cfg: Config, nodelay: i32, interval: i32, resend: i32, nc: i32): (cfg': Config)
    ensures GoodConfig(cfg) ==> GoodConfig(cfg')
  {
    cfg.(nodelay := if nodelay >= 0 then nodelay else cfg.nodelay,
         minRto := if nodelay > 0 then RTO_NDL else if nodelay == 0 then RTO_MIN else cfg.minRto,
         interval := if interval >= 0 then Min(Max(interval, 10), 5000) else cfg.interval,
         fastResend := if resend >= 0 then resend else cfg.fastResend,
         nocwnd := if nc >= 0 then nc != 0 else cfg.nocwnd)
  }

  /** `ikcp_create` under the given configuration. */
  function Create(cfg: Config): Kcb {
    Kcb(cfg, Snd(0, 0, [], []), Rcv(0, [], [], []), Rtt(0, 0, RTO_DEF), Cong(0, THRESH_INIT, 0),
        Probe(false, false, 0, 0), Clock(0, INTERVAL, false), WND_RCV, 0, 0)
  }

  function NewSegment(frg: u32, data: Bytes): Segment {
    Segment(0, 0, frg, 0, 0, 0, 0, data, 0, 0, 0, 0)
  }

  // ---------- ikcp_send ----------

  /** How many segments `ikcp_send` cuts `len` bytes into. */
  function FragCount(len: nat, mss: u32): nat
    requires mss > 0
  {
    if len <= mss then 1 else (len + mss - 1) / mss
  }

  /** The `count` last segments of a message, numbered downwards to 0 in message mode. */
  function Cut(data: Bytes, mss: u32, count: nat, stream: bool): seq<Segment>
    requires count < TWO32
  {
    if count == 0 then []
    else
      var size := Min(|data|, mss);
      [NewSegment(if stream then 0 else count - 1, data[..size])] + Cut(data[size..], mss, count - 1, stream)
  }

  /** How many bytes stream mode appends to the last queued segment. */
  function TopUp(queue: seq<Segment>, mss: u32, len: nat, stream: bool): nat
    ensures TopUp(queue, mss, len, stream) <= len
  {
    if stream && queue != [] && |queue[|queue| - 1].data| < mss
    then Min(len, mss - |queue[|queue| - 1].data|) else 0
  }

  /** The queue after stream mode replaced its last segment by a fuller one; the replacement is made
      even when nothing is appended. */
  function Fill(queue: seq<Segment>, mss: u32, data: Bytes, stream: bool): seq<Segment> {
    if stream && queue != [] && |queue[|queue| - 1].data| < mss then
      var last := |queue| - 1;
      queue[..last] + [NewSegment(0, queue[last].data + data[..TopUp(queue, mss, |data|, stream)])]
    else queue
  }

  /** What `ikcp_send` makes of the queue, and its return code. */
  function Enqueue(queue: seq<Segment>, mss: u32, data: Bytes, stream: bool): (seq<Segment>, int)
    requires mss > 0
  {
    var filled := Fill(queue, mss, data, stream);
    var rest := data[TopUp(queue, mss, |data|, stream)..];
    var count := FragCount(|rest|, mss);
    if stream && rest == [] then (filled, 0)
    else if count >= WND_RCV then (filled, -2)
    else (filled + Cut(rest, mss, count, stream), 0)
  }

  function Send(k: Kcb, data: Bytes): (Kcb, int)
  {
    var (queue, ret) := Enqueue(k.snd.queue, k.cfg.Mss(), data, k.cfg.stream);
    (k.(snd := k.snd.(queue := queue)), ret)
  }

  // ---------- ikcp_recv ----------

  /** How many segments the merge loop of `ikcp_recv` takes: up to the first with `frg == 0`. */
  function MergeCount(queue: seq<Segment>): (n: nat)
    ensures n <= |queue|
    ensures queue != [] ==> n > 0
  {
    if queue == [] then 0
    else if queue[0].frg == 0 then 1
    else 1 + MergeCount(queue[1..])
  }

  function Payload(segs: seq<Segment>): Bytes {
    if segs == [] then [] else segs[0].data + Payload(segs[1..])
  }

  function PeekSize(queue: seq<Segment>): int {
    if queue == [] then -1
    else if queue[0].frg == 0 then |queue[0].data|
    else if |queue| < Wrap(queue[0].frg + 1) then -1
    else |Payload(queue[..MergeCount(queue)])|
  }

  /** How many segments at the head of `rcv_buf` are next in order and find room in `rcv_queue`,
      which holds `q`. */
  function DrainCount(nxt: u32, q: nat, buf: seq<Segment>, wnd: u32): (m: nat)
    ensures m <= |buf| && (q <= wnd ==> q + m <= wnd)
    decreases |buf|
  {
    if buf != [] && buf[0].sn == nxt && q < wnd then 1 + DrainCount(Wrap(nxt + 1), q + 1, buf[1..], wnd) else 0
  }

  /** Moving those segments from `rcv_buf` to `rcv_queue`. */
  function Drain(rcv: Rcv, wnd: u32): Rcv {
    var m := DrainCount(rcv.nxt, |rcv.queue|, rcv.buf, wnd);
    Rcv(Wrap(rcv.nxt + m), rcv.queue + rcv.buf[..m], rcv.buf[m..], rcv.acks)
  }

  /** The return code of `ikcp_recv` before it takes anything: the size of the next message, or why
      there is none. */
  function RecvCode(queue: seq<Segment>, len: int): int {
    var peek := PeekSize(queue);
    if queue == [] then -1
    else if peek < 0 then -2
    else if peek > (if len < 0 then -len else len) then -3
    else peek
  }

  /** The receiving half after a message was read, or only looked at. */
  function Read(rcv: Rcv, wnd: u32, peek: bool): Rcv {
    Drain(if peek then rcv else rcv.(queue := rcv.queue[MergeCount(rcv.queue)..]), wnd)
  }

  /** What `ikcp_recv` returns and makes of the receiving half; `recovered` if that half was full
      and is no longer. */
  datatype Intake = Intake(rcv: Rcv, ret: int, data: Bytes, recovered: bool)

  function Receive(rcv: Rcv, wnd: u32, len: int): Intake {
    var code := RecvCode(rcv.queue, len);
    if code < 0 then Intake(rcv, code, [], false)
    else
      var data := Payload(rcv.queue[..MergeCount(rcv.queue)]);
      var rcv' := Read(rcv, wnd, len < 0);
      Intake(rcv', |data|, data, |rcv.queue| >= wnd && |rcv'.queue| < wnd)
  }

  datatype Received = Received(k: Kcb, ret: int, data: Bytes)

  function Recv(k: Kcb, len: int): Received {
    var r := Receive(k.rcv, k.cfg.rcvWnd, len);
    Received(k.(rcv := r.rcv, probe := k.probe.(tell := k.probe.tell || r.recovered)), r.ret, r.data)
  }

  // ---------- ikcp_input ----------

  /** `ikcp_update_ack`; a signed overflow of an intermediate value is taken to wrap. */
  function UpdateRtt(r: Rtt, cfg: Config, sample: i32): Rtt {
    var (srtt, rttval) :=
      if r.srtt == 0 then (sample, TruncDiv(sample, 2))
      else
        var delta := if sample - r.srtt < 0 then r.srtt - sample else sample - r.srtt;
        var s: i32 := TruncDiv(Signed(Wrap(7 * r.srtt + sample)), 8);
        (if s < 1 then 1 else s, Signed(Wrap(TruncDiv(Signed(Wrap(3 * r.rttval)) + delta, 4))));
    var rto := Wrap(srtt + Max(cfg.interval, Wrap(4 * rttval)));
    Rtt(srtt, rttval, Signed(Min(Max(Wrap(cfg.minRto), rto), RTO_MAX)))
  }

  /** Division of the C language, which truncates towards zero, by the constants it is used with. */
  function TruncDiv(a: int, b: int): (q: int)
    requires b == 2 || b == 4 || b == 8
    ensures (a >= 0 ==> 0 <= q <= a) && (a < 0 ==> a <= q <= 0)
  {
    var m := if a >= 0 then a else -a;
    var q := if b == 2 then m / 2 else if b == 4 then m / 4 else m / 8;
    if a >= 0 then q else -q
  }

  /** The loop of `ikcp_parse_una`. */
  function DropAcked(buf: seq<Segment>, una: u32): seq<Segment> {
    if buf == [] || TimeDiff(una, buf[0].sn) <= 0 then buf else DropAcked(buf[1..], una)
  }

  /** The loop of `ikcp_parse_ack`. */
  function RemoveSn(buf: seq<Segment>, sn: u32): seq<Segment> {
    if buf == [] then []
    else if sn == buf[0].sn then buf[1..]
    else if TimeDiff(sn, buf[0].sn) < 0 then buf
    else [buf[0]] + RemoveSn(buf[1..], sn)
  }

  function Bumped(s: Segment, sn: u32): Segment {
    if sn != s.sn then s.(fastack := Wrap(s.fastack + 1)) else s
  }

  /** The loop of `ikcp_parse_fastack`. */
  function BumpFast(buf: seq<Segment>, sn: u32): seq<Segment> {
    if buf == [] || TimeDiff(sn, buf[0].sn) < 0 then buf
    else [Bumped(buf[0], sn)] + BumpFast(buf[1..], sn)
  }

  /** The test that opens `ikcp_parse_ack` and `ikcp_parse_fastack`. */
  predicate InFlight(snd: Snd, sn: u32) {
    TimeDiff(sn, snd.una) >= 0 && TimeDiff(sn, snd.nxt) < 0
  }

  /** `ikcp_shrink_buf`. */
  function Shrink(snd: Snd): Snd {
    snd.(una := if snd.buf != [] then snd.buf[0].sn else snd.nxt)
  }

  function TakeUna(snd: Snd, una: u32): Snd {
    Shrink(snd.(buf := DropAcked(snd.buf, una)))
  }

  function TakeAck(snd: Snd, sn: u32): Snd {
    Shrink(if InFlight(snd, sn) then snd.(buf := RemoveSn(snd.buf, sn)) else snd)
  }

  function TakeFast(snd: Snd, sn: u32): Snd {
    if InFlight(snd, sn) then snd.(buf := BumpFast(snd.buf, sn)) else snd
  }

  /** The test under which a data segment is acknowledged at all. */
  predicate BelowWindowEnd(rcv: Rcv, wnd: u32, sn: u32) {
    TimeDiff(sn, Wrap(rcv.nxt + wnd)) < 0
  }

  /** How many segments of `rcv_buf` the backward scan of `ikcp_parse_data` leaves in front of the
      place it stops at. */
  function ScanBack(buf: seq<Segment>, sn: u32): (i: nat)
    ensures i <= |buf|
  {
    if buf == [] then 0
    else
      var s := buf[|buf| - 1];
      if s.sn == sn || TimeDiff(sn, s.sn) > 0 then |buf| else ScanBack(buf[..|buf| - 1], sn)
  }

  function Insert(buf: seq<Segment>, s: Segment): seq<Segment> {
    var i := ScanBack(buf, s.sn);
    if i > 0 && buf[i - 1].sn == s.sn then buf else buf[..i] + [s] + buf[i..]
  }

  /** `ikcp_parse_data`. */
  function TakeData(rcv: Rcv, wnd: u32, s: Segment): Rcv {
    if BelowWindowEnd(rcv, wnd, s.sn) && TimeDiff(s.sn, rcv.nxt) >= 0
    then Drain(rcv.(buf := Insert(rcv.buf, s)), wnd) else rcv
  }

  /** What a data segment does to the receiving half: it is acknowledged, then taken if wanted. */
  function TakePush(rcv: Rcv, wnd: u32, s: Segment): Rcv {
    if BelowWindowEnd(rcv, wnd, s.sn) then
      var acked := rcv.(acks := rcv.acks + [Ack(s.sn, s.ts)]);
      if TimeDiff(s.sn, rcv.nxt) >= 0 then TakeData(acked, wnd, s) else acked
    else rcv
  }

  /** The locals `flag`, `maxack` of `ikcp_input`. */
  datatype AckScan = AckScan(seen: bool, maxack: u32)

  function ScanAck(a: AckScan, sn: u32): AckScan {
    if !a.seen then AckScan(true, sn)
    else if TimeDiff(sn, a.maxack) > 0 then a.(maxack := sn)
    else a
  }

  /** The receiving half of one decoded segment. */
  function RcvStep(rcv: Rcv, wnd: u32, s: Segment): Rcv {
    if s.cmd == CMD_PUSH then TakePush(rcv, wnd, s) else rcv
  }

  /** The sending half of one decoded segment. */
  function SndStep(snd: Snd, s: Segment): Snd {
    var snd1 := TakeUna(snd, s.una);
    if s.cmd == CMD_ACK then TakeAck(snd1, s.sn) else snd1
  }

  function RttStep(r: Rtt, cfg: Config, current: u32, s: Segment): Rtt {
    if s.cmd == CMD_ACK && TimeDiff(current, s.ts) >= 0 then UpdateRtt(r, cfg, TimeDiff(current, s.ts)) else r
  }

  /** One turn of the loop of `ikcp_input`, for a segment that passed its checks. */
  function Step(k: Kcb, s: Segment): Kcb {
    k.(snd := SndStep(k.snd, s),
       rcv := RcvStep(k.rcv, k.cfg.rcvWnd, s),
       rtt := RttStep(k.rtt, k.cfg, k.clock.current, s),
       probe := k.probe.(tell := k.probe.tell || s.cmd == CMD_WASK),
       rmtWnd := s.wnd)
  }

  function Steps(k: Kcb, segs: seq<Segment>): (k': Kcb)
    ensures k'.cfg == k.cfg && k'.clock == k.clock && k'.snd.nxt == k.snd.nxt && k'.snd.queue == k.snd.queue
  {
    if segs == [] then k else Step(Steps(k, segs[..|segs| - 1]), segs[|segs| - 1])
  }

  function ScanAcks(segs: seq<Segment>): AckScan {
    if segs == [] then AckScan(false, 0)
    else
      var a, s := ScanAcks(segs[..|segs| - 1]), segs[|segs| - 1];
      if s.cmd == CMD_ACK then ScanAck(a, s.sn) else a
  }

  /** Growth of the congestion window when `snd_una` has moved. */
  function Grow(c: Cong, rmtWnd: u32, mss: u32): Cong
    requires mss > 0
  {
    if c.cwnd >= rmtWnd then c
    else
      var c1 :=
        if c.cwnd < c.ssthresh then c.(cwnd := Wrap(c.cwnd + 1), incr := Wrap(c.incr + mss))
        else
          var base := if c.incr < mss then mss else c.incr;
          var incr := Wrap(base + Div(Mul(mss, mss), base) + mss / 16);
          Cong(if Mul(Wrap(c.cwnd + 1), mss) <= incr then Div(Wrap(incr + mss - 1), mss) else c.cwnd, c.ssthresh, incr);
      if c1.cwnd > rmtWnd then Cong(rmtWnd, c1.ssthresh, Mul(rmtWnd, mss)) else c1
  }

  /** What `ikcp_input` does after its loop ended without an error. */
  function Settle(k: Kcb, prevUna: u32, a: AckScan): Kcb
  {
    var snd := if a.seen then TakeFast(k.snd, a.maxack) else k.snd;
    k.(snd := snd, cong := if TimeDiff(snd.una, prevUna) > 0 then Grow(k.cong, k.rmtWnd, k.cfg.Mss()) else k.cong)
  }

  /** `ikcp_input`. A refused datagram keeps the effect of the segments in front of the bad one. */
  function Input(k: Kcb, data: Bytes): (Kcb, int)
  {
    if |data| < OVERHEAD then (k, -1)
    else
      var p := Parse(k.cfg.conv, data);
      var k1 := Steps(k, p.segs);
      if p.ret != 0 then (k1, p.ret) else (Settle(k1, k.snd.una, ScanAcks(p.segs)), 0)
  }

  // ---------- ikcp_flush ----------

  function WndUnused(rcv: Rcv, wnd: u32): u32 {
    if |rcv.queue| < wnd then wnd - |rcv.queue| else 0
  }

  /** The probe timer, which runs while the peer advertises a zero window. */
  function ProbeTick(p: Probe, rmtWnd: u32, current: u32): Probe {
    if rmtWnd != 0 then p.(tsProbe := 0, wait := 0)
    else if p.wait == 0 then p.(tsProbe := Wrap(current + PROBE_INIT), wait := PROBE_INIT)
    else if TimeDiff(current, p.tsProbe) >= 0 then
      var w := if p.wait < PROBE_INIT then PROBE_INIT else p.wait;
      var wait := Min(Wrap(w + w / 2), PROBE_LIMIT);
      p.(tsProbe := Wrap(current + wait), wait := wait, ask := true)
    else p
  }

  /** The scratch segment of `ikcp_flush`. */
  function Template(k: Kcb): Segment {
    Segment(k.cfg.conv, CMD_ACK, 0, WndUnused(k.rcv, k.cfg.rcvWnd), 0, 0, k.rcv.nxt, [], 0, 0, 0, 0)
  }

  /** A copy of `seg` for every pending acknowledgement. */
  function AcksAs(seg: Segment, acks: seq<Ack>): seq<Segment> {
    seq(|acks|, i requires 0 <= i < |acks| => seg.(sn := acks[i].sn, ts := acks[i].ts))
  }

  /** ACKs in push order, then the window question, then the window announcement; the last two
      reuse the scratch segment with the numbers the last ACK left in it. */
  function Control(seg: Segment, pending: seq<Ack>, p: Probe): seq<Segment> {
    var acks := AcksAs(seg, pending);
    var last := if acks == [] then seg else acks[|acks| - 1];
    acks + (if p.ask then [last.(cmd := CMD_WASK)] else []) + (if p.tell then [last.(cmd := CMD_WINS)] else [])
  }

  /** The local `cwnd` of `ikcp_flush`. */
  function SendWindow(k: Kcb): u32 {
    var w := Min(k.cfg.sndWnd, k.rmtWnd);
    if k.cfg.nocwnd then w else Min(k.cong.cwnd, w)
  }

  /** The values `ikcp_flush` writes into every segment it admits or sends. */
  datatype Stamp = Stamp(conv: u32, now: u32, wnd: u32, una: u32, rto: u32)

  function StampOf(k: Kcb): Stamp {
    Stamp(k.cfg.conv, k.clock.current, WndUnused(k.rcv, k.cfg.rcvWnd), k.rcv.nxt, Wrap(k.rtt.rto))
  }

  function Numbered(s: Segment, sn: u32, st: Stamp): Segment {
    Segment(st.conv, CMD_PUSH, s.frg, st.wnd, st.now, sn, st.una, s.data, st.now, st.rto, 0, 0)
  }

  /** Admission of queued segments to the send window. */
  function Admit(snd: Snd, cwnd: u32, st: Stamp): Snd
    decreases |snd.queue|
  {
    if TimeDiff(snd.nxt, Wrap(snd.una + cwnd)) < 0 && snd.queue != []
    then Admit(Snd(snd.una, Wrap(snd.nxt + 1), snd.queue[1..], snd.buf + [Numbered(snd.queue[0], snd.nxt, st)]),
               cwnd, st)
    else snd
  }

  datatype Policy = Policy(st: Stamp, resent: u32, rtomin: u32, nodelay: u32, fastLimit: i32)

  function PolicyOf(k: Kcb): Policy {
    Policy(StampOf(k), if k.cfg.fastResend > 0 then k.cfg.fastResend else 0xffff_ffff,
           if k.cfg.nodelay == 0 then Wrap(k.rtt.rto) / 8 else 0, k.cfg.nodelay, k.cfg.fastLimit)
  }

  datatype Fate = First | Timeout | Fast | Quiet

  function FateOf(p: Policy, s: Segment): Fate {
    if s.xmit == 0 then First
    else if TimeDiff(p.st.now, s.resendts) >= 0 then Timeout
    else if s.fastack >= p.resent && (Signed(s.xmit) <= p.fastLimit || p.fastLimit <= 0) then Fast
    else Quiet
  }

  /** The retransmission timeout of a segment whose timer ran out. */
  function BackOff(p: Policy, rto: u32): u32 {
    if p.nodelay == 0 then Wrap(rto + Max(rto, p.st.rto))
    else Wrap(rto + TruncDiv(if p.nodelay < 2 then Signed(rto) else Signed(p.st.rto), 2))
  }

  /** A segment of `snd_buf` after the sending loop passed it. */
  function Touch(p: Policy, s: Segment): Segment {
    var now := p.st.now;
    match FateOf(p, s)
    case First =>
      s.(xmit := Wrap(s.xmit + 1), rto := p.st.rto, resendts := Wrap(now + p.st.rto + p.rtomin),
         ts := now, wnd := p.st.wnd, una := p.st.una)
    case Timeout =>
      s.(xmit := Wrap(s.xmit + 1), rto := BackOff(p, s.rto), resendts := Wrap(now + BackOff(p, s.rto)),
         ts := now, wnd := p.st.wnd, una := p.st.una)
    case Fast =>
      s.(xmit := Wrap(s.xmit + 1), fastack := 0, resendts := Wrap(now + s.rto),
         ts := now, wnd := p.st.wnd, una := p.st.una)
    case Quiet => s
  }

  function TouchAll(p: Policy, buf: seq<Segment>): seq<Segment> {
    seq(|buf|, i requires 0 <= i < |buf| => Touch(p, buf[i]))
  }

  /** The segments the sending loop transmits, as transmitted. */
  function Due(p: Policy, buf: seq<Segment>): seq<Segment> {
    if buf == [] then []
    else
      var s := buf[|buf| - 1];
      var due := Due(p, buf[..|buf| - 1]);
      if FateOf(p, s) == Quiet then due else due + [Touch(p, s)]
  }

  /** How many segments of `buf` meet the given fate. */
  function Fated(p: Policy, buf: seq<Segment>, f: Fate): nat {
    if buf == [] then 0
    else Fated(p, buf[..|buf| - 1], f) + if FateOf(p, buf[|buf| - 1]) == f then 1 else 0
  }

  /** Some transmitted segment has been sent too often. */
  predicate AnyDead(due: seq<Segment>, deadLink: u32) {
    exists i :: 0 <= i < |due| && due[i].xmit >= deadLink
  }

  /** The congestion state at the end of a flush. */
  function AfterFlush(c: Cong, fast: bool, lost: bool, inflight: u32, cwnd: u32, resent: u32, mss: u32): Cong {
    var c1 := if fast then
                var ss := Max(inflight / 2, THRESH_MIN);
                Cong(Wrap(ss + resent), ss, Mul(Wrap(ss + resent), mss))
              else c;
    var c2 := if lost then Cong(1, Max(cwnd / 2, THRESH_MIN), mss) else c1;
    if c2.cwnd < 1 then Cong(1, c2.ssthresh, mss) else c2
  }

  datatype Flushed = Flushed(k: Kcb, out: seq<seq<Segment>>)

  /** `ikcp_flush`: the new control block and the datagrams handed to `output`. */
  function Flush(k: Kcb): Flushed {
    if !k.clock.updated then Flushed(k, [])
    else
      var probe := ProbeTick(k.probe, k.rmtWnd, k.clock.current);
      var cwnd, p := SendWindow(k), PolicyOf(k);
      var snd := Admit(k.snd, cwnd, p.st);
      var due := Due(p, snd.buf);
      var lost, fast := Fated(p, snd.buf, Timeout), Fated(p, snd.buf, Fast);
      var cong := AfterFlush(k.cong, fast > 0, lost > 0, Wrap(snd.nxt - snd.una), cwnd, p.resent, k.cfg.Mss());
      Flushed(k.(snd := snd.(buf := TouchAll(p, snd.buf)), rcv := k.rcv.(acks := []), cong := cong,
                 probe := probe.(ask := false, tell := false), xmit := Wrap(k.xmit + lost),
                 state := if AnyDead(due, k.cfg.deadLink) then DEAD else k.state),
              Pack(Control(Template(k), k.rcv.acks, probe) + due, k.cfg.mtu))
  }

  // ---------- ikcp_update and ikcp_check ----------

  /** The flush clock of `ikcp_update` at time `now`, and whether it flushes. */
  function Tick(c: Clock, now: u32, interval: u32): (Clock, bool) {
    var ts0 := if c.updated then c.tsFlush else now;
    var slap0 := TimeDiff(now, ts0);
    var far := slap0 >= 10000 || slap0 < -10000;
    var ts1 := if far then now else ts0;
    if far || slap0 >= 0 then
      var ts2 := Wrap(ts1 + interval);
      (Clock(now, if TimeDiff(now, ts2) >= 0 then Wrap(now + interval) else ts2, true), true)
    else (Clock(now, ts1, true), false)
  }

  function Update(k: Kcb, now: u32): Flushed {
    var (clock, due) := Tick(k.clock, now, k.cfg.interval);
    if due then Flush(k.(clock := clock)) else Flushed(k.(clock := clock), [])
  }

  /** The nearest resend deadline, as a distance from `now`; not positive if one has passed. */
  function NextResend(buf: seq<Segment>, now: u32): i32 {
    if buf == [] then 0x7fff_ffff
    else Min(NextResend(buf[..|buf| - 1], now), TimeDiff(buf[|buf| - 1].resendts, now))
  }

  lemma {:induction false} NextResendAtMost(buf: seq<Segment>, i: nat, now: u32)
    requires i < |buf|
    ensures NextResend(buf, now) <= TimeDiff(buf[i].resendts, now)
  {
    hide TimeDiff;
    if i < |buf| - 1 {
      NextResendAtMost(buf[..|buf| - 1], i, now);
    }
  }

  function Check(k: Kcb, now: u32): u32 {
    var slap := TimeDiff(now, k.clock.tsFlush);
    if !k.clock.updated || slap >= 0 || slap < -10000 then now
    else
      var packet := NextResend(k.snd.buf, now);
      if packet <= 0 then now
      else Wrap(now + Min(Min(packet, TimeDiff(k.clock.tsFlush, now)), k.cfg.interval))
  }
}
