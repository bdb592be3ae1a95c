/** One endpoint over any sequence of calls, whatever bytes it is given and whatever the clock reads. */
module Calls {
  import opened Serial
  import opened Wire
  import opened Engine
  import opened Invariant

  datatype Call = SendCall(data: Bytes) | RecvCall(len: int) | InputCall(data: Bytes) | UpdateCall(now: u32) | FlushCall

  function After(k: Kcb, c: Call): Kcb {
    match c
    case SendCall(data) => Send(k, data).0
    case RecvCall(len) => Recv(k, len).k
    case InputCall(data) => Input(k, data).0
    case UpdateCall(now) => Update(k, now).k
    case FlushCall => Flush(k).k
  }

  /** The control block after the calls, starting from `k`. */
  function AfterAll(k: Kcb, calls: seq<Call>): Kcb {
    if calls == [] then k else After(AfterAll(k, calls[..|calls| - 1]), calls[|calls| - 1])
  }

  /** The datagrams a call hands to the output callback. */
  function Emits(k: Kcb, c: Call): seq<Bytes> {
    match c
    case UpdateCall(now) => EncodeGroups(Update(k, now).out)
    case FlushCall => EncodeGroups(Flush(k).out)
    case _ => []
  }

  lemma {:induction false} ConfigStays(k: Kcb, c: Call)
    ensures After(k, c).cfg == k.cfg
  {
    hide Enqueue, Receive, Parse, Steps, Admit, TouchAll, Due, Fated, AfterFlush, Pack, Control, ProbeTick,
         AnyDead, Tick, SendWindow, PolicyOf, Template, ScanAcks, Grow, TakeFast;
  }

  lemma {:induction false} CallKeepsInv(k: Kcb, c: Call)
    requires Inv(k)
    ensures Inv(After(k, c)) && After(k, c).cfg == k.cfg
  {
    hide Inv;
    ConfigStays(k, c);
    hide Send, Recv, Input, Update, Flush;
    match c
    case SendCall(data) => SendInv(k, data);
    case RecvCall(len) => RecvInv(k, len);
    case InputCall(data) => InputInv(k, data);
    case UpdateCall(now) => UpdateInv(k, now);
    case FlushCall => FlushInv(k);
  }

  /** The invariant of one endpoint survives any calls. */
  lemma {:induction false} CallsKeepInv(k: Kcb, calls: seq<Call>)
    requires Inv(k)
    ensures Inv(AfterAll(k, calls)) && AfterAll(k, calls).cfg == k.cfg
  {
    hide Inv, After;
    if calls != [] {
      CallsKeepInv(k, calls[..|calls| - 1]);
      CallKeepsInv(AfterAll(k, calls[..|calls| - 1]), calls[|calls| - 1]);
    }
  }

  /** In particular, the invariant holds of every endpoint whatever is done to it. */
  lemma {:induction false} EveryEndpoint(cfg: Config, calls: seq<Call>)
    requires GoodConfig(cfg)
    ensures Inv(AfterAll(Create(cfg), calls))
  {
    CreateInv(cfg);
    CallsKeepInv(Create(cfg), calls);
  }
}
