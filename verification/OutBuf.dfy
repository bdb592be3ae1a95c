/** The send buffer of the TCP program and the interest of its event loop in EPOLLOUT. */
module OutBuf {
  import opened Serial
  import opened Seqs

  type Bytes = seq<u8>

  /** An answer of the kernel to `send`: so many bytes at most were taken, or an error. */
  datatype Reply = Took(n: nat) | Again | Interrupted | Failed

  /** What a flush does to the unsent bytes, given the kernel's answers; with no answer left the call
      would block. */
  datatype Flushed = Flushed(sent: Bytes, left: Bytes, code: int)

  function FlushOf(pending: Bytes, replies: seq<Reply>): Flushed
    decreases |replies|
  {
    if pending == [] then Flushed([], [], 0)
    else if replies == [] then Flushed([], pending, 1)
    else
      match replies[0]
      case Took(n) =>
        var m := Min(n, |pending|);
        if m == 0 then Flushed([], pending, -1)
        else
          var f := FlushOf(pending[m..], replies[1..]);
          Flushed(pending[..m] + f.sent, f.left, f.code)
      case Again => Flushed([], pending, 1)
      case Interrupted => FlushOf(pending, replies[1..])
      case Failed => Flushed([], pending, -1)
  }

  /** No byte is lost, repeated or reordered, and the code tells whether any is left. */
  lemma {:induction false} FlushConserves(pending: Bytes, replies: seq<Reply>)
    ensures var f := FlushOf(pending, replies);
            && f.sent + f.left == pending
            && (f.code == 0 <==> f.left == [])
            && (f.code == 0 || f.code == 1 || f.code == -1)
    decreases |replies|
  {
    if pending != [] && replies != [] {
      match replies[0]
      case Took(n) =>
        var m := Min(n, |pending|);
        if m > 0 {
          FlushConserves(pending[m..], replies[1..]);
          var f := FlushOf(pending[m..], replies[1..]);
          Assoc(pending[..m], f.sent, f.left);
          assert pending[..m] + pending[m..] == pending;
        }
      case Interrupted => FlushConserves(pending, replies[1..]);
      case _ =>
    }
  }

  /** One answer of the kernel. */
  lemma {:induction false} FlushOne(pending: Bytes, replies: seq<Reply>, k: nat, sent: Bytes)
    requires pending != [] && k <= |replies|
    ensures var f := FlushOf(pending, replies[k..]);
            if k == |replies| then f == Flushed([], pending, 1)
            else
              match replies[k]
              case Took(n) =>
                var m := Min(n, |pending|);
                if m == 0 then f == Flushed([], pending, -1)
                else
                  var g := FlushOf(pending[m..], replies[k + 1..]);
                  Flushed(sent + f.sent, f.left, f.code) == Flushed(sent + pending[..m] + g.sent, g.left, g.code)
              case Again => f == Flushed([], pending, 1)
              case Interrupted => f == FlushOf(pending, replies[k + 1..])
              case Failed => f == Flushed([], pending, -1)
  {
    if k < |replies| {
      assert replies[k..][0] == replies[k] && replies[k..][1..] == replies[k + 1..];
      match replies[k]
      case Took(n) =>
        var m := Min(n, |pending|);
        if m > 0 {
          Assoc(sent, pending[..m], FlushOf(pending[m..], replies[k + 1..]).sent);
        }
      case _ =>
    }
  }

  lemma {:induction false} FlushNone(replies: seq<Reply>)
    ensures FlushOf([], replies) == Flushed([], [], 0)
  {
  }

  /** `outbuf_t`. */
  class OutBuffer {
    var data: array<u8>
    var len: nat
    var off: nat

    ghost predicate Valid()
      reads this
    {
      off <= len <= data.Length
    }

    /** The bytes still to be sent. */
    ghost function Pending(): Bytes
      reads this, data
    {
      if Valid() then data[off..len] else []
    }

    /** `outbuf_init`. */
    constructor ()
      ensures Valid() && Pending() == [] && fresh(data)
    {
      data, len, off := new u8[0], 0, 0;
    }

    /** `outbuf_empty`. */
    method Empty() returns (empty: bool)
      requires Valid()
      ensures empty <==> Pending() == []
    {
      empty := off >= len;
    }

    /** `outbuf_compact`: moves the unsent bytes to the front, in place. */
    method Compact()
      requires Valid()
      modifies this`len, this`off, data
      ensures Valid() && off == 0 && Pending() == old(Pending())
    {
      if off == 0 {
        return;
      }
      if off >= len {
        off, len := 0, 0;
        return;
      }
      var n := len - off;
      forall i | 0 <= i < n {
        data[i] := data[off + i];
      }
      assert data[..n] == old(data[off..len]);
      len := n;
      off := 0;
    }

    /** `outbuf_append`; `room` if the reallocation succeeds. */
    method Append(p: Bytes, room: bool) returns (ret: int)
      requires Valid()
      modifies this, data
      ensures Valid() && (data == old(data) || fresh(data))
      ensures ret == if p == [] || room then 0 else -1
      ensures Pending() == if ret == 0 then old(Pending()) + p else old(Pending())
    {
      if p == [] {
        return 0;
      }
      var avail := len - off;
      if off > 0 && avail < len {
        Compact();
      }
      if !room {
        return -1;
      }
      var used := len;
      Reallocate(used + |p|);
      ghost var pending := Pending();
      CopyTo(used, p);
      len := used + |p|;
      JoinSlices(data[..], off, used, len, pending, p);
      return 0;
    }

    method CopyTo(used: nat, p: Bytes)
      requires used + |p| <= data.Length
      modifies data
      ensures data[..used] == old(data[..used]) && data[used..used + |p|] == p
    {
      forall i | 0 <= i < |p| {
        data[used + i] := p[i];
      }
    }

    static lemma {:induction false} JoinSlices(d: Bytes, off: nat, used: nat, len: nat, a: Bytes, b: Bytes)
      requires off <= used <= len <= |d| && d[..used][off..] == a && d[used..len] == b
      ensures d[off..len] == a + b
    {
    }

    /** `realloc`, when it succeeds. */
    method Reallocate(size: nat)
      requires Valid() && len <= size
      modifies this`data
      ensures Valid() && fresh(data) && data.Length == size && Pending() == old(Pending())
    {
      var nd := new u8[size];
      forall i | 0 <= i < len {
        nd[i] := data[i];
      }
      data := nd;
    }

    /** The kernel took the next `m` bytes. */
    method Advance(m: nat) returns (taken: Bytes)
      requires Valid() && m <= len - off
      modifies this`off
      ensures Valid() && taken == old(Pending())[..m] && Pending() == old(Pending())[m..]
    {
      taken := data[off..off + m];
      off := off + m;
    }

    /** `outbuf_flush_fd`, given the kernel's answers. */
    method Flush(replies: seq<Reply>) returns (ret: int, sent: Bytes)
      requires Valid()
      modifies this`len, this`off
      ensures Valid()
      ensures FlushOf(old(Pending()), replies) == Flushed(sent, Pending(), ret)
    {
      hide FlushOf;
      sent := [];
      ghost var all := FlushOf(Pending(), replies);
      ghost var left := Pending();
      assert replies[0..] == replies;
      var k := 0;
      while off < len
        invariant Valid() && 0 <= k <= |replies| && len == old(len) && left == Pending()
        invariant var f := FlushOf(left, replies[k..]); all == Flushed(sent + f.sent, f.left, f.code)
        decreases |replies| - k
      {
        FlushOne(left, replies, k, sent);
        assert sent + [] == sent;
        if k == |replies| {
          return 1, sent;
        }
        var reply := replies[k];
        k := k + 1;
        match reply
        case Took(n) =>
          var m := Min(n, len - off);
          if m == 0 {
            return -1, sent;
          }
          var taken := Advance(m);
          sent := sent + taken;
          left := left[m..];
        case Again => return 1, sent;
        case Interrupted =>
        case Failed => return -1, sent;
      }
      FlushNone(replies[k..]);
      assert sent + [] == sent;
      if off >= len {
        off, len := 0, 0;
      }
      ret := 0;
    }
  }

  // ---------- the stage-2 loop ----------

  /** The buffer's unsent bytes, the interest in EPOLLOUT, and the history: every byte appended and every
      byte the kernel took. */
  datatype Chat = Chat(pending: Bytes, armed: bool, stopped: bool, appended: Bytes, sent: Bytes)

  /** An event of the loop: bytes typed by the user, or a socket that can be written. `ok` if `epoll_ctl`
      succeeds. */
  datatype Event = Typed(p: Bytes, room: bool, ok: bool) | Writable(replies: seq<Reply>, ok: bool)

  function Handle(c: Chat, e: Event): Chat {
    if c.stopped then c
    else
      match e
      case Typed(p, room, ok) =>
        if p == [] then c
        else if !room then c.(stopped := true)
        else
          var pending := c.pending + p;
          c.(pending := pending, appended := c.appended + p, armed := if ok then pending != [] else c.armed)
      case Writable(replies, ok) =>
        var f := FlushOf(c.pending, replies);
        c.(pending := f.left, sent := c.sent + f.sent, stopped := f.code < 0,
           armed := if f.code == 0 && ok then false else c.armed)
  }

  function HandleAll(events: seq<Event>): Chat {
    if events == [] then Chat([], false, false, [], [])
    else Handle(HandleAll(events[..|events| - 1]), events[|events| - 1])
  }

  /** The buffer with the loop's variables. */
  class Session {
    const ob: OutBuffer
    var armed: bool
    var stopped: bool
    ghost var appended: Bytes
    ghost var sent: Bytes

    ghost predicate Valid()
      reads this, ob
    {
      ob.Valid()
    }

    ghost function Abs(): Chat
      reads this, ob, ob.data
    {
      Chat(ob.Pending(), armed, stopped, appended, sent)
    }

    constructor ()
      ensures Valid() && Abs() == HandleAll([]) && fresh(ob) && fresh(ob.data)
    {
      var b := new OutBuffer();
      ob, armed, stopped, appended, sent := b, false, false, [], [];
    }

    /** Bytes were read from the terminal. */
    method OnTyped(p: Bytes, room: bool, ok: bool)
      requires Valid() && !stopped
      modifies this, ob, ob.data
      ensures Valid() && (ob.data == old(ob.data) || fresh(ob.data))
      ensures Abs() == Handle(old(Abs()), Typed(p, room, ok))
    {
      if p == [] {
        return;
      }
      var ret := ob.Append(p, room);
      if ret < 0 {
        stopped := true;
        return;
      }
      appended := appended + p;
      var empty := ob.Empty();
      if ok {
        armed := !empty;
      }
    }

    /** The socket can be written. */
    method OnWritable(replies: seq<Reply>, ok: bool)
      requires Valid() && !stopped
      modifies this, ob
      ensures Valid() && ob.data == old(ob.data)
      ensures Abs() == Handle(old(Abs()), Writable(replies, ok))
    {
      hide FlushOf;
      FlushConserves(ob.Pending(), replies);
      ghost var before := sent;
      var r, taken := ob.Flush(replies);
      sent := before + taken;
      if r < 0 {
        stopped := true;
        return;
      }
      if r == 0 && ok {
        armed := false;
      }
    }
  }

  /** Over any events, with any partial sends, interruptions and errors: the bytes sent and the bytes
      left, in this order, are the bytes appended. */
  lemma {:induction false} Conservation(events: seq<Event>)
    ensures var c := HandleAll(events); c.sent + c.pending == c.appended
  {
    if events != [] {
      Conservation(events[..|events| - 1]);
      var c, e := HandleAll(events[..|events| - 1]), events[|events| - 1];
      hide FlushOf;
      match e
      case Typed(p, _, _) => Assoc(c.sent, c.pending, p);
      case Writable(replies, _) =>
        FlushConserves(c.pending, replies);
        var f := FlushOf(c.pending, replies);
        Assoc(c.sent, f.sent, f.left);
    }
  }

  /** While every `epoll_ctl` succeeds and the loop runs, EPOLLOUT is armed exactly when bytes are left:
      nothing waits without the loop being told, and the loop does not spin on an empty buffer. */
  lemma {:induction false} ArmedIffPending(events: seq<Event>)
    requires forall i :: 0 <= i < |events| ==> events[i].ok
    ensures var c := HandleAll(events); !c.stopped ==> (c.armed <==> c.pending != [])
  {
    if events != [] {
      var before, e := events[..|events| - 1], events[|events| - 1];
      ArmedIffPending(before);
      var c := HandleAll(before);
      hide FlushOf;
      match e
      case Writable(replies, _) => FlushConserves(c.pending, replies);
      case _ =>
    }
  }
}
