/** The intrusive circular lists of `ikcp.h` in the heap, and the loops of `ikcp.c` that walk them, relink
    them and write into their segments. */
module Iqueue {
  import opened Serial
  import opened Wire
  import opened Engine
  import opened Receiver
  import Seqs

  /** A list head, or a segment with the list node inside it. */
  class Node {
    var seg: Segment
    var next: Node?
    var prev: Node?

    /** `IQUEUE_INIT`. */
    constructor (seg: Segment)
      ensures Ring([this]) && next == this == prev && this.seg == seg
    {
      this.seg := seg;
      next := this;
      prev := this;
    }
  }

  /** The allocator: the segments that were made and not yet deleted. */
  class Memory {
    ghost var alive: set<Node>

    constructor ()
      ensures alive == {}
    {
      alive := {};
    }

    /** `ikcp_segment_new`, filled by the caller. */
    method New(s: Segment) returns (node: Node)
      modifies this
      ensures fresh(node) && Ring([node]) && node.seg == s && alive == old(alive) + {node}
    {
      node := new Node(s);
      alive := alive + {node};
    }

    /** `ikcp_segment_delete`, which may be called once for each segment. */
    method Delete(node: Node)
      requires node in alive
      modifies this
      ensures alive == old(alive) - {node}
    {
      alive := alive - {node};
    }
  }

  ghost function Nodes(r: seq<Node>): set<Node> {
    set x | x in r
  }

  /** `r` is a circular list: its head, then its entries in order. */
  ghost predicate Ring(r: seq<Node>)
    reads Nodes(r)`next, Nodes(r)`prev
  {
    && r != []
    && Distinct(r)
    && (forall i :: 0 <= i < |r| ==> r[i].next == Succ(r, i) && r[i].prev == Pred(r, i))
  }

  ghost function Succ(r: seq<Node>, i: nat): Node
    requires i < |r|
  {
    if i + 1 < |r| then r[i + 1] else r[0]
  }

  ghost function Pred(r: seq<Node>, i: nat): Node
    requires i < |r|
  {
    if i > 0 then r[i - 1] else r[|r| - 1]
  }

  /** The segments of the entries. */
  ghost function Segs(r: seq<Node>): seq<Segment>
    requires r != []
    reads Nodes(r)
  {
    seq(|r| - 1, i requires 0 <= i < |r| - 1 reads Nodes(r) => r[i + 1].seg)
  }

  // ---------- the operations ----------

  ghost predicate Distinct(r: seq<Node>) {
    forall i, j :: 0 <= i < j < |r| ==> r[i] != r[j]
  }

  /** A list with a member inserted behind index `k`. */
  ghost function With(r: seq<Node>, k: nat, node: Node): seq<Node>
    requires k < |r|
  {
    r[..k + 1] + [node] + r[k + 1..]
  }

  ghost function Without(r: seq<Node>, k: nat): seq<Node>
    requires k < |r|
  {
    r[..k] + r[k + 1..]
  }

  lemma {:induction false} WithAt(r: seq<Node>, k: nat, node: Node, i: nat)
    requires k < |r| && i <= |r|
    ensures var q := With(r, k, node);
            && |q| == |r| + 1
            && q[i] == (if i <= k then r[i] else if i == k + 1 then node else r[i - 1])
            && Succ(q, i) == (if i < k then Succ(r, i) else if i == k then node else Succ(r, i - 1))
            && Pred(q, i) == (if i == k + 1 then r[k]
                              else if i == k + 2 || (i == 0 && k + 1 == |r|) then node
                              else if i <= k then Pred(r, i) else Pred(r, i - 1))
  {
  }

  lemma {:induction false} WithoutAt(r: seq<Node>, k: nat, i: nat)
    requires 0 < k < |r| && i < |r| - 1
    ensures var q := Without(r, k);
            && |q| == |r| - 1
            && q[i] == (if i < k then r[i] else r[i + 1])
            && Succ(q, i) == (if i == k - 1 then Succ(r, k) else if i < k then Succ(r, i) else Succ(r, i + 1))
            && Pred(q, i) == (if i == k || (i == 0 && k + 1 == |r|) then r[k - 1]
                              else if i < k then Pred(r, i) else Pred(r, i + 1))
  {
  }

  lemma {:induction false} WithDistinct(r: seq<Node>, k: nat, node: Node)
    requires Distinct(r) && k < |r| && node !in r
    ensures Distinct(With(r, k, node))
  {
    var q := With(r, k, node);
    forall i, j | 0 <= i < j < |q| ensures q[i] != q[j] {
      WithAt(r, k, node, i);
      WithAt(r, k, node, j);
    }
  }

  lemma {:induction false} WithoutDistinct(r: seq<Node>, k: nat)
    requires Distinct(r) && 0 < k < |r|
    ensures Distinct(Without(r, k)) && r[k] !in Without(r, k)
  {
    var q := Without(r, k);
    forall i | 0 <= i < |q| ensures q[i] != r[k] {
      WithoutAt(r, k, i);
    }
    forall i, j | 0 <= i < j < |q| ensures q[i] != q[j] {
      WithoutAt(r, k, i);
      WithoutAt(r, k, j);
    }
  }

  lemma {:induction false} NodesWith(r: seq<Node>, k: nat, node: Node)
    requires k < |r|
    ensures Nodes(With(r, k, node)) == Nodes(r) + {node}
  {
    var w := With(r, k, node);
    assert node == w[k + 1];
    forall x | x in r ensures x in w {
      var i :| 0 <= i < |r| && r[i] == x;
      assert x == w[if i <= k then i else i + 1];
    }
  }

  lemma {:induction false} NodesWithout(r: seq<Node>, k: nat)
    requires Distinct(r) && 0 < k < |r|
    ensures Nodes(Without(r, k)) == Nodes(r) - {r[k]}
  {
    WithoutDistinct(r, k);
    var w := Without(r, k);
    forall x | x in r && x != r[k] ensures x in w {
      var i :| 0 <= i < |r| && r[i] == x;
      assert x == w[if i < k then i else i - 1];
    }
  }

  lemma {:induction false} SegsWith(r: seq<Node>, k: nat, node: Node)
    requires k < |r|
    ensures Segs(With(r, k, node)) == Segs(r)[..k] + [node.seg] + Segs(r)[k..]
  {
  }

  lemma {:induction false} SegsWithout(r: seq<Node>, k: nat)
    requires 0 < k < |r|
    ensures Segs(Without(r, k)) == Segs(r)[..k - 1] + Segs(r)[k..]
  {
  }

  /** Relinking leaves the segments alone. */
  twostate lemma {:induction false} SegsKept(r: seq<Node>)
    requires r != [] && forall x :: x in r ==> x.seg == old(x.seg)
    ensures Segs(r) == old(Segs(r))
  {
  }

  /** `IQUEUE_IS_EMPTY`. */
  method IsEmpty(head: Node, ghost r: seq<Node>) returns (empty: bool)
    requires Ring(r) && r[0] == head
    ensures empty <==> |r| == 1
  {
    empty := head == head.next;
  }

  /** `IQUEUE_ADD`: behind any member of the list. */
  method Add(node: Node, p: Node, ghost r: seq<Node>, ghost k: nat)
    requires Ring(r) && k < |r| && r[k] == p && node !in r
    modifies Nodes(r)`next, Nodes(r)`prev, node`next, node`prev
    ensures Ring(With(r, k, node)) && Nodes(With(r, k, node)) == Nodes(r) + {node}
    ensures Segs(With(r, k, node)) == old(Segs(r)[..k] + [node.seg] + Segs(r)[k..])
  {
    NodesWith(r, k, node);
    SegsWith(r, k, node);
    WithDistinct(r, k, node);
    hide Segs;
    LinkIn(node, p, r, k);
    hide With, Ring;
    SegsKept(With(r, k, node));
  }

  method LinkIn(node: Node, p: Node, ghost r: seq<Node>, ghost k: nat)
    requires Ring(r) && k < |r| && r[k] == p && node !in r && Distinct(With(r, k, node))
    modifies Nodes(r)`next, Nodes(r)`prev, node`next, node`prev
    ensures Ring(With(r, k, node))
  {
    node.prev := p;
    node.next := p.next;
    p.next.prev := node;
    p.next := node;
    ghost var q := With(r, k, node);
    forall i | 0 <= i < |q| ensures q[i].next == Succ(q, i) && q[i].prev == Pred(q, i) {
      hide With;
      WithAt(r, k, node, i);
    }
  }

  /** `IQUEUE_ADD_TAIL`. */
  method AddTail(node: Node, head: Node, ghost r: seq<Node>)
    requires Ring(r) && r[0] == head && node !in r
    modifies Nodes(r)`next, Nodes(r)`prev, node`next, node`prev
    ensures Ring(r + [node]) && Nodes(r + [node]) == Nodes(r) + {node}
    ensures Segs(r + [node]) == old(Segs(r)) + [old(node.seg)]
  {
    NodesWith(r, |r| - 1, node);
    SegsSnoc(r, node);
    assert With(r, |r| - 1, node) == r + [node];
    hide Segs, With;
    LinkLast(node, head, r);
    hide Ring;
    SegsKept(r + [node]);
  }

  lemma {:induction false} SegsSnoc(r: seq<Node>, node: Node)
    requires r != []
    ensures Segs(r + [node]) == Segs(r) + [node.seg]
  {
  }

  method LinkLast(node: Node, head: Node, ghost r: seq<Node>)
    requires Ring(r) && r[0] == head && node !in r
    modifies Nodes(r)`next, Nodes(r)`prev, node`next, node`prev
    ensures Ring(r + [node])
  {
    node.prev := head.prev;
    node.next := head;
    head.prev.next := node;
    head.prev := node;
  }

  /** `IQUEUE_DEL`. */
  method Del(entry: Node, ghost r: seq<Node>, ghost k: nat)
    requires Ring(r) && 0 < k < |r| && r[k] == entry
    modifies Nodes(r)`next, Nodes(r)`prev
    ensures Ring(Without(r, k)) && Nodes(Without(r, k)) == Nodes(r) - {entry} && entry.next == null
            && entry.prev == null
    ensures Segs(Without(r, k)) == old(Segs(r)[..k - 1] + Segs(r)[k..])
  {
    WithoutDistinct(r, k);
    NodesWithout(r, k);
    SegsWithout(r, k);
    hide Segs;
    Unlink(entry, r, k);
    hide Without, Ring;
    SegsKept(Without(r, k));
  }

  method Unlink(entry: Node, ghost r: seq<Node>, ghost k: nat)
    requires Ring(r) && 0 < k < |r| && r[k] == entry && Distinct(Without(r, k)) && entry !in Without(r, k)
    modifies Nodes(r)`next, Nodes(r)`prev
    ensures Ring(Without(r, k)) && entry.next == null && entry.prev == null
  {
    entry.next.prev := entry.prev;
    entry.prev.next := entry.next;
    entry.next := null;
    entry.prev := null;
    ghost var q := Without(r, k);
    forall i | 0 <= i < |q| ensures q[i].next == Succ(q, i) && q[i].prev == Pred(q, i) {
      hide Without;
      WithoutAt(r, k, i);
    }
  }

  /** An entry is unlinked and deleted. */
  method Remove(entry: Node, mem: Memory, ghost r: seq<Node>, ghost k: nat)
    requires Ring(r) && 0 < k < |r| && r[k] == entry && entry in mem.alive
    modifies Nodes(r)`next, Nodes(r)`prev, mem
    ensures Ring(Without(r, k)) && Nodes(Without(r, k)) == Nodes(r) - {entry}
    ensures Segs(Without(r, k)) == old(Segs(r)[..k - 1] + Segs(r)[k..])
    ensures mem.alive == old(mem.alive) - {entry}
  {
    hide Ring, Segs, Without;
    Del(entry, r, k);
    mem.Delete(entry);
  }

  // ---------- the loops of ikcp.c over these lists ----------

  /** The members that stay when the first `n` entries are taken away. */
  ghost function Rest(r: seq<Node>, n: nat): seq<Node>
    requires n < |r|
  {
    [r[0]] + r[1 + n..]
  }

  lemma {:induction false} RestNext(r: seq<Node>, n: nat)
    requires Distinct(r) && n + 1 < |r|
    ensures Rest(r, n)[1] == r[1 + n] && Without(Rest(r, n), 1) == Rest(r, n + 1) && |Rest(r, n)| == |r| - n
    ensures Nodes(Rest(r, n)) <= Nodes(r)
  {
  }

  lemma {:induction false} RestNone(r: seq<Node>)
    requires r != []
    ensures Rest(r, 0) == r
  {
  }

  lemma {:induction false} FirstIsHead(r: seq<Node>)
    requires Distinct(r) && r != []
    ensures Succ(r, 0) == r[0] <==> |r| == 1
    ensures |r| > 1 ==> Succ(r, 0) == r[1]
  {
  }

  lemma {:induction false} SegsSize(r: seq<Node>)
    requires r != []
    ensures |Segs(r)| == |r| - 1 && (|r| > 1 ==> Segs(r)[0] == r[1].seg && Segs(r)[..0] + Segs(r)[1..] == Segs(r)[1..])
  {
  }

  lemma {:induction false} DropOne(b: seq<Segment>, una: u32)
    ensures if b == [] || TimeDiff(una, b[0].sn) <= 0 then DropAcked(b, una) == b
            else DropAcked(b, una) == DropAcked(b[1..], una)
  {
    hide TimeDiff;
  }

  /** The loop of `ikcp_parse_una` over `snd_buf`. */
  method ParseUna(head: Node, una: u32, mem: Memory, ghost r: seq<Node>) returns (dropped: nat, ghost gone: set<Node>)
    requires Ring(r) && r[0] == head && Nodes(r) <= mem.alive + {head}
    modifies Nodes(r)`next, Nodes(r)`prev, mem
    ensures mem.alive == old(mem.alive) - gone
    ensures dropped < |r| && Ring(Rest(r, dropped)) && Segs(Rest(r, dropped)) == DropAcked(old(Segs(r)), una)
    ensures Nodes(Rest(r, dropped)) == Nodes(r) - gone && gone <= Nodes(r)
  {
    dropped, gone := 0, {};
    RestNone(r);
    ghost var q, b := r, Segs(r);
    hide TimeDiff, Without, Rest, Distinct, Nodes, Segs, DropAcked;
    var p: Node? := head.next;
    FirstIsHead(q);
    while p != head
      invariant dropped < |r| && q == Rest(r, dropped) && |q| == |r| - dropped && Nodes(q) <= Nodes(r)
      invariant Ring(q) && q[0] == head && p == Succ(q, 0) && (p == head <==> |q| == 1)
      invariant DropAcked(Segs(q), una) == DropAcked(b, una)
      invariant mem.alive == old(mem.alive) - gone && Nodes(q) == Nodes(r) - gone && gone <= Nodes(r)
      decreases |q|
    {
      FirstIsHead(q);
      SegsSize(q);
      DropOne(Segs(q), una);
      if TimeDiff(una, p.seg.sn) <= 0 {
        break;
      }
      RestNext(r, dropped);
      RestSize(r, dropped + 1);
      var next := p.next;
      NextOfFirst(q);
      EntryAlive(q, 1, Nodes(r), old(mem.alive), gone);
      Remove(p, mem, q, 1);
      gone := gone + {q[1]};
      q := Without(q, 1);
      FirstIsHead(q);
      dropped := dropped + 1;
      p := next;
      assert Nodes(q) == Nodes(r) - gone;
    }
    SegsSize(q);
    DropOne(Segs(q), una);
  }

  /** An entry of the list that is left of `all` after those in `gone` were deleted is alive. */
  lemma {:induction false} EntryAlive(r: seq<Node>, k: nat, all: set<Node>, alive: set<Node>, gone: set<Node>)
    requires Distinct(r) && 0 < k < |r| && all <= alive + {r[0]} && Nodes(r) == all - gone
    ensures r[k] in Nodes(r) && r[k] in alive - gone
    ensures all - (gone + {r[k]}) == Nodes(r) - {r[k]} && alive - (gone + {r[k]}) == (alive - gone) - {r[k]}
  {
  }

  lemma {:induction false} RestSize(r: seq<Node>, n: nat)
    requires n < |r|
    ensures |Rest(r, n)| == |r| - n && Rest(r, n)[0] == r[0] && Nodes(Rest(r, n)) <= Nodes(r)
  {
  }

  lemma {:induction false} NodesRest(r: seq<Node>, n: nat)
    requires Distinct(r) && n < |r|
    ensures Nodes(Rest(r, n)) == Nodes(r) - Nodes(r[1..1 + n]) && Nodes(r[1..1 + n]) <= Nodes(r)
  {
    var q, gone := Rest(r, n), r[1..1 + n];
    forall x | x in r ensures x in gone || x in q {
      var i :| 0 <= i < |r| && r[i] == x;
      if 0 < i <= n {
        assert gone[i - 1] == x;
      } else {
        assert x == q[if i == 0 then 0 else i - n];
      }
    }
    forall x | x in q ensures x in r && x !in gone {
      var i :| 0 <= i < |q| && q[i] == x;
      assert x == r[if i == 0 then 0 else i + n];
    }
  }

  lemma {:induction false} NextOfFirst(q: seq<Node>)
    requires |q| > 1
    ensures Succ(q, 1) == Succ(Without(q, 1), 0)
  {
  }

  // ---------- walks ----------

  lemma {:induction false} SegsAt(r: seq<Node>, k: nat)
    requires 0 < k < |r|
    ensures |Segs(r)| == |r| - 1 && Segs(r)[k - 1] == r[k].seg
  {
  }

  /** The neighbours of member `k`, and whether they are the head. */
  lemma {:induction false} Neighbours(r: seq<Node>, k: nat)
    requires Ring(r) && k < |r|
    ensures r[k].next == (if k + 1 < |r| then r[k + 1] else r[0]) && (r[k].next == r[0] <==> k + 1 == |r|)
    ensures r[k].prev == (if k > 0 then r[k - 1] else r[|r| - 1]) && (r[k].prev == r[0] <==> k == 1 || |r| == 1)
  {
  }

  lemma {:induction false} RemoveSnStart(b: seq<Segment>, sn: u32)
    ensures b[..0] + RemoveSn(b[0..], sn) == RemoveSn(b, sn)
    ensures b[..|b|] + RemoveSn(b[|b|..], sn) == b
  {
    assert b[0..] == b && b[..|b|] == b;
  }

  lemma {:induction false} RemoveSnAfter(buf: seq<Segment>, p: nat, sn: u32)
    requires p < |buf|
    ensures var r := buf[..p] + RemoveSn(buf[p..], sn);
            r == if sn == buf[p].sn then buf[..p] + buf[p + 1..]
                 else if TimeDiff(sn, buf[p].sn) < 0 then buf
                 else buf[..p + 1] + RemoveSn(buf[p + 1..], sn)
  {
    hide TimeDiff;
    var rest := buf[p..];
    assert rest[0] == buf[p] && rest[1..] == buf[p + 1..];
    Seqs.Assoc(buf[..p], [buf[p]], RemoveSn(rest[1..], sn));
    assert buf[..p] + [buf[p]] == buf[..p + 1];
    assert buf[..p] + rest == buf;
  }

  /** The search of `ikcp_parse_ack` over `snd_buf`. */
  method FindAck(head: Node, sn: u32, ghost r: seq<Node>) returns (found: bool, p: Node, ghost k: nat)
    requires Ring(r) && r[0] == head
    ensures var b := Segs(r);
            if found then 0 < k < |r| && p == r[k] && |b| == |r| - 1 && RemoveSn(b, sn) == b[..k - 1] + b[k..]
            else RemoveSn(b, sn) == b
  {
    ghost var b := Segs(r);
    SegsSize(r);
    Neighbours(r, 0);
    hide TimeDiff, Ring, RemoveSn, Segs;
    k := 1;
    p := head.next;
    RemoveSnStart(b, sn);
    while p != head
      invariant Ring(r) && Segs(r) == b && 0 < k <= |r| && (p == head <==> k == |r|)
                && p == (if k < |r| then r[k] else head)
      invariant b[..k - 1] + RemoveSn(b[k - 1..], sn) == RemoveSn(b, sn)
      decreases |r| - k
    {
      SegsAt(r, k);
      RemoveSnAfter(b, k - 1, sn);
      if sn == p.seg.sn {
        return true, p, k;
      }
      if TimeDiff(sn, p.seg.sn) < 0 {
        break;
      }
      Neighbours(r, k);
      p := p.next;
      k := k + 1;
    }
    found := false;
  }

  /** The loop of `ikcp_parse_ack` over `snd_buf`; entry `k` is dropped, or none. */
  method ParseAck(head: Node, sn: u32, mem: Memory, ghost r: seq<Node>) returns (dropped: bool, ghost k: nat)
    requires Ring(r) && r[0] == head && Nodes(r) <= mem.alive + {head}
    modifies Nodes(r)`next, Nodes(r)`prev, mem
    ensures dropped ==> 0 < k < |r| && Ring(Without(r, k)) && Segs(Without(r, k)) == RemoveSn(old(Segs(r)), sn)
    ensures dropped ==> mem.alive == old(mem.alive) - {r[k]}
    ensures !dropped ==> Ring(r) && Segs(r) == old(Segs(r)) == RemoveSn(old(Segs(r)), sn) && mem.alive == old(mem.alive)
  {
    hide Without, Ring, Nodes, RemoveSn, Segs;
    NotEmpty(r);
    SegsSize(r);
    var p;
    dropped, p, k := FindAck(head, sn, r);
    if dropped {
      EntryAlive(r, k, Nodes(r), mem.alive, {});
      Remove(p, mem, r, k);
    }
  }

  /** Writes into the segment of entry `k`. */
  method Write(p: Node, s: Segment, ghost r: seq<Node>, ghost k: nat)
    requires Ring(r) && 0 < k < |r| && r[k] == p
    modifies p`seg
    ensures p.seg == s && Segs(r) == old(Segs(r))[k - 1 := s]
  {
    p.seg := s;
  }

  lemma {:induction false} BumpStart(b: seq<Segment>, sn: u32)
    ensures b[..0] + BumpFast(b[0..], sn) == BumpFast(b, sn)
    ensures forall c: seq<Segment> :: |c| == |b| ==> c[..|b|] + BumpFast(b[|b|..], sn) == c
  {
    assert b[0..] == b;
  }

  lemma {:induction false} BumpAfter(c: seq<Segment>, b: seq<Segment>, p: nat, sn: u32)
    requires p < |c| == |b| && c[p..] == b[p..]
    ensures TimeDiff(sn, c[p].sn) < 0 ==> c[..p] + BumpFast(b[p..], sn) == c
    ensures TimeDiff(sn, c[p].sn) >= 0 ==>
              c[..p] + BumpFast(b[p..], sn) == c[p := Bumped(c[p], sn)][..p + 1] + BumpFast(b[p + 1..], sn)
    ensures c[p := Bumped(c[p], sn)][p + 1..] == b[p + 1..]
  {
    hide TimeDiff, Bumped;
    var rest, s' := b[p..], Bumped(c[p], sn);
    assert rest[0] == c[p..][0] && rest[1..] == c[p..][1..];
    assert rest[1..] == b[p + 1..] && c[p..][1..] == c[p + 1..];
    Seqs.Assoc(c[..p], [s'], BumpFast(b[p + 1..], sn));
    assert c[p := s'][..p + 1] == c[..p] + [s'];
    assert c[..p] + c[p..] == c;
  }

  /** The walk of `ikcp_parse_fastack` has come to entry `k` of a list that held `b` and now holds `c`. */
  ghost predicate BumpedTo(c: seq<Segment>, b: seq<Segment>, k: nat, sn: u32) {
    0 < k <= |b| + 1 && |c| == |b| && c[k - 1..] == b[k - 1..]
      && c[..k - 1] + BumpFast(b[k - 1..], sn) == BumpFast(b, sn)
  }

  lemma {:induction false} BumpStep(c: seq<Segment>, b: seq<Segment>, k: nat, sn: u32)
    requires BumpedTo(c, b, k, sn)
    ensures |c| == |b|
    ensures k == |b| + 1 || TimeDiff(sn, c[k - 1].sn) < 0 ==> c == BumpFast(b, sn)
    ensures k <= |b| && TimeDiff(sn, c[k - 1].sn) >= 0 ==> BumpedTo(c[k - 1 := Bumped(c[k - 1], sn)], b, k + 1, sn)
  {
    hide TimeDiff, Bumped;
    if k <= |b| {
      BumpAfter(c, b, k - 1, sn);
    } else {
      BumpStart(b, sn);
    }
  }

  lemma {:induction false} BumpBegins(b: seq<Segment>, sn: u32)
    ensures BumpedTo(b, b, 1, sn)
  {
    BumpStart(b, sn);
  }

  /** The loop of `ikcp_parse_fastack` over `snd_buf`, which counts in place. */
  method ParseFastack(head: Node, sn: u32, ghost r: seq<Node>)
    requires Ring(r) && r[0] == head
    modifies Nodes(r)`seg
    ensures Segs(r) == BumpFast(old(Segs(r)), sn)
  {
    hide TimeDiff, BumpFast, Bumped, Segs, Ring, BumpedTo;
    NotEmpty(r);
    ghost var b, k: nat := Segs(r), 1;
    SegsSize(r);
    Neighbours(r, 0);
    InNodes(r);
    BumpBegins(b, sn);
    var p: Node? := head.next;
    while p != head
      invariant Ring(r) && 0 < k <= |r| && (p == head <==> k == |r|) && p == (if k < |r| then r[k] else head)
      invariant BumpedTo(Segs(r), b, k, sn)
      decreases |r| - k
    {
      SegsAt(r, k);
      BumpStep(Segs(r), b, k, sn);
      if TimeDiff(sn, p.seg.sn) < 0 {
        return;
      }
      Neighbours(r, k);
      Write(p, Bumped(p.seg, sn), r, k);
      p := p.next;
      k := k + 1;
    }
    BumpStep(Segs(r), b, k, sn);
  }

  lemma {:induction false} InNodes(r: seq<Node>)
    ensures forall i :: 0 <= i < |r| ==> r[i] in Nodes(r)
  {
  }

  /** What the backward scan finds among the first `k` segments. */
  ghost function Scan(b: seq<Segment>, k: nat, sn: u32): nat {
    if k <= |b| then ScanBack(b[..k], sn) else 0
  }

  lemma {:induction false} ScanStep(b: seq<Segment>, k: nat, sn: u32)
    requires k <= |b|
    ensures Scan(b, |b|, sn) == ScanBack(b, sn)
    ensures Scan(b, k, sn) == if k == 0 then 0
                              else if b[k - 1].sn == sn || TimeDiff(sn, b[k - 1].sn) > 0 then k else Scan(b, k - 1, sn)
  {
    hide TimeDiff;
    assert b[..|b|] == b;
    if k > 0 {
      assert b[..k][..k - 1] == b[..k - 1] && b[..k][k - 1] == b[k - 1];
    }
  }

  /** The backward scan of `ikcp_parse_data` over `rcv_buf`: the place behind which a segment goes, and
      whether its number is there already. */
  method FindPlace(head: Node, sn: u32, ghost r: seq<Node>) returns (p: Node, repeat: bool, ghost k: nat)
    requires Ring(r) && r[0] == head
    ensures k < |r| && r[k] == p && k == ScanBack(Segs(r), sn)
    ensures repeat <==> k > 0 && Segs(r)[k - 1].sn == sn
  {
    hide TimeDiff, Ring, Segs, ScanBack, Scan;
    NotEmpty(r);
    ghost var b := Segs(r);
    SegsSize(r);
    Neighbours(r, 0);
    k := |b|;
    IsHead(r, k);
    ScanStep(b, k, sn);
    p, repeat := head.prev, false;
    while p != head
      invariant Ring(r) && Segs(r) == b && k < |r| && p == r[k] && (p == head <==> k == 0)
                && Scan(b, k, sn) == ScanBack(b, sn)
      decreases k
    {
      SegsAt(r, k);
      ScanStep(b, k, sn);
      if p.seg.sn == sn {
        return p, true, k;
      }
      if TimeDiff(sn, p.seg.sn) > 0 {
        return p, false, k;
      }
      Neighbours(r, k);
      IsHead(r, k - 1);
      p := p.prev;
      k := k - 1;
    }
    ScanStep(b, k, sn);
  }

  lemma {:induction false} NotEmpty(r: seq<Node>)
    requires Ring(r)
    ensures r != [] && Distinct(r)
  {
  }

  lemma {:induction false} IsHead(r: seq<Node>, k: nat)
    requires Ring(r) && k < |r|
    ensures r[k] == r[0] <==> k == 0
  {
  }

  lemma {:induction false} InsertIs(b: seq<Segment>, s: Segment)
    ensures var k := ScanBack(b, s.sn);
            var repeat := k > 0 && b[k - 1].sn == s.sn;
            Insert(b, s) == (if repeat then b else b[..k] + [s] + b[k..]) && (Insert(b, s) == b <==> repeat)
  {
    hide ScanBack;
    var k := ScanBack(b, s.sn);
    assert |b[..k] + [s] + b[k..]| == |b| + 1;
  }

  /** The insertion of `ikcp_parse_data`, behind member `k` or not at all. */
  method InsertData(head: Node, node: Node, mem: Memory, ghost r: seq<Node>) returns (added: bool, ghost k: nat)
    requires Ring(r) && r[0] == head && node !in r && node in mem.alive
    modifies Nodes(r)`next, Nodes(r)`prev, node`next, node`prev, mem
    ensures added ==> k < |r| && Ring(With(r, k, node)) && Nodes(With(r, k, node)) == Nodes(r) + {node}
                      && Segs(With(r, k, node)) == Insert(old(Segs(r)), old(node.seg))
    ensures added <==> Insert(old(Segs(r)), old(node.seg)) != old(Segs(r))
    ensures mem.alive == if added then old(mem.alive) else old(mem.alive) - {node}
    ensures !added ==> Ring(r) && Segs(r) == old(Segs(r)) == Insert(old(Segs(r)), old(node.seg))
  {
    hide ScanBack, Ring, Segs, With, Insert;
    NotEmpty(r);
    SegsSize(r);
    InsertIs(Segs(r), node.seg);
    var p, repeat;
    p, repeat, k := FindPlace(head, node.seg.sn, r);
    added := !repeat;
    if !repeat {
      Add(node, p, r, k);
    } else {
      mem.Delete(node);
    }
  }

  // ---------- from one list to another ----------

  /** Moves the first entry of a list to the end of another. */
  method MoveFirst(from: Node, to: Node, ghost r: seq<Node>, ghost t: seq<Node>) returns (entry: Node)
    requires Ring(r) && r[0] == from && Ring(t) && t[0] == to && Nodes(r) !! Nodes(t) && |r| > 1
    modifies Nodes(r)`next, Nodes(r)`prev, Nodes(t)`next, Nodes(t)`prev
    ensures entry == r[1] && Ring(Without(r, 1)) && Ring(t + [entry])
    ensures Nodes(Without(r, 1)) == Nodes(r) - {entry} && Nodes(t + [entry]) == Nodes(t) + {entry}
    ensures Segs(Without(r, 1)) == old(Segs(r))[1..] && Segs(t + [entry]) == old(Segs(t)) + [old(Segs(r))[0]]
  {
    hide With, Without, Ring, Segs;
    SegsSize(r);
    Neighbours(r, 0);
    NotEmpty(t);
    InNodes(r);
    entry := from.next;
    Del(entry, r, 1);
    AddTail(entry, to, t);
  }

  /** A list `t` behind which the first `n` entries of `r` were appended. */
  ghost function Joined(r: seq<Node>, t: seq<Node>, n: nat): seq<Node>
    requires n < |r|
  {
    t + r[1..1 + n]
  }

  /** Two lists between which entries are moved share no member, and together keep them all. */
  lemma {:induction false} Shared(r: seq<Node>, t: seq<Node>, n: nat)
    requires n < |r| && t != [] && Distinct(r) && Nodes(r) !! Nodes(t)
    ensures Nodes(Rest(r, n)) !! Nodes(Joined(r, t, n)) && Nodes(Rest(r, n)) + Nodes(Joined(r, t, n))
            == Nodes(r) + Nodes(t)
    ensures |Rest(r, n)| == |r| - n && |Joined(r, t, n)| == |t| + n && Rest(r, n)[0] == r[0]
            && Joined(r, t, n)[0] == t[0]
  {
    var a, b := Rest(r, n), Joined(r, t, n);
    forall x | x in r ensures x in a || x in b {
      var i :| 0 <= i < |r| && r[i] == x;
      if i == 0 {
        assert x == a[0];
      } else if i > n {
        assert x == a[i - n];
      } else {
        assert x == b[|t| + i - 1];
      }
    }
    forall x | x in t ensures x in b {
      var i :| 0 <= i < |t| && t[i] == x;
      assert x == b[i];
    }
    forall x | x in a ensures x in r && x !in b {
      var i :| 0 <= i < |a| && a[i] == x;
      var j := if i == 0 then 0 else i + n;
      assert x == r[j];
      assert x in Nodes(r);
    }
    forall x | x in b ensures x in r || x in t {
    }
  }

  lemma {:induction false} JoinedNext(r: seq<Node>, t: seq<Node>, n: nat)
    requires n + 1 < |r|
    ensures Joined(r, t, n) + [r[n + 1]] == Joined(r, t, n + 1)
  {
  }

  /** Moves entry `n + 1` of `r`, which is the first that is left. */
  method MoveNext(from: Node, to: Node, ghost r: seq<Node>, ghost t: seq<Node>, ghost n: nat) returns (entry: Node)
    requires n + 1 < |r| && t != [] && Distinct(r) && Nodes(r) !! Nodes(t) && r[0] == from && t[0] == to
    requires Ring(Rest(r, n)) && Ring(Joined(r, t, n))
    modifies Nodes(r)`next, Nodes(r)`prev, Nodes(t)`next, Nodes(t)`prev
    ensures entry == r[n + 1] && Ring(Rest(r, n + 1)) && Ring(Joined(r, t, n + 1))
            && Joined(r, t, n + 1)[|t| + n] == entry
    ensures Segs(Rest(r, n + 1)) == old(Segs(Rest(r, n)))[1..]
    ensures Segs(Joined(r, t, n + 1)) == old(Segs(Joined(r, t, n))) + [old(Segs(Rest(r, n)))[0]]
  {
    Shared(r, t, n);
    RestNext(r, n);
    JoinedNext(r, t, n);
    hide Rest, Joined, Ring, Segs, Without, Nodes;
    entry := MoveFirst(from, to, Rest(r, n), Joined(r, t, n));
  }

  /** The loop that moves segments from `rcv_buf` to `rcv_queue`. */
  method MoveAvailable(buf: Node, queue: Node, nxt: u32, nque: nat, wnd: u32, ghost r: seq<Node>, ghost t: seq<Node>)
    returns (nxt': u32, moved: nat)
    requires Ring(r) && r[0] == buf && Ring(t) && t[0] == queue && Nodes(r) !! Nodes(t) && nque == |t| - 1
    modifies Nodes(r)`next, Nodes(r)`prev, Nodes(t)`next, Nodes(t)`prev
    ensures moved < |r| && Ring(Rest(r, moved)) && Ring(Joined(r, t, moved))
    ensures Rcv(nxt', Segs(Joined(r, t, moved)), Segs(Rest(r, moved)), [])
            == Drain(old(Rcv(nxt, Segs(t), Segs(r), [])), wnd)
    ensures moved > 0 ==> nque + moved <= wnd
  {
    hide Wrap, Drain, Ring, Segs, Rest, Joined;
    NotEmpty(r);
    NotEmpty(t);
    nxt', moved := nxt, 0;
    ghost var all := Drain(Rcv(nxt, Segs(t), Segs(r), []), wnd);
    JoinedNone(r, t);
    Shared(r, t, 0);
    Neighbours(r, 0);
    while buf != buf.next
      invariant moved < |r| && Ring(Rest(r, moved)) && Ring(Joined(r, t, moved))
      invariant |Rest(r, moved)| == |r| - moved && Rest(r, moved)[0] == buf && |Joined(r, t, moved)| == |t| + moved
      invariant buf == buf.next <==> moved + 1 == |r|
      invariant moved > 0 ==> nque + moved <= wnd
      invariant buf != buf.next ==> moved + 1 < |r| && buf.next == r[moved + 1]
      invariant Drain(Rcv(nxt', Segs(Joined(r, t, moved)), Segs(Rest(r, moved)), []), wnd) == all
      decreases |r| - moved
    {
      SegsSize(Rest(r, moved));
      SegsSize(Joined(r, t, moved));
      RestNext(r, moved);
      var seg := buf.next.seg;
      if seg.sn != nxt' || nque + moved >= wnd {
        break;
      }
      DrainStep(Rcv(nxt', Segs(Joined(r, t, moved)), Segs(Rest(r, moved)), []), wnd);
      Shared(r, t, moved + 1);
      var entry := MoveNext(buf, queue, r, t, moved);
      moved := moved + 1;
      nxt' := Wrap(nxt' + 1);
      Neighbours(Rest(r, moved), 0);
      if moved + 1 < |r| {
        RestNext(r, moved);
      }
    }
    SegsSize(Rest(r, moved));
    SegsSize(Joined(r, t, moved));
    DrainIdle(Rcv(nxt', Segs(Joined(r, t, moved)), Segs(Rest(r, moved)), []), wnd);
  }

  lemma {:induction false} JoinedNone(r: seq<Node>, t: seq<Node>)
    requires r != []
    ensures Joined(r, t, 0) == t && Rest(r, 0) == r
  {
  }

  lemma {:induction false} AdmitUnfold(snd: Snd, cwnd: u32, st: Stamp)
    ensures Admit(snd, cwnd, st)
         == if TimeDiff(snd.nxt, Wrap(snd.una + cwnd)) < 0 && snd.queue != []
            then Admit(Snd(snd.una, Wrap(snd.nxt + 1), snd.queue[1..],
                           snd.buf + [Numbered(snd.queue[0], snd.nxt, st)]), cwnd, st)
            else snd
  {
  }

  /** Moves the first segment left of `snd_queue` to `snd_buf` and writes its number and stamps into it. */
  method AdmitNext(queue: Node, buf: Node, sn: u32, st: Stamp, ghost r: seq<Node>, ghost t: seq<Node>, ghost n: nat)
    requires n + 1 < |r| && t != [] && Distinct(r) && Nodes(r) !! Nodes(t) && r[0] == queue && t[0] == buf
    requires Ring(Rest(r, n)) && Ring(Joined(r, t, n))
    modifies Nodes(r)`next, Nodes(r)`prev, Nodes(t)`next, Nodes(t)`prev, Nodes(r)`seg
    ensures Ring(Rest(r, n + 1)) && Ring(Joined(r, t, n + 1))
    ensures Segs(Rest(r, n + 1)) == old(Segs(Rest(r, n)))[1..]
    ensures Segs(Joined(r, t, n + 1)) == old(Segs(Joined(r, t, n))) + [Numbered(old(Segs(Rest(r, n)))[0], sn, st)]
  {
    hide Ring, Segs, Numbered, Without, Rest, Joined;
    Shared(r, t, n);
    Shared(r, t, n + 1);
    InNodes(r);
    ghost var a, b := Segs(Rest(r, n)), Segs(Joined(r, t, n));
    SegsSize(Rest(r, n));
    SegsSize(Joined(r, t, n));
    var newseg := MoveNext(queue, buf, r, t, n);
    ghost var t' := Joined(r, t, n + 1);
    InNodes(t');
    SegsAt(t', |t| + n);
    Write(newseg, Numbered(newseg.seg, sn, st), t', |t| + n);
    LastWritten(b, a[0], newseg.seg);
  }

  lemma {:induction false} LastWritten(b: seq<Segment>, s: Segment, s': Segment)
    ensures (b + [s])[|b| := s'] == b + [s']
  {
  }

  /** The admission loop from `snd_queue` to `snd_buf`. */
  method AdmitAll(queue: Node, buf: Node, una: u32, nxt: u32, cwnd: u32, st: Stamp, ghost r: seq<Node>,
                  ghost t: seq<Node>)
    returns (nxt': u32, moved: nat)
    requires Ring(r) && r[0] == queue && Ring(t) && t[0] == buf && Nodes(r) !! Nodes(t)
    modifies Nodes(r)`next, Nodes(r)`prev, Nodes(t)`next, Nodes(t)`prev, Nodes(r)`seg
    ensures moved < |r| && Ring(Rest(r, moved)) && Ring(Joined(r, t, moved))
    ensures Snd(una, nxt', Segs(Rest(r, moved)), Segs(Joined(r, t, moved)))
         == Admit(old(Snd(una, nxt, Segs(r), Segs(t))), cwnd, st)
  {
    hide Wrap, TimeDiff, Admit, Numbered, Ring, Segs, Rest, Joined, Nodes;
    NotEmpty(r);
    NotEmpty(t);
    nxt', moved := nxt, 0;
    ghost var all := Admit(Snd(una, nxt, Segs(r), Segs(t)), cwnd, st);
    JoinedNone(r, t);
    Shared(r, t, 0);
    AdmitUnfold(Snd(una, nxt, Segs(r), Segs(t)), cwnd, st);
    while TimeDiff(nxt', Wrap(una + cwnd)) < 0
      invariant moved < |r| && Ring(Rest(r, moved)) && Ring(Joined(r, t, moved))
      invariant |Rest(r, moved)| == |r| - moved && Rest(r, moved)[0] == queue && Joined(r, t, moved) != []
      invariant Admit(Snd(una, nxt', Segs(Rest(r, moved)), Segs(Joined(r, t, moved))), cwnd, st) == all
      decreases |r| - moved
    {
      SegsSize(Rest(r, moved));
      Neighbours(Rest(r, moved), 0);
      AdmitUnfold(Snd(una, nxt', Segs(Rest(r, moved)), Segs(Joined(r, t, moved))), cwnd, st);
      if queue == queue.next {
        break;
      }
      Shared(r, t, moved + 1);
      AdmitNext(queue, buf, nxt', st, r, t, moved);
      moved := moved + 1;
      nxt' := Wrap(nxt' + 1);
    }
    AdmitUnfold(Snd(una, nxt', Segs(Rest(r, moved)), Segs(Joined(r, t, moved))), cwnd, st);
  }

  // ---------- ikcp_recv, ikcp_peeksize ----------

  lemma {:induction false} MergeOne(rest: seq<Segment>, data: Bytes)
    requires rest != []
    ensures var m := MergeCount(rest);
            && data + Payload(rest[..m]) == (data + rest[0].data) + Payload(rest[1..][..m - 1])
            && m - 1 == if rest[0].frg == 0 then 0 else MergeCount(rest[1..])
  {
    var m := MergeCount(rest);
    Seqs.SliceTail(rest, m);
    Seqs.Assoc(data, rest[0].data, Payload(rest[1..][..m - 1]));
  }

  /** The assertion `len == peeksize` of `ikcp_recv` holds. */
  lemma {:induction false} PeekIsPayload(queue: seq<Segment>)
    ensures Engine.PeekSize(queue) >= 0 ==> Engine.PeekSize(queue) == |Payload(queue[..MergeCount(queue)])|
  {
    if queue != [] && queue[0].frg == 0 {
      assert queue[..1] == [queue[0]];
      assert Payload([queue[0]]) == queue[0].data + Payload([]);
    }
  }

  /** The merge loop of `ikcp_recv` has taken `n` segments of `b` and goes on. */
  ghost predicate MergedTo(b: seq<Segment>, n: nat, data: Bytes) {
    && n <= |b| && MergeCount(b) == n + MergeCount(b[n..])
    && data + Payload(b[n..][..MergeCount(b[n..])]) == Payload(b[..MergeCount(b)])
  }

  lemma {:induction false} MergeBegins(b: seq<Segment>)
    ensures MergedTo(b, 0, [])
  {
    assert b[0..] == b;
  }

  lemma {:induction false} MergeStep(b: seq<Segment>, n: nat, data: Bytes)
    requires MergedTo(b, n, data)
    ensures n == |b| ==> MergeCount(b) == n && Payload(b[..n]) == data
    ensures n < |b| && b[n].frg == 0 ==> MergeCount(b) == n + 1 && Payload(b[..n + 1]) == data + b[n].data
    ensures n < |b| && b[n].frg != 0 ==> MergedTo(b, n + 1, data + b[n].data)
  {
    if n < |b| {
      var rest := b[n..];
      assert rest[0] == b[n] && rest[1..] == b[n + 1..];
      MergeOne(rest, data);
    } else {
      assert b[n..] == [] && data + [] == data;
    }
  }

  /** The merge loop has passed `n` entries of `r`: `q` are its members now, `gone` those it deleted. */
  ghost predicate Passing(r: seq<Node>, q: seq<Node>, n: nat, ispeek: bool, gone: set<Node>) {
    && n < |r| && q == (if ispeek then r else Rest(r, n)) && q != [] && q[0] == r[0]
    && Nodes(q) == Nodes(r) - gone && gone <= Nodes(r) && (ispeek ==> gone == {})
  }

  lemma {:induction false} PassBegins(r: seq<Node>, ispeek: bool)
    requires r != []
    ensures Passing(r, r, 0, ispeek, {})
  {
    RestNone(r);
  }

  /** Entry `k` of `q` is the next, and what follows it. */
  lemma {:induction false} PassNext(r: seq<Node>, q: seq<Node>, n: nat, ispeek: bool, gone: set<Node>)
    requires Passing(r, q, n, ispeek, gone) && Distinct(r) && n + 1 < |r|
    ensures var k := if ispeek then n + 1 else 1;
            && 0 < k < |q| && q[k] == r[n + 1] && (if k + 1 < |q| then q[k + 1] else q[0])
                                                  == (if n + 2 < |r| then r[n + 2] else r[0])
    ensures ispeek ==> Passing(r, q, n + 1, true, gone)
    ensures !ispeek ==> Passing(r, Without(q, 1), n + 1, false, gone + {q[1]})
  {
    hide Rest, Without, Nodes;
    NotEmptyRest(r, n);
    RestNext(r, n);
    NextLeft(r, n);
    RestSize(r, n + 1);
    if !ispeek {
      DistinctRest(r, n);
      NodesWithout(q, 1);
      InNodes(q);
    }
  }

  lemma {:induction false} NotEmptyRest(r: seq<Node>, n: nat)
    requires n < |r|
    ensures Rest(r, n) != [] && Rest(r, n)[0] == r[0]
  {
  }

  lemma {:induction false} DistinctRest(r: seq<Node>, n: nat)
    requires Distinct(r) && n < |r|
    ensures Distinct(Rest(r, n))
  {
  }

  /** The merge loop of `ikcp_recv`: the payload of the first message, whose segments a peek leaves where
      they are. */
  method Merge(head: Node, ispeek: bool, mem: Memory, ghost r: seq<Node>)
    returns (data: Bytes, n: nat, ghost gone: set<Node>)
    requires Ring(r) && r[0] == head && Nodes(r) <= mem.alive + {head}
    modifies Nodes(r)`next, Nodes(r)`prev, mem
    ensures mem.alive == old(mem.alive) - gone && gone <= Nodes(r)
    ensures n == MergeCount(old(Segs(r))) < |r| && data == Payload(old(Segs(r))[..n])
    ensures if ispeek then Ring(r) && Segs(r) == old(Segs(r)) && gone == {}
            else Ring(Rest(r, n)) && Segs(Rest(r, n)) == old(Segs(r))[n..] && Nodes(Rest(r, n)) == Nodes(r) - gone
  {
    hide Ring, Segs, Rest, MergeCount, Payload, MergedTo, Without, Nodes, Passing, Distinct;
    NotEmpty(r);
    ghost var b, q := Segs(r), r;
    SegsSize(r);
    PassBegins(r, ispeek);
    MergeBegins(b);
    Neighbours(r, 0);
    data, n, gone := [], 0, {};
    var p: Node? := head.next;
    while p != head
      invariant |b| == |r| - 1 && n < |r| && MergedTo(b, n, data) && Passing(r, q, n, ispeek, gone)
      invariant Ring(q) && q != [] && q[0] == head && Nodes(q) <= Nodes(r)
      invariant Segs(q) == if ispeek then b else b[n..]
      invariant mem.alive == old(mem.alive) - gone
      invariant (p == head <==> n + 1 == |r|) && (p != head ==> n + 1 < |r| && p == r[n + 1])
      decreases |r| - n
    {
      ghost var k := if ispeek then n + 1 else 1;
      NotEmpty(q);
      PassNext(r, q, n, ispeek, gone);
      SegsAt(q, k);
      Neighbours(q, k);
      HeadOnce(r);
      MergeStep(b, n, data);
      TailOf(b, n);
      var seg := p;
      p := p.next;
      data := data + seg.seg.data;
      var fragment := seg.seg.frg;
      if !ispeek {
        q, gone := TakeFirst(seg, mem, r, q, n, gone, old(mem.alive));
      }
      n := n + 1;
      PassShape(r, q, n, ispeek, gone);
      if fragment == 0 {
        PassEnds(r, q, n, ispeek, gone);
        return;
      }
    }
    MergeStep(b, n, data);
    PassEnds(r, q, n, ispeek, gone);
  }

  /** The merge loop unlinks and deletes the first entry left. */
  method TakeFirst(seg: Node, mem: Memory, ghost r: seq<Node>, ghost q: seq<Node>, ghost n: nat, ghost gone: set<Node>,
                   ghost alive: set<Node>) returns (ghost q': seq<Node>, ghost gone': set<Node>)
    requires Ring(q) && Passing(r, q, n, false, gone) && Distinct(r) && n + 1 < |r| && seg == r[n + 1]
    requires mem.alive == alive - gone && Nodes(r) <= alive + {r[0]}
    modifies Nodes(q)`next, Nodes(q)`prev, mem
    ensures Ring(q') && Passing(r, q', n + 1, false, gone') && mem.alive == alive - gone'
    ensures q' != [] && Segs(q') == old(Segs(q))[..0] + old(Segs(q))[1..]
  {
    hide Ring, Segs, Rest, Without, Nodes, Passing, Distinct;
    NotEmpty(q);
    PassNext(r, q, n, false, gone);
    StillAlive(r, q, n, gone, alive);
    Remove(seg, mem, q, 1);
    q', gone' := Without(q, 1), gone + {q[1]};
    PassShape(r, q', n + 1, false, gone');
  }

  lemma {:induction false} StillAlive(r: seq<Node>, q: seq<Node>, n: nat, gone: set<Node>, alive: set<Node>)
    requires Passing(r, q, n, false, gone) && Distinct(q) && |q| > 1 && Nodes(r) <= alive + {r[0]}
    ensures q[1] in alive - gone && alive - gone - {q[1]} == alive - (gone + {q[1]})
  {
    EntryAlive(q, 1, Nodes(r), alive, gone);
  }

  lemma {:induction false} HeadOnce(r: seq<Node>)
    requires Distinct(r) && r != []
    ensures forall k :: 0 < k < |r| ==> r[k] != r[0]
  {
  }

  lemma {:induction false} PassShape(r: seq<Node>, q: seq<Node>, n: nat, ispeek: bool, gone: set<Node>)
    requires Passing(r, q, n, ispeek, gone)
    ensures q != [] && q[0] == r[0] && Nodes(q) <= Nodes(r)
  {
  }

  lemma {:induction false} PassEnds(r: seq<Node>, q: seq<Node>, n: nat, ispeek: bool, gone: set<Node>)
    requires Passing(r, q, n, ispeek, gone)
    ensures gone <= Nodes(r) && n < |r|
    ensures if ispeek then q == r && gone == {} else q == Rest(r, n) && Nodes(Rest(r, n)) == Nodes(r) - gone
  {
  }

  lemma {:induction false} TailOf(b: seq<Segment>, n: nat)
    requires n < |b|
    ensures b[n..][..0] + b[n..][1..] == b[n + 1..] && b[n..][0] == b[n]
  {
  }

  lemma {:induction false} NextLeft(r: seq<Node>, n: nat)
    requires Distinct(r) && n < |r|
    ensures |Rest(r, n)| == |r| - n && (n + 2 < |r| ==> Rest(r, n)[2] == r[n + 2])
  {
  }

  /** `ikcp_peeksize`. */
  method PeekSize(head: Node, nque: nat, ghost r: seq<Node>) returns (size: int)
    requires Ring(r) && r[0] == head && nque == |r| - 1
    ensures size == Engine.PeekSize(Segs(r))
  {
    hide Ring, Segs, MergeCount, Payload, MergedTo, Wrap;
    NotEmpty(r);
    ghost var b, data, n: nat := Segs(r), [], 0;
    SegsSize(r);
    Neighbours(r, 0);
    PeekIsPayload(b);
    MergeBegins(b);
    if head == head.next {
      return -1;
    }
    var first := head.next.seg;
    if first.frg == 0 {
      return |first.data|;
    }
    if nque < Wrap(first.frg + 1) {
      return -1;
    }
    hide Engine.PeekSize;
    assert Engine.PeekSize(b) == |Payload(b[..MergeCount(b)])| by { PeekIsMerged(b); }
    var p := head.next;
    size := 0;
    while p != head
      invariant Ring(r) && Segs(r) == b && n < |r| && MergedTo(b, n, data) && size == |data|
      invariant p == head <==> n + 1 == |r|
      invariant p != head ==> n + 1 < |r| && p == r[n + 1]
      decreases |r| - n
    {
      SegsAt(r, n + 1);
      Neighbours(r, n + 1);
      MergeStep(b, n, data);
      size := size + |p.seg.data|;
      data := data + p.seg.data;
      n := n + 1;
      if p.seg.frg == 0 {
        return;
      }
      p := p.next;
    }
    MergeStep(b, n, data);
  }

  lemma {:induction false} PeekIsMerged(b: seq<Segment>)
    requires b != [] && b[0].frg != 0 && |b| >= Wrap(b[0].frg + 1)
    ensures Engine.PeekSize(b) == |Payload(b[..MergeCount(b)])|
  {
    hide Wrap, MergeCount, Payload;
  }

  // ---------- ikcp_check, ikcp_release ----------

  lemma {:induction false} NextStep(b: seq<Segment>, k: nat, now: u32)
    requires k < |b|
    ensures NextResend(b[..k + 1], now) == Min(NextResend(b[..k], now), TimeDiff(b[k].resendts, now))
    ensures NextResend(b, now) <= TimeDiff(b[k].resendts, now)
  {
    hide TimeDiff;
    assert b[..k + 1][..k] == b[..k];
    NextResendAtMost(b, k, now);
  }

  lemma {:induction false} NextEnds(b: seq<Segment>, now: u32)
    ensures NextResend(b[..0], now) == 0x7fff_ffff && NextResend(b[..|b|], now) == NextResend(b, now)
  {
    assert b[..|b|] == b;
  }

  /** The loop of `ikcp_check` over `snd_buf`: the nearest deadline, or a distance that is not positive as
      soon as one has passed. */
  method NearestResend(head: Node, now: u32, ghost r: seq<Node>) returns (tm: i32)
    requires Ring(r) && r[0] == head
    ensures if tm > 0 then tm == NextResend(Segs(r), now) else NextResend(Segs(r), now) <= 0
  {
    hide TimeDiff, Ring, Segs, NextResend;
    NotEmpty(r);
    ghost var b, k: nat := Segs(r), 1;
    SegsSize(r);
    Neighbours(r, 0);
    NextEnds(b, now);
    tm := 0x7fff_ffff;
    var p: Node? := head.next;
    while p != head
      invariant Ring(r) && Segs(r) == b && 0 < k <= |r| && (p == head <==> k == |r|)
                && p == (if k < |r| then r[k] else head)
      invariant tm == NextResend(b[..k - 1], now) && tm > 0
      decreases |r| - k
    {
      SegsAt(r, k);
      NextStep(b, k - 1, now);
      Neighbours(r, k);
      var diff := TimeDiff(p.seg.resendts, now);
      if diff <= 0 {
        return diff;
      }
      if diff < tm {
        tm := diff;
      }
      p := p.next;
      k := k + 1;
    }
  }

  /** One of the four loops of `ikcp_release`. */
  method Clear(head: Node, mem: Memory, ghost r: seq<Node>) returns (ghost gone: set<Node>)
    requires Ring(r) && r[0] == head && Nodes(r) <= mem.alive + {head}
    modifies Nodes(r)`next, Nodes(r)`prev, mem
    ensures Ring([head]) && mem.alive == old(mem.alive) - gone && Nodes([head]) == Nodes(r) - gone && gone <= Nodes(r)
  {
    hide Ring, Rest, Without, Nodes;
    NotEmpty(r);
    gone := {};
    ghost var q := r;
    Neighbours(q, 0);
    while head != head.next
      invariant Ring(q) && q != [] && q[0] == head && Nodes(q) <= Nodes(r)
      invariant (head == head.next <==> |q| == 1) && (|q| > 1 ==> head.next == q[1])
      invariant mem.alive == old(mem.alive) - gone && Nodes(q) == Nodes(r) - gone && gone <= Nodes(r)
      decreases |q|
    {
      NotEmpty(q);
      RestNone(q);
      RestNext(q, 0);
      RestSize(q, 1);
      EntryAlive(q, 1, Nodes(r), old(mem.alive), gone);
      var seg := head.next;
      Remove(seg, mem, q, 1);
      gone := gone + {q[1]};
      q := Without(q, 1);
      Neighbours(q, 0);
      assert Nodes(q) == Nodes(r) - gone;
    }
    assert q == [head];
  }

  // ---------- ikcp_send ----------

  /** A new segment at the end of a list. */
  method Append(head: Node, s: Segment, mem: Memory, ghost r: seq<Node>) returns (node: Node)
    requires Ring(r) && r[0] == head
    modifies Nodes(r)`next, Nodes(r)`prev, mem
    ensures mem.alive == old(mem.alive) + {node}
    ensures fresh(node) && Ring(r + [node]) && Nodes(r + [node]) == Nodes(r) + {node}
    ensures Segs(r + [node]) == old(Segs(r)) + [s]
  {
    hide Ring, Segs;
    NotEmpty(r);
    node := mem.New(s);
    AddTail(node, head, r);
  }

  /** Stream mode replaces the last segment by a fuller one. */
  method ReplaceLast(head: Node, s: Segment, mem: Memory, ghost r: seq<Node>) returns (node: Node)
    requires Ring(r) && r[0] == head && |r| > 1 && Nodes(r) <= mem.alive + {head}
    modifies Nodes(r)`next, Nodes(r)`prev, mem
    ensures mem.alive == old(mem.alive) + {node} - {r[|r| - 1]}
    ensures fresh(node) && Ring(r[..|r| - 1] + [node]) && Nodes(r[..|r| - 1] + [node])
            == Nodes(r) + {node} - {r[|r| - 1]}
    ensures Segs(r[..|r| - 1] + [node]) == old(Segs(r))[..|r| - 2] + [s]
  {
    hide Ring, Segs;
    NotEmpty(r);
    Neighbours(r, 0);
    Neighbours(r, |r| - 1);
    SegsSize(r);
    ghost var b := Segs(r);
    var last := head.prev;
    EntryAlive(r, |r| - 1, Nodes(r), mem.alive, {});
    node := Append(head, s, mem, r);
    LastOut(r, node, b, s);
    hide Without;
    Del(last, r + [node], |r| - 1);
    InNodes(r);
    last.next := last;
    last.prev := last;
    mem.Delete(last);
  }

  lemma {:induction false} LastOut(r: seq<Node>, node: Node, b: seq<Segment>, s: Segment)
    requires |r| > 1 && |b| == |r| - 1
    ensures Without(r + [node], |r| - 1) == r[..|r| - 1] + [node] && (r + [node])[|r| - 1] == r[|r| - 1]
    ensures (b + [s])[..|r| - 2] + (b + [s])[|r| - 1..] == b[..|r| - 2] + [s]
  {
  }

  /** The fragmentation loop. */
  method Fragment(head: Node, data: Bytes, mss: u32, count: nat, stream: bool, mem: Memory, ghost r: seq<Node>)
    returns (ghost q: seq<Node>, ghost made: set<Node>)
    requires Ring(r) && r[0] == head && count < WND_RCV
    modifies Nodes(r)`next, Nodes(r)`prev, mem
    ensures Ring(q) && r <= q && |q| == |r| + count && (forall i :: |r| <= i < |q| ==> fresh(q[i]))
    ensures fresh(made) && mem.alive == old(mem.alive) + made && Nodes(q) == Nodes(r) + made
    ensures Segs(q) == old(Segs(r)) + Cut(data, mss, count, stream)
  {
    hide Ring, Segs;
    NotEmpty(r);
    q, made := r, {};
    ghost var all := Segs(r) + Cut(data, mss, count, stream);
    var rest, i := data, 0;
    while i < count
      invariant 0 <= i <= count && Ring(q) && r <= q && |q| == |r| + i && (forall j :: |r| <= j < |q| ==> fresh(q[j]))
      invariant Segs(q) + Cut(rest, mss, count - i, stream) == all
      invariant fresh(made) && mem.alive == old(mem.alive) + made && Nodes(q) == Nodes(r) + made
    {
      var size := if |rest| > mss then mss else |rest|;
      var s := NewSegment(if stream then 0 else count - i - 1, rest[..size]);
      ghost var b := Segs(q);
      var node := Append(head, s, mem, q);
      made := made + {node};
      Seqs.Assoc(b, [s], Cut(rest[size..], mss, count - i - 1, stream));
      q := q + [node];
      rest := rest[size..];
      i := i + 1;
    }
  }
}
