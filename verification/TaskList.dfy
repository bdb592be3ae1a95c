/** The doubly linked lists of `threadpool.c` in the heap, which hold its tasks and its workers. */
module TaskList {
  class Item {
    var prev: Item?
    var next: Item?
  }

  ghost function Items(s: seq<Item>): set<Item> {
    set x | x in s
  }

  ghost function Succ(s: seq<Item>, i: nat): Item? {
    if i + 1 < |s| then s[i + 1] else null
  }

  ghost function Pred(s: seq<Item>, i: nat): Item? {
    if 0 < i <= |s| then s[i - 1] else null
  }

  ghost predicate Distinct(s: seq<Item>) {
    forall i, j :: 0 <= i < j < |s| ==> s[i] != s[j]
  }

  /** `list` points to the first of the items, and they are linked in order. */
  ghost predicate Chain(list: Item?, s: seq<Item>)
    reads Items(s)
  {
    && list == (if s == [] then null else s[0])
    && Distinct(s)
    && (forall i :: 0 <= i < |s| ==> s[i].next == Succ(s, i) && s[i].prev == Pred(s, i))
  }

  ghost function Without(s: seq<Item>, k: nat): seq<Item>
    requires k < |s|
  {
    s[..k] + s[k + 1..]
  }

  /** `LIST_INSERT`: in front. */
  method Insert(item: Item, list: Item?, ghost s: seq<Item>) returns (list': Item?)
    requires Chain(list, s) && item !in s
    modifies item, Items(s)
    ensures Chain(list', [item] + s)
  {
    item.prev := null;
    item.next := list;
    if list != null {
      list.prev := item;
    }
    list' := item;
    ghost var q := [item] + s;
    forall i | 0 <= i < |q| ensures q[i].next == Succ(q, i) && q[i].prev == Pred(q, i) {
      if i > 0 {
        assert q[i] == s[i - 1];
      }
    }
  }

  lemma {:induction false} WithoutAt(s: seq<Item>, k: nat, i: nat)
    requires Distinct(s) && k < |s| && i < |s| - 1
    ensures var q := Without(s, k);
            && q[i] == (if i < k then s[i] else s[i + 1]) && q[i] != s[k]
            && Succ(q, i) == (if i + 1 == k then Succ(s, k) else if i < k then Succ(s, i) else Succ(s, i + 1))
            && Pred(q, i) == (if i == k then Pred(s, k) else if i < k then Pred(s, i) else Pred(s, i + 1))
  {
  }

  lemma {:induction false} WithoutDistinct(s: seq<Item>, k: nat)
    requires Distinct(s) && k < |s|
    ensures Distinct(Without(s, k)) && s[k] !in Without(s, k)
  {
  }

  /** `LIST_REMOVE`: any item, also the first or the last. */
  method Remove(item: Item, list: Item?, ghost s: seq<Item>, ghost k: nat) returns (list': Item?)
    requires Chain(list, s) && k < |s| && s[k] == item
    modifies Items(s)
    ensures Chain(list', Without(s, k)) && item !in Without(s, k) && item.next == null && item.prev == null
  {
    WithoutDistinct(s, k);
    list' := list;
    if list' == item {
      list' := list'.next;
    }
    if item.prev != null {
      item.prev.next := item.next;
    }
    if item.next != null {
      item.next.prev := item.prev;
    }
    item.prev := null;
    item.next := null;
    ghost var q := Without(s, k);
    forall i | 0 <= i < |q| ensures q[i].next == Succ(q, i) && q[i].prev == Pred(q, i) {
      WithoutAt(s, k, i);
    }
  }
}
