/** Small facts about sequences, kept apart so that each is proved without other terms around. */
module Seqs {
  function Flatten<T>(groups: seq<seq<T>>): seq<T> {
    if groups == [] then [] else Flatten(groups[..|groups| - 1]) + groups[|groups| - 1]
  }

  lemma {:induction false} Assoc<T>(x: seq<T>, y: seq<T>, z: seq<T>)
    ensures (x + y) + z == x + (y + z)
  {
  }

  lemma {:induction false} ConsTail<T>(s: seq<T>)
    requires s != []
    ensures [s[0]] + s[1..] == s
  {
  }

  lemma {:induction false} SpliceTail<T>(s: seq<T>, n: nat)
    requires 0 < n < |s|
    ensures [s[0]] + (s[1..][..n - 1] + s[1..][n..]) == s[..n] + s[n + 1..]
  {
  }

  lemma {:induction false} SliceTail<T>(s: seq<T>, n: nat)
    requires 0 < n <= |s|
    ensures s[1..][n - 1..] == s[n..] && s[..n][1..] == s[1..][..n - 1] && s[..n][0] == s[0]
  {
  }

  /** The elements of a sequence with one inserted. */
  lemma {:induction false} InsertIndex<T>(s: seq<T>, i: nat, x: T)
    requires i <= |s|
    ensures var b := s[..i] + [x] + s[i..];
            && |b| == |s| + 1 && b[i] == x
            && (forall j :: 0 <= j < i ==> b[j] == s[j])
            && (forall j :: i < j < |b| ==> b[j] == s[j - 1])
            && (forall j :: 0 <= j < |s| ==> s[j] == b[if j < i then j else j + 1])
  {
  }

  lemma {:induction false} NotInDrop<T>(s: seq<T>, k: nat, i: nat)
    requires k <= |s| && i < |s|
    ensures i >= k ==> s[i] in s[k..]
  {
    if i >= k {
      assert s[i] == s[k..][i - k];
    }
  }

  lemma {:induction false} NotInSplice<T>(s: seq<T>, k: nat, i: nat)
    requires k < |s| && i < |s|
    ensures i != k ==> s[i] in s[..k] + s[k + 1..]
  {
    var t := s[..k] + s[k + 1..];
    if i < k {
      assert s[i] == t[i];
    } else if i > k {
      assert s[i] == t[i - 1];
    }
  }

  lemma {:induction false} PrefixAppend<T>(x: seq<T>, y: seq<T>, z: seq<T>)
    requires y <= z
    ensures x + y <= x + z
  {
  }

  lemma {:induction false} FlattenSnoc<T>(groups: seq<seq<T>>, g: seq<T>)
    ensures Flatten(groups + [g]) == Flatten(groups) + g
  {
    assert (groups + [g])[..|groups|] == groups;
  }

  lemma {:induction false} InFlatten<T>(groups: seq<seq<T>>, i: nat, s: T)
    requires i < |groups| && s in groups[i]
    ensures s in Flatten(groups)
  {
    var n := |groups| - 1;
    if i < n {
      InFlatten(groups[..n], i, s);
    }
  }
}
