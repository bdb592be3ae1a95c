/** The DNS client: host names as length-prefixed labels, and names with compression pointers as section
    4.1.4 of RFC 1035 defines them. */
module Dns {
  import opened Serial
  import opened Seqs

  type Bytes = seq<u8>

  datatype Option<T> = None | Some(value: T)

  const DOT: u8 := 46
  const RFC_LIMIT: nat := 63     // the longest label of RFC 1035
  const CODE_LIMIT: nat := 191   // the longest length byte the decoder takes for a label

  // ---------- names as text ----------

  /** The labels joined by dots. */
  function Dotted(labels: seq<Bytes>): Bytes {
    if labels == [] then []
    else if |labels| == 1 then labels[0]
    else labels[0] + [DOT] + Dotted(labels[1..])
  }

  /** How many bytes stand in front of the first dot. */
  function DotFree(s: Bytes): (n: nat)
    ensures n <= |s| && (forall i :: 0 <= i < n ==> s[i] != DOT) && (n < |s| ==> s[n] == DOT)
  {
    if s == [] || s[0] == DOT then 0 else 1 + DotFree(s[1..])
  }

  /** How many dots the string begins with. */
  function Dots(s: Bytes): (n: nat)
    ensures n <= |s| && (forall i :: 0 <= i < n ==> s[i] == DOT) && (n < |s| ==> s[n] != DOT)
  {
    if s == [] || s[0] != DOT then 0 else 1 + Dots(s[1..])
  }

  lemma {:induction false} TokenStarts(s: Bytes)
    ensures var t := s[Dots(s)..]; t != [] ==> DotFree(t) > 0
  {
    var t := s[Dots(s)..];
    assert t != [] ==> t[0] == s[Dots(s)];
  }

  /** The tokens `strtok` finds, one after another, with the dot as separator. */
  function Tokens(s: Bytes): seq<Bytes>
    decreases |s|
  {
    TokenStarts(s);
    var t := s[Dots(s)..];
    if t == [] then [] else [t[..DotFree(t)]] + Tokens(t[DotFree(t)..])
  }

  /** Length-prefixed labels; a length is cut to one byte. */
  function EncodeLabels(labels: seq<Bytes>): Bytes {
    if labels == [] then [] else [|labels[0]| % 0x100] + labels[0] + EncodeLabels(labels[1..])
  }

  function Zeros(n: nat): Bytes {
    seq(n, i => 0)
  }

  /** Host names proper: non-empty labels of at most 63 bytes, without dots. */
  predicate GoodLabels(labels: seq<Bytes>) {
    forall i :: 0 <= i < |labels| ==> 0 < |labels[i]| <= RFC_LIMIT && DOT !in labels[i]
  }

  lemma {:induction false} TokensFit(s: Bytes)
    ensures |EncodeLabels(Tokens(s))| <= |s| + 1
    decreases |s|
  {
    var t := s[Dots(s)..];
    if t != [] {
      TokensFit(t[DotFree(t)..]);
      var rest := t[DotFree(t)..];
      assert Tokens(s) == [t[..DotFree(t)]] + Tokens(rest);
      if rest != [] {
        TokensFit(rest[1..]);
        TokensAfterDot(rest);
      }
    }
  }

  lemma {:induction false} TokensAfterDot(s: Bytes)
    requires s != [] && s[0] == DOT
    ensures Tokens(s) == Tokens(s[1..])
  {
    assert s[Dots(s)..] == s[1..][Dots(s[1..])..];
  }

  /** What is left to be split after the separators in front are skipped. */
  function Skipped(s: Bytes): Bytes {
    s[Dots(s)..]
  }

  lemma {:induction false} NextToken(t: Bytes)
    requires t != [] && t[0] != DOT
    ensures DotFree(t) > 0
    ensures EncodeLabels(Tokens(t))
         == [DotFree(t) % 0x100] + t[..DotFree(t)] + EncodeLabels(Tokens(Skipped(t[DotFree(t)..])))
  {
    assert t[0..] == t && Dots(t) == 0;
    var rest := t[DotFree(t)..];
    TokensSkip(rest);
    hide Dots;
    assert Tokens(t) == [t[..DotFree(t)]] + Tokens(rest);
  }

  lemma {:induction false} TokensSkip(s: Bytes)
    ensures Tokens(Skipped(s)) == Tokens(s)
    ensures var t := Skipped(s); |t| <= |s| && (t != [] ==> t[0] != DOT)
  {
    var t := Skipped(s);
    assert t != [] ==> t[0] == s[Dots(s)];
    assert Dots(t) == 0 && t[0..] == t;
  }

  method Put(a: array<u8>, p: nat, data: Bytes) returns (q: nat)
    requires p + |data| <= a.Length
    modifies a
    ensures q == p + |data| && a[..q] == old(a[..p]) + data
    ensures forall i :: q <= i < a.Length ==> a[i] == old(a[i])
  {
    forall i | 0 <= i < |data| {
      a[p + i] := data[i];
    }
    q := p + |data|;
    assert a[..p] == old(a[..p]) && a[p..q] == data;
    assert a[..q] == a[..p] + a[p..q];
  }

  /** `convert_domain`: the buffer it returns. */
  method ConvertDomain(domain: Bytes) returns (result: array<u8>)
    ensures fresh(result) && result.Length == |domain| + 2
    ensures var e := EncodeLabels(Tokens(domain));
            |e| <= |domain| + 1 && result[..] == e + Zeros(|domain| + 2 - |e|)
  {
    hide Dots, DotFree, Tokens, EncodeLabels;
    ghost var all := EncodeLabels(Tokens(domain));
    TokensFit(domain);
    TokensSkip(domain);
    result := new u8[|domain| + 2](i => 0);
    var temp := Skipped(domain);
    var p: nat := 0;
    assert result[..0] + all == all;
    while temp != []
      invariant p <= |all| <= |domain| + 1 && result.Length == |domain| + 2
      invariant result[..p] + EncodeLabels(Tokens(temp)) == all
      invariant temp == [] || temp[0] != DOT
      invariant forall i :: p <= i < result.Length ==> result[i] == 0
      decreases |temp|
    {
      NextToken(temp);
      var len := DotFree(temp);
      ghost var rest := EncodeLabels(Tokens(Skipped(temp[len..])));
      ghost var before := result[..p];
      assert all == before + ([len % 0x100] + temp[..len] + rest) == before + [len % 0x100] + temp[..len] + rest;
      p := Put(result, p, [len % 0x100]);
      p := Put(result, p, temp[..len]);
      TokensSkip(temp[len..]);
      temp := Skipped(temp[len..]);
    }
    NoTokens();
    assert result[..p] == all;
    result[p] := 0;
    assert result[p..] == Zeros(|domain| + 2 - p);
    assert result[..] == result[..p] + result[p..];
  }

  lemma {:induction false} NoTokens()
    ensures Tokens([]) == [] && EncodeLabels([]) == []
  {
  }

  // ---------- host names and their encoding ----------

  lemma {:induction false} DotFreeIs(s: Bytes, n: nat)
    requires n <= |s| && (forall i :: 0 <= i < n ==> s[i] != DOT) && (n < |s| ==> s[n] == DOT)
    ensures DotFree(s) == n
  {
  }

  lemma {:induction false} DottedFirst(labels: seq<Bytes>)
    requires labels != []
    ensures labels[1..] == [] ==> Dotted(labels) == labels[0]
    ensures labels[1..] != [] ==> Dotted(labels) == labels[0] + ([DOT] + Dotted(labels[1..]))
  {
  }

  /** A label, and what follows it, in a host name proper. */
  lemma {:induction false} FirstLabel(s: Bytes, l: Bytes, more: Bytes)
    requires s == l + more && l != [] && DOT !in l && (more != [] ==> more[0] == DOT)
    ensures Tokens(s) == [l] + Tokens(more)
  {
    hide Tokens, DotFree;
    assert forall i :: 0 <= i < |l| ==> s[i] == l[i];
    DotFreeIs(s, |l|);
    SplitFirst(s);
    assert s[..|l|] == l && s[|l|..] == more;
  }

  /** Splitting a host name proper gives its labels back. */
  lemma {:induction false} TokensOfDotted(labels: seq<Bytes>)
    requires GoodLabels(labels)
    ensures Tokens(Dotted(labels)) == labels
  {
    hide Tokens, Dotted;
    if labels == [] {
      DottedNone();
      NoTokens();
    } else {
      var l, rest := labels[0], labels[1..];
      DottedFirst(labels);
      TokensOfDotted(rest);
      if rest == [] {
        NoTokens();
        assert l + [] == l;
        FirstLabel(l, l, []);
      } else {
        var more := [DOT] + Dotted(rest);
        FirstLabel(Dotted(labels), l, more);
        TokensAfterDot(more);
        assert more[1..] == Dotted(rest);
      }
      assert labels == [l] + rest;
    }
  }

  lemma {:induction false} DottedNone()
    ensures Dotted([]) == []
  {
  }

  lemma {:induction false} SplitFirst(s: Bytes)
    requires s != [] && s[0] != DOT
    ensures Tokens(s) == [s[..DotFree(s)]] + Tokens(s[DotFree(s)..])
  {
    hide DotFree;
    assert s[0..] == s && Dots(s) == 0;
  }

  /** Dots only between other characters, never two together. */
  predicate WellDotted(s: Bytes) {
    s != [] && s[0] != DOT && s[|s| - 1] != DOT && forall i :: 0 < i < |s| ==> !(s[i - 1] == DOT && s[i] == DOT)
  }

  /** The length the question is sent with, `strlen(hostname) + 2`, is the length of the encoded name
      with its terminating zero exactly when the host name is well dotted. */
  lemma {:induction false} QuestionLengthExactIff(s: Bytes)
    ensures |EncodeLabels(Tokens(s))| + 1 == |s| + 2 <==> WellDotted(s)
    decreases |s|
  {
    TokensFit(s);
    if s == [] {
      NoTokens();
    } else if s[0] == DOT {
      TokensAfterDot(s);
      TokensFit(s[1..]);
    } else {
      var n := DotFree(s);
      var rest := s[n..];
      SplitFirst(s);
      assert EncodeLabels(Tokens(s)) == [n % 0x100] + s[..n] + EncodeLabels(Tokens(rest));
      if rest == [] {
        NoTokens();
        assert s[..n] == s;
      } else {
        TokensAfterDot(rest);
        QuestionLengthExactIff(rest[1..]);
        WellDottedTail(s, n);
        assert rest[1..] == s[n + 1..];
      }
    }
  }

  /** For example it is one too long for the host name `a.`. */
  lemma {:induction false} TrailingDotLength()
    ensures var host := [97, DOT]; Tokens(host) == [[97]] && |EncodeLabels(Tokens(host))| + 1 == 3 && |host| + 2 == 4
  {
    var host: Bytes := [97, DOT];
    DotFreeIs(host, 1);
    SplitFirst(host);
    assert host[..1] == [97] && host[1..] == [DOT];
    TokensAfterDot([DOT]);
    NoTokens();
    assert [DOT][1..] == [];
  }

  lemma {:induction false} WellDottedTail(s: Bytes, n: nat)
    requires 0 < n < |s| && s[n] == DOT && forall i :: 0 <= i < n ==> s[i] != DOT
    ensures WellDotted(s) <==> WellDotted(s[n + 1..])
  {
    var t := s[n + 1..];
    if WellDotted(t) {
      forall i | 0 < i < |s| ensures !(s[i - 1] == DOT && s[i] == DOT) {
        if i > n + 1 {
          assert t[i - n - 2] == s[i - 1] && t[i - n - 1] == s[i];
        } else if i == n + 1 {
          assert t[0] == s[n + 1];
        }
      }
      assert t[|t| - 1] == s[|s| - 1];
    }
    if WellDotted(s) {
      assert t != [] && t[0] == s[n + 1] && s[n + 1] != DOT by {
        assert n + 1 < |s|;
        assert !(s[n + 1 - 1] == DOT && s[n + 1] == DOT);
      }
      assert t[|t| - 1] == s[|s| - 1];
      forall i | 0 < i < |t| ensures !(t[i - 1] == DOT && t[i] == DOT) {
        assert t[i - 1] == s[n + i] && t[i] == s[n + i + 1];
        assert !(s[n + i + 1 - 1] == DOT && s[n + i + 1] == DOT);
      }
    }
  }

  // ---------- names in a message ----------

  /** A compression pointer: the two highest bits are set. */
  predicate IsPointer(b: u8) {
    b >= 0xC0
  }

  function Target(chunk: Bytes, p: nat): nat
    requires p + 1 < |chunk|
  {
    var high: int, low: int := chunk[p], chunk[p + 1];
    high % 0x40 * 0x100 + low
  }

  /** The labels of the name at `p`, in a run of labels that begins at `start`: a run ends with a zero
      or with a pointer to a name that begins before the run. `None` if there is no such name. */
  function NameAt(chunk: Bytes, start: nat, p: nat, limit: nat): Option<seq<Bytes>>
    decreases start, |chunk| - p
  {
    if p >= |chunk| then None
    else
      var b := chunk[p];
      if b == 0 then Some([])
      else if IsPointer(b) then
        if p + 1 < |chunk| && Target(chunk, p) < start
        then NameAt(chunk, Target(chunk, p), Target(chunk, p), limit) else None
      else if b > limit || p + 1 + b >= |chunk| then None
      else
        match NameAt(chunk, start, p + 1 + b, limit)
        case None => None
        case Some(rest) => Some([chunk[p + 1..p + 1 + b]] + rest)
  }

  /** A label is followed by a pointer to the root name, the one without labels. */
  predicate DanglingDot(chunk: Bytes, start: nat, p: nat)
    requires NameAt(chunk, start, p, CODE_LIMIT).Some?
    decreases start, |chunk| - p
  {
    var b := chunk[p];
    if b == 0 then false
    else if IsPointer(b) then DanglingDot(chunk, Target(chunk, p), Target(chunk, p))
    else
      var q := p + 1 + b;
      (IsPointer(chunk[q]) && NameAt(chunk, start, q, CODE_LIMIT) == Some([])) || DanglingDot(chunk, start, q)
  }

  /** What `dns_parse_name` appends for the name at `p`. */
  function Appended(chunk: Bytes, start: nat, p: nat): Bytes
    requires NameAt(chunk, start, p, CODE_LIMIT).Some?
    decreases start, |chunk| - p
  {
    var b := chunk[p];
    if b == 0 then []
    else if IsPointer(b) then Appended(chunk, Target(chunk, p), Target(chunk, p))
    else
      var q := p + 1 + b;
      chunk[p + 1..q] + (if chunk[q] != 0 then [DOT] else []) + Appended(chunk, start, q)
  }

  lemma {:induction false} RootHasNoDot(chunk: Bytes, start: nat, p: nat)
    requires NameAt(chunk, start, p, CODE_LIMIT) == Some([])
    ensures !DanglingDot(chunk, start, p) && Appended(chunk, start, p) == []
    decreases start, |chunk| - p
  {
    var b := chunk[p];
    if b != 0 && IsPointer(b) {
      RootHasNoDot(chunk, Target(chunk, p), Target(chunk, p));
    }
  }

  lemma {:induction false} DottedCons(l: Bytes, rest: seq<Bytes>)
    ensures Dotted([l] + rest) == if rest == [] then l else l + [DOT] + Dotted(rest)
  {
  }

  /** What is appended is the labels joined by dots, with one dot too many if a label is followed by a
      pointer to the root name. */
  lemma {:induction false} AppendedIs(chunk: Bytes, start: nat, p: nat)
    requires NameAt(chunk, start, p, CODE_LIMIT).Some?
    ensures Appended(chunk, start, p)
         == Dotted(NameAt(chunk, start, p, CODE_LIMIT).value) + if DanglingDot(chunk, start, p) then [DOT] else []
    decreases start, |chunk| - p
  {
    var b := chunk[p];
    if b != 0 && IsPointer(b) {
      AppendedIs(chunk, Target(chunk, p), Target(chunk, p));
    } else if b != 0 {
      var q := p + 1 + b;
      var l, rest := chunk[p + 1..q], NameAt(chunk, start, q, CODE_LIMIT).value;
      AppendedIs(chunk, start, q);
      DottedCons(l, rest);
      if rest == [] {
        RootHasNoDot(chunk, start, q);
      }
    }
  }

  /** So it is right exactly when no label is followed by such a pointer. */
  lemma {:induction false} AppendedRightIff(chunk: Bytes, start: nat, p: nat)
    requires NameAt(chunk, start, p, CODE_LIMIT).Some?
    ensures Appended(chunk, start, p) == Dotted(NameAt(chunk, start, p, CODE_LIMIT).value)
            <==> !DanglingDot(chunk, start, p)
  {
    AppendedIs(chunk, start, p);
  }

  /** For example the label `a` before a pointer to a zero is read as `a.`. */
  lemma {:induction false} DotTooMany()
    ensures var chunk := [0, 1, 97, 0xC0, 0];
            NameAt(chunk, 1, 1, CODE_LIMIT) == Some([[97]]) && Appended(chunk, 1, 1) == [97, DOT]
  {
    var chunk: Bytes := [0, 1, 97, 0xC0, 0];
    assert Target(chunk, 3) == 0 && chunk[2..3] == [97];
    assert NameAt(chunk, 0, 0, CODE_LIMIT) == Some([]) && Appended(chunk, 0, 0) == [];
    assert NameAt(chunk, 1, 3, CODE_LIMIT) == Some([]);
    assert NameAt(chunk, 1, 1, CODE_LIMIT) == Some([[97]] + []);
    AppendedCons(chunk, 1, 3);
    AppendedCons(chunk, 1, 1);
    var l: Bytes, none: seq<Bytes> := [97, DOT], [];
    assert LabelAt(chunk, 1) == l && l + [] == l && [chunk[2..3]] + none == [chunk[2..3]];
    assert Appended(chunk, 1, 1) == l + [];
    hide NameAt;
  }

  /** The decoder accepts every name of RFC 1035, and reads it as the RFC does. */
  lemma {:induction false} RfcNameIsRead(chunk: Bytes, start: nat, p: nat)
    requires NameAt(chunk, start, p, RFC_LIMIT).Some?
    ensures NameAt(chunk, start, p, CODE_LIMIT) == NameAt(chunk, start, p, RFC_LIMIT)
    decreases start, |chunk| - p
  {
    var b := chunk[p];
    if b != 0 && IsPointer(b) {
      RfcNameIsRead(chunk, Target(chunk, p), Target(chunk, p));
    } else if b != 0 {
      RfcNameIsRead(chunk, start, p + 1 + b);
    }
  }

  /** Copies one label, and a dot unless the name ends behind it. */
  method CopyLabel(chunk: Bytes, ptr0: nat, out: array<u8>, pos0: nat, len0: nat) returns (ptr: nat, pos: nat, len: nat)
    requires ptr0 < |chunk| && ptr0 + 1 + chunk[ptr0] < |chunk| && pos0 == len0
    requires len0 + |LabelAt(chunk, ptr0)| <= out.Length
    modifies out
    ensures ptr == ptr0 + 1 + chunk[ptr0] && pos == len == len0 + |LabelAt(chunk, ptr0)|
    ensures out[..len] == old(out[..len0]) + LabelAt(chunk, ptr0)
    ensures forall i :: len <= i < out.Length ==> out[i] == old(out[i])
  {
    var flag: int := chunk[ptr0];
    ptr, len := ptr0 + 1, len0;
    pos := Put(out, pos0, chunk[ptr..ptr + flag]);
    ptr := ptr + flag;
    len := len + flag;
    if chunk[ptr] != 0 {
      pos := Put(out, pos, [DOT]);
      len := len + 1;
    }
  }

  /** `dns_parse_name`: appends to `out`, which holds `len0` bytes already. */
  method ParseName(chunk: Bytes, ptr0: nat, out: array<u8>, len0: nat, ghost start: nat) returns (len: nat)
    requires NameAt(chunk, start, ptr0, CODE_LIMIT).Some?
    requires len0 + |Appended(chunk, start, ptr0)| <= out.Length
    modifies out
    ensures len == len0 + |Appended(chunk, start, ptr0)|
    ensures out[..len] == old(out[..len0]) + Appended(chunk, start, ptr0)
    ensures forall i :: len <= i < out.Length ==> out[i] == old(out[i])
    decreases start, |chunk| - ptr0
  {
    var ptr, pos := ptr0, len0;
    len := len0;
    ghost var all := Appended(chunk, start, ptr0);
    while true
      invariant ptr0 <= ptr && NameAt(chunk, start, ptr, CODE_LIMIT).Some? && pos == len
      invariant len0 <= len && len + |Appended(chunk, start, ptr)| == len0 + |all| <= out.Length
      invariant out[..len] + Appended(chunk, start, ptr) == old(out[..len0]) + all
      invariant forall i :: len0 + |all| <= i < out.Length ==> out[i] == old(out[i])
      decreases |chunk| - ptr
    {
      AppendedCons(chunk, start, ptr);
      hide NameAt, Appended, LabelAt;
      var flag: int := chunk[ptr];
      if flag == 0 {
        break;
      }
      if IsPointer(flag) {
        var offset := Target(chunk, ptr);
        len := ParseName(chunk, offset, out, len, offset);
        break;
      }
      ghost var done, rest := out[..len], Appended(chunk, start, ptr + 1 + flag);
      Assoc(done, LabelAt(chunk, ptr), rest);
      ptr, pos, len := CopyLabel(chunk, ptr, out, pos, len);
    }
  }

  /** The label at `p` as it is written. */
  function LabelAt(chunk: Bytes, p: nat): Bytes
    requires p < |chunk| && p + 1 + chunk[p] < |chunk|
  {
    var q := p + 1 + chunk[p];
    chunk[p + 1..q] + if chunk[q] != 0 then [DOT] else []
  }

  lemma {:induction false} AppendedCons(chunk: Bytes, start: nat, p: nat)
    requires NameAt(chunk, start, p, CODE_LIMIT).Some?
    ensures p < |chunk|
    ensures chunk[p] == 0 ==> Appended(chunk, start, p) == []
    ensures chunk[p] != 0 && IsPointer(chunk[p]) ==>
              && p + 1 < |chunk| && Target(chunk, p) < start
              && NameAt(chunk, Target(chunk, p), Target(chunk, p), CODE_LIMIT).Some?
              && Appended(chunk, start, p) == Appended(chunk, Target(chunk, p), Target(chunk, p))
    ensures chunk[p] != 0 && !IsPointer(chunk[p]) ==>
              var q := p + 1 + chunk[p];
              && q < |chunk| && NameAt(chunk, start, q, CODE_LIMIT).Some?
              && Appended(chunk, start, p) == LabelAt(chunk, p) + Appended(chunk, start, q)
  {
  }

  // ---------- when the decoder returns ----------

  /** Where the decoder reads on after a label or a pointer at `p`; `None` behind a zero, or if that would
      be outside the message. */
  function Onwards(chunk: Bytes, p: nat): Option<nat> {
    if p >= |chunk| || chunk[p] == 0 then None
    else if !IsPointer(chunk[p]) then Some(p + 1 + chunk[p])
    else if p + 1 < |chunk| then Some(Target(chunk, p))
    else None
  }

  /** The decoder at `p` returns after at most `steps` labels and pointers, wherever pointers lead. */
  predicate Returns(chunk: Bytes, p: nat, steps: nat)
    decreases steps
  {
    steps > 0 && p < |chunk| &&
    (chunk[p] == 0 || (Onwards(chunk, p).Some? && Returns(chunk, Onwards(chunk, p).value, steps - 1)))
  }

  /** The decoder at `p` comes to `q` after so many labels and pointers. */
  predicate Leads(chunk: Bytes, p: nat, q: nat, steps: nat)
    decreases steps
  {
    if steps == 0 then p == q
    else Onwards(chunk, p).Some? && Leads(chunk, Onwards(chunk, p).value, q, steps - 1)
  }

  lemma {:induction false} ReturnsLater(chunk: Bytes, p: nat, steps: nat, more: nat)
    requires Returns(chunk, p, steps) && steps <= more
    ensures Returns(chunk, p, more)
    decreases steps
  {
    if chunk[p] != 0 {
      ReturnsLater(chunk, Onwards(chunk, p).value, steps - 1, more - 1);
    }
  }

  lemma {:induction false} LeastSteps(chunk: Bytes, p: nat, steps: nat) returns (least: nat)
    requires Returns(chunk, p, steps)
    ensures 0 < least <= steps && Returns(chunk, p, least) && !Returns(chunk, p, least - 1)
    decreases steps
  {
    if Returns(chunk, p, steps - 1) {
      least := LeastSteps(chunk, p, steps - 1);
    } else {
      least := steps;
    }
  }

  /** The positions on the way to the end are all different, as each is another number of steps away. */
  lemma {:induction false} Visited(chunk: Bytes, p: nat, least: nat) returns (seen: set<nat>)
    requires least > 0 && Returns(chunk, p, least) && !Returns(chunk, p, least - 1)
    ensures |seen| == least && forall q :: q in seen ==> q < |chunk| && Returns(chunk, q, least)
    decreases least
  {
    if chunk[p] == 0 {
      seen := {p};
    } else {
      var rest := Visited(chunk, Onwards(chunk, p).value, least - 1);
      forall q | q in rest ensures Returns(chunk, q, least) {
        ReturnsLater(chunk, q, least - 1, least);
      }
      seen := rest + {p};
    }
  }

  lemma {:induction false} AtMostBelow(s: set<nat>, n: nat)
    requires forall q :: q in s ==> q < n
    ensures |s| <= n
  {
    if n == 0 {
      assert s == {};
    } else {
      AtMostBelow(s - {n - 1}, n - 1);
    }
  }

  /** The decoder returns if and only if it does so within as many steps as the message has bytes. */
  lemma {:induction false} ReturnsIff(chunk: Bytes, p: nat)
    ensures (exists steps: nat :: Returns(chunk, p, steps)) <==> Returns(chunk, p, |chunk|)
  {
    if steps: nat :| Returns(chunk, p, steps) {
      var least := LeastSteps(chunk, p, steps);
      var seen := Visited(chunk, p, least);
      AtMostBelow(seen, |chunk|);
      ReturnsLater(chunk, p, least, |chunk|);
    }
  }

  /** Wherever it comes back to a position it has been at, it never returns. */
  lemma {:induction false} CycleNeverReturns(chunk: Bytes, p: nat, q: nat, way: nat, turn: nat, steps: nat)
    requires Leads(chunk, p, q, way) && turn > 0 && Leads(chunk, q, q, turn)
    ensures !Returns(chunk, p, steps)
  {
    if Returns(chunk, p, steps) {
      ReturnsFrom(chunk, p, q, way, steps);
      var least := LeastSteps(chunk, q, steps - way);
      ReturnsFrom(chunk, q, q, turn, least);
      ReturnsLater(chunk, q, least - turn, least - 1);
    }
  }

  lemma {:induction false} ReturnsFrom(chunk: Bytes, p: nat, q: nat, way: nat, steps: nat)
    requires Returns(chunk, p, steps) && Leads(chunk, p, q, way)
    ensures way < steps && Returns(chunk, q, steps - way)
    decreases way
  {
    if way > 0 {
      ReturnsFrom(chunk, Onwards(chunk, p).value, q, way - 1, steps - 1);
    }
  }

  lemma {:induction false} SelfPointerNeverReturns(chunk: Bytes, p: nat, steps: nat)
    requires p + 1 < |chunk| && IsPointer(chunk[p]) && Target(chunk, p) == p
    ensures !Returns(chunk, p, steps)
  {
    assert chunk[p] != 0 && Leads(chunk, p, p, 0) && Leads(chunk, p, p, 1);
    CycleNeverReturns(chunk, p, p, 0, 1, steps);
  }

  /** For example at a pointer to itself, or at a label with a pointer back to it behind. */
  lemma {:induction false} LoopsNeverReturn(steps: nat)
    ensures !Returns([0xC0, 0], 0, steps) && !Returns([1, 97, 0xC0, 0], 0, steps)
  {
    var self: Bytes, back: Bytes := [0xC0, 0], [1, 97, 0xC0, 0];
    assert Target(self, 0) == 0 && Target(back, 2) == 0;
    assert Onwards(self, 0) == Some(0) && Onwards(back, 0) == Some(2) && Onwards(back, 2) == Some(0);
    assert Leads(self, 0, 0, 0) && Leads(back, 0, 0, 0) && Leads(self, 0, 0, 1);
    assert Leads(back, 2, 0, 1) && Leads(back, 0, 0, 2);
    CycleNeverReturns(self, 0, 0, 0, 1, steps);
    CycleNeverReturns(back, 0, 0, 0, 2, steps);
  }

  /** Where there is a name whose pointers lead backwards the decoder returns. */
  lemma {:induction false} NameReturns(chunk: Bytes, start: nat, p: nat) returns (steps: nat)
    requires NameAt(chunk, start, p, CODE_LIMIT).Some?
    ensures Returns(chunk, p, steps)
    decreases start, |chunk| - p
  {
    var b := chunk[p];
    if b == 0 {
      steps := 1;
    } else if IsPointer(b) {
      steps := NameReturns(chunk, Target(chunk, p), Target(chunk, p));
      steps := steps + 1;
    } else {
      steps := NameReturns(chunk, start, p + 1 + b);
      steps := steps + 1;
    }
  }

  // ---------- round trip of a host name ----------

  /** The message with an encoded name in it. */
  function Embed(pre: Bytes, labels: seq<Bytes>, post: Bytes): Bytes {
    pre + EncodeLabels(labels) + [0] + post
  }

  lemma {:induction false} EmbedCons(pre: Bytes, labels: seq<Bytes>, post: Bytes)
    requires GoodLabels(labels)
    ensures var c, p := Embed(pre, labels, post), |pre|;
            && p < |c|
            && (labels == [] ==> c[p] == 0)
            && (labels != [] ==>
                  var l := labels[0];
                  var pre' := pre + [|l|] + l;
                  && c[p] == |l| && c == Embed(pre', labels[1..], post) && p + 1 + |l| < |c|
                  && |pre'| == p + 1 + |l| && c[p + 1..p + 1 + |l|] == l && GoodLabels(labels[1..])
                  && |EncodeLabels(labels)| == 1 + |l| + |EncodeLabels(labels[1..])|)
  {
    if labels != [] {
      var l, rest := labels[0], labels[1..];
      var pre' := pre + [|l|] + l;
      var c := Embed(pre, labels, post);
      assert EncodeLabels(labels) == [|l|] + l + EncodeLabels(rest);
      assert c == Embed(pre', rest, post);
      assert c[|pre| + 1..|pre| + 1 + |l|] == l by {
        assert c[..|pre'|] == pre';
      }
    }
  }

  lemma {:induction false} EncodedNameRead(pre: Bytes, labels: seq<Bytes>, post: Bytes, start: nat)
    requires GoodLabels(labels)
    ensures var c, p := Embed(pre, labels, post), |pre|;
            && NameAt(c, start, p, RFC_LIMIT) == Some(labels)
            && NameAt(c, start, p, CODE_LIMIT) == Some(labels)
            && !DanglingDot(c, start, p)
            && SkipLabels(c, p) == Some(p + |EncodeLabels(labels)| + 1)
    decreases |labels|
  {
    hide Embed, EncodeLabels, GoodLabels, NameAt, SkipLabels, DanglingDot;
    EmbedCons(pre, labels, post);
    var c, p := Embed(pre, labels, post), |pre|;
    if labels == [] {
      EndRead(c, start, p);
      EncodeNone();
    } else {
      var l, rest := labels[0], labels[1..];
      var pre' := pre + [|l|] + l;
      EncodedNameRead(pre', rest, post, start);
      EmbedCons(pre', rest, post);
      GoodFirst(labels);
      GoodFirst(rest);
      LabelRead(c, start, p, rest);
      assert labels == [l] + rest;
    }
  }

  lemma {:induction false} GoodFirst(labels: seq<Bytes>)
    requires GoodLabels(labels)
    ensures labels != [] ==> 0 < |labels[0]| <= RFC_LIMIT
  {
  }

  lemma {:induction false} EncodeNone()
    ensures EncodeLabels([]) == []
  {
  }

  lemma {:induction false} EndRead(c: Bytes, start: nat, p: nat)
    requires p < |c| && c[p] == 0
    ensures NameAt(c, start, p, RFC_LIMIT) == Some([]) == NameAt(c, start, p, CODE_LIMIT)
    ensures !DanglingDot(c, start, p) && SkipLabels(c, p) == Some(p + 1)
  {
  }

  lemma {:induction false} LabelRead(c: Bytes, start: nat, p: nat, rest: seq<Bytes>)
    requires p < |c| && 0 < c[p] <= RFC_LIMIT && p + 1 + c[p] < |c| && (rest != [] ==> 0 < c[p + 1 + c[p]] <= RFC_LIMIT)
    requires rest == [] ==> c[p + 1 + c[p]] == 0
    requires NameAt(c, start, p + 1 + c[p], RFC_LIMIT) == Some(rest) == NameAt(c, start, p + 1 + c[p], CODE_LIMIT)
    requires !DanglingDot(c, start, p + 1 + c[p])
    ensures NameAt(c, start, p, RFC_LIMIT) == Some([c[p + 1..p + 1 + c[p]]] + rest) == NameAt(c, start, p, CODE_LIMIT)
    ensures !DanglingDot(c, start, p) && SkipLabels(c, p) == SkipLabels(c, p + 1 + c[p])
  {
  }

  /** The name `convert_domain` makes of a host name, put anywhere in a message, is read back as that
      host name, and its length is the one the question announces. */
  lemma {:induction false} HostRoundTrip(pre: Bytes, labels: seq<Bytes>, post: Bytes)
    requires GoodLabels(labels) && labels != []
    ensures var host := Dotted(labels);
            var e := EncodeLabels(Tokens(host));
            && |e| + 1 == |host| + 2
            && var chunk := pre + (e + Zeros(|host| + 2 - |e|)) + post;
               && NameAt(chunk, |pre|, |pre|, RFC_LIMIT) == Some(labels)
               && NameAt(chunk, |pre|, |pre|, CODE_LIMIT) == Some(labels)
               && Appended(chunk, |pre|, |pre|) == host
  {
    var host := Dotted(labels);
    TokensOfDotted(labels);
    EncodedLength(labels);
    var e := EncodeLabels(labels);
    var chunk := pre + (e + Zeros(1)) + post;
    assert Zeros(1) == [0] && chunk == Embed(pre, labels, post);
    EncodedNameRead(pre, labels, post, |pre|);
    AppendedIs(chunk, |pre|, |pre|);
  }

  lemma {:induction false} EncodedLength(labels: seq<Bytes>)
    requires labels != []
    ensures |EncodeLabels(labels)| == |Dotted(labels)| + 1
  {
    if |labels| > 1 {
      EncodedLength(labels[1..]);
    } else {
      assert labels[1..] == [];
    }
  }

  function Word(b: Bytes, p: nat): nat
    requires p + 2 <= |b|
  {
    var high: int, low: int := b[p], b[p + 1];
    high * 0x100 + low
  }

  function Bytes2(w: u16): Bytes {
    [w / 0x100, w % 0x100]
  }

  /** `dns_build_request`. */
  method BuildRequest(header: Bytes, name: array<u8>, qtype: u16, qclass: u16, request: array<u8>) returns (offset: nat)
    requires |header| == 12 && name != request && 16 + name.Length <= request.Length
    modifies request
    ensures offset == 16 + name.Length
    ensures request[..] == header + name[..] + Bytes2(qtype) + Bytes2(qclass) + Zeros(request.Length - offset)
  {
    forall i | 0 <= i < request.Length {
      request[i] := 0;
    }
    offset := Put(request, 0, header);
    offset := Put(request, offset, name[..]);
    offset := Put(request, offset, Bytes2(qtype));
    offset := Put(request, offset, Bytes2(qclass));
    assert request[offset..] == Zeros(request.Length - offset);
    assert request[..] == request[..offset] + request[offset..];
  }

  // ---------- responses ----------

  /** The loop that skips the labels of a question. */
  function SkipLabels(b: Bytes, p: nat): (q: Option<nat>)
    ensures q.Some? ==> p < q.value
    decreases |b| - p
  {
    if p >= |b| then None
    else if b[p] == 0 then Some(p + 1)
    else SkipLabels(b, p + b[p] + 1)
  }

  function SkipQuestions(b: Bytes, p: nat, n: nat): Option<nat>
    decreases n
  {
    if n == 0 then Some(p)
    else
      match SkipLabels(b, p)
      case None => None
      case Some(q) => SkipQuestions(b, q + 4, n - 1)
  }

  /** An entry of the result: the owner name and the four bytes of its address. */
  datatype Item = Item(domain: Bytes, ip: Bytes)

  /** What `strlen` sees of a buffer. */
  function UntilZero(s: Bytes): Bytes {
    if s == [] || s[0] == 0 then [] else [s[0]] + UntilZero(s[1..])
  }

  const NAME_MAX: nat := 128
  const HOST: nat := 1    // the record type A
  const CNAME: nat := 5

  /** The name at `p` can be read and fits a buffer of `room` bytes. */
  predicate Readable(b: Bytes, p: nat, room: nat) {
    NameAt(b, p, p, CODE_LIMIT).Some? && |Appended(b, p, p)| <= room
  }

  /** What a record adds to the result, and where the next one is looked for. */
  datatype Record = Record(found: seq<Item>, next: nat)

  /** The record at `p`; `None` if reading it would leave the message or a buffer. Records of other types
      are not stepped over: their data is read as the next record. */
  function RecordAt(b: Bytes, p: nat): Option<Record> {
    if p + 12 > |b| || !Readable(b, p, NAME_MAX - 1) then None
    else
      var kind, size := Word(b, p + 2), Word(b, p + 10);
      if kind == CNAME then if Readable(b, p + 12, NAME_MAX) then Some(Record([], p + 12 + size)) else None
      else if kind == HOST then
        if size != 4 then Some(Record([], p + 12 + size))
        else if p + 16 > |b| then None
        else Some(Record([Item(UntilZero(Appended(b, p, p)), b[p + 12..p + 16])], p + 16))
      else Some(Record([], p + 12))
  }

  function ReadAnswers(b: Bytes, p: nat, n: nat): Option<seq<Item>>
    decreases n
  {
    if n == 0 then Some([])
    else
      match RecordAt(b, p)
      case None => None
      case Some(r) =>
        match ReadAnswers(b, r.next, n - 1)
        case None => None
        case Some(rest) => Some(r.found + rest)
  }

  function ReadResponse(b: Bytes): Option<seq<Item>> {
    if |b| < 12 then None
    else
      match SkipQuestions(b, 12, Word(b, 4))
      case None => None
      case Some(p) => ReadAnswers(b, p, Word(b, 6))
  }

  lemma {:induction false} UntilZeroPad(s: Bytes, n: nat)
    requires n > 0
    ensures UntilZero(s + Zeros(n)) == UntilZero(s)
  {
    if s == [] {
      assert (s + Zeros(n))[0] == 0;
    } else {
      assert (s + Zeros(n))[1..] == s[1..] + Zeros(n);
      UntilZeroPad(s[1..], n);
    }
  }

  /** Reads a name into a buffer that is cleared first. */
  method ParseInto(b: Bytes, ptr: nat, out: array<u8>)
    requires Readable(b, ptr, out.Length)
    modifies out
    ensures out[..] == Appended(b, ptr, ptr) + Zeros(out.Length - |Appended(b, ptr, ptr)|)
  {
    forall i | 0 <= i < out.Length {
      out[i] := 0;
    }
    var len := ParseName(b, ptr, out, 0, ptr);
    assert out[len..] == Zeros(out.Length - len);
    assert out[..] == out[..len] + out[len..];
  }

  method ParseRecord(b: Bytes, ptr0: nat, aname: array<u8>, cname: array<u8>) returns (found: seq<Item>, ptr: nat)
    requires RecordAt(b, ptr0).Some? && aname.Length == NAME_MAX && cname.Length == NAME_MAX
    modifies aname, cname
    ensures RecordAt(b, ptr0) == Some(Record(found, ptr))
  {
    hide UntilZero, NameAt, Appended;
    ParseInto(b, ptr0, aname);
    UntilZeroPad(Appended(b, ptr0, ptr0), NAME_MAX - |Appended(b, ptr0, ptr0)|);
    found, ptr := [], ptr0 + 2;
    var kind := Word(b, ptr);
    ptr := ptr + 8;
    var datalen := Word(b, ptr);
    ptr := ptr + 2;
    if kind == CNAME {
      ParseInto(b, ptr, cname);
      ptr := ptr + datalen;
    } else if kind == HOST {
      if datalen == 4 {
        found := [Item(UntilZero(aname[..]), b[ptr..ptr + datalen])];
      }
      ptr := ptr + datalen;
    }
  }

  /** The loop over the questions. */
  method SkipAll(b: Bytes, ptr0: nat, querys: nat) returns (ptr: nat)
    requires SkipQuestions(b, ptr0, querys).Some?
    ensures SkipQuestions(b, ptr0, querys) == Some(ptr)
  {
    ptr := ptr0;
    var i := 0;
    while i < querys
      invariant 0 <= i <= querys && SkipQuestions(b, ptr, querys - i) == SkipQuestions(b, ptr0, querys)
    {
      ghost var start := ptr;
      var flag: int := 1;
      while flag != 0
        invariant if flag == 0 then SkipLabels(b, start) == Some(ptr) else SkipLabels(b, ptr) == SkipLabels(b, start)
        invariant SkipLabels(b, start).Some?
        decreases |b| - ptr, flag
      {
        flag := b[ptr];
        ptr := ptr + flag + 1;
      }
      ptr := ptr + 4;
      i := i + 1;
    }
  }

  lemma {:induction false} FoundAtMostOne(b: Bytes, p: nat)
    requires RecordAt(b, p).Some?
    ensures |RecordAt(b, p).value.found| <= 1
  {
  }

  lemma {:induction false} AnswersNone(b: Bytes, p: nat)
    ensures ReadAnswers(b, p, 0) == Some([])
  {
  }

  lemma {:induction false} AnswersOne(b: Bytes, p: nat, n: nat)
    requires n > 0 && ReadAnswers(b, p, n).Some?
    ensures RecordAt(b, p).Some? && ReadAnswers(b, RecordAt(b, p).value.next, n - 1).Some?
    ensures ReadAnswers(b, p, n).value
         == RecordAt(b, p).value.found + ReadAnswers(b, RecordAt(b, p).value.next, n - 1).value
  {
    hide RecordAt;
  }

  /** `dns_parse_response`: the entries in front of `cnt` are the result. */
  method ParseResponse(b: Bytes) returns (list: array<Item>, cnt: nat)
    requires ReadResponse(b).Some?
    ensures cnt <= list.Length && Some(list[..cnt]) == ReadResponse(b)
  {
    hide RecordAt, SkipQuestions, ReadAnswers;
    var querys, answers := Word(b, 4), Word(b, 6);
    var ptr := SkipAll(b, 12, querys);
    var cname, aname := new u8[NAME_MAX], new u8[NAME_MAX];
    list := new Item[answers](_ => Item([], []));
    cnt := 0;
    var i := 0;
    ghost var all := ReadAnswers(b, ptr, answers).value;
    while i < answers
      invariant 0 <= i <= answers && cnt <= i && list.Length == answers && fresh(list)
      invariant ReadAnswers(b, ptr, answers - i).Some? && list[..cnt] + ReadAnswers(b, ptr, answers - i).value == all
      modifies list, aname, cname
    {
      ghost var done, rest := list[..cnt], ReadAnswers(b, ptr, answers - i).value;
      AnswersOne(b, ptr, answers - i);
      FoundAtMostOne(b, ptr);
      var found;
      found, ptr := ParseRecord(b, ptr, aname, cname);
      Assoc(done, found, ReadAnswers(b, ptr, answers - i - 1).value);
      if found != [] {
        list[cnt] := found[0];
        cnt := cnt + 1;
        assert list[..cnt] == done + found;
      }
      i := i + 1;
    }
    AnswersNone(b, ptr);
    assert list[..cnt] + [] == list[..cnt];
  }

  // ---------- encoded responses ----------

  datatype Question = Question(labels: seq<Bytes>, qtype: u16, qclass: u16)

  /** A record whose owner is one pointer. */
  datatype Answer = Answer(target: nat, kind: u16, cls: u16, ttl: u32, data: Bytes)

  function Bytes4(w: u32): Bytes {
    Bytes2(w / 0x1_0000) + Bytes2(w % 0x1_0000)
  }

  function EncodeQuestion(q: Question): Bytes {
    EncodeLabels(q.labels) + [0] + (Bytes2(q.qtype) + Bytes2(q.qclass))
  }

  function EncodeQuestions(qs: seq<Question>): Bytes {
    if qs == [] then [] else EncodeQuestion(qs[0]) + EncodeQuestions(qs[1..])
  }

  predicate GoodAnswer(a: Answer) {
    a.target < 0x4000 && |a.data| < 0x1_0000 && (a.kind == HOST || a.kind == CNAME)
  }

  function RecordHead(a: Answer): Bytes
    requires GoodAnswer(a)
  {
    Bytes2(0xC000 + a.target) + Bytes2(a.kind) + Bytes2(a.cls) + Bytes4(a.ttl) + Bytes2(|a.data|)
  }

  function EncodeAnswers(answers: seq<Answer>): Bytes
    requires forall i :: 0 <= i < |answers| ==> GoodAnswer(answers[i])
  {
    if answers == [] then [] else RecordHead(answers[0]) + answers[0].data + EncodeAnswers(answers[1..])
  }

  /** Every name the decoder will read, those of the owners and of CNAME data, can be read and fits. */
  predicate NamesReadable(b: Bytes, p: nat, answers: seq<Answer>)
    decreases |answers|
  {
    answers == [] ||
    var a := answers[0];
    && a.target < p && Readable(b, a.target, NAME_MAX - 1)
    && (a.kind == CNAME ==> Readable(b, p + 12, NAME_MAX))
    && NamesReadable(b, p + 12 + |a.data|, answers[1..])
  }

  /** The A records of four bytes, in order, with the names of their owners. */
  function Addresses(b: Bytes, p: nat, answers: seq<Answer>): seq<Item>
    requires NamesReadable(b, p, answers)
    decreases |answers|
  {
    if answers == [] then []
    else
      var a := answers[0];
      (if a.kind == HOST && |a.data| == 4 then [Item(UntilZero(Appended(b, a.target, a.target)), a.data)] else [])
      + Addresses(b, p + 12 + |a.data|, answers[1..])
  }

  lemma {:induction false} WordAt(b: Bytes, p: nat, w: u16)
    requires p + 2 <= |b| && b[p..p + 2] == Bytes2(w)
    ensures Word(b, p) == w
  {
    assert b[p] == b[p..p + 2][0] && b[p + 1] == b[p..p + 2][1];
  }

  lemma {:induction false} QuestionFirst(pre: Bytes, q: Question, rest: Bytes)
    ensures var tail := Bytes2(q.qtype) + Bytes2(q.qclass) + rest;
            && pre + (EncodeQuestion(q) + rest) == Embed(pre, q.labels, tail)
            && pre + (EncodeQuestion(q) + rest) == (pre + EncodeQuestion(q)) + rest
            && |EncodeQuestion(q)| == |EncodeLabels(q.labels)| + 5
  {
    hide EncodeLabels;
  }

  lemma {:induction false} SkipEncoded(pre: Bytes, qs: seq<Question>, post: Bytes)
    requires forall i :: 0 <= i < |qs| ==> GoodLabels(qs[i].labels)
    ensures SkipQuestions(pre + (EncodeQuestions(qs) + post), |pre|, |qs|) == Some(|pre| + |EncodeQuestions(qs)|)
    decreases |qs|
  {
    hide EncodeLabels, NameAt, SkipLabels, EncodeQuestion, Embed, DanglingDot;
    if qs != [] {
      var q, rest := qs[0], EncodeQuestions(qs[1..]) + post;
      Assoc(EncodeQuestion(q), EncodeQuestions(qs[1..]), post);
      QuestionFirst(pre, q, rest);
      EncodedNameRead(pre, q.labels, Bytes2(q.qtype) + Bytes2(q.qclass) + rest, |pre|);
      SkipEncoded(pre + EncodeQuestion(q), qs[1..], post);
    }
  }

  lemma {:induction false} HeadSlices(a: Answer)
    requires GoodAnswer(a)
    ensures var h := RecordHead(a);
            |h| == 12 && h[0..2] == Bytes2(0xC000 + a.target) && h[2..4] == Bytes2(a.kind)
              && h[10..12] == Bytes2(|a.data|)
  {
    hide Bytes2;
    TwoBytes(0xC000 + a.target);
    TwoBytes(a.kind);
    TwoBytes(a.cls);
    TwoBytes(a.ttl / 0x1_0000);
    TwoBytes(a.ttl % 0x1_0000);
    TwoBytes(|a.data|);
  }

  lemma {:induction false} TwoBytes(w: u16)
    ensures |Bytes2(w)| == 2
  {
  }

  lemma {:induction false} HeadAt(pre: Bytes, a: Answer, post: Bytes)
    requires GoodAnswer(a)
    ensures var b, p := pre + (RecordHead(a) + (a.data + post)), |pre|;
            && p + 12 + |a.data| <= |b|
            && IsPointer(b[p]) && Target(b, p) == a.target
            && Word(b, p + 2) == a.kind && Word(b, p + 10) == |a.data|
            && b[p + 12..p + 12 + |a.data|] == a.data
  {
    var b, p, h := pre + (RecordHead(a) + (a.data + post)), |pre|, RecordHead(a);
    HeadSlices(a);
    hide RecordHead, Bytes2, Word;
    assert b[p..p + 2] == h[0..2] && b[p + 2..p + 4] == h[2..4] && b[p + 10..p + 12] == h[10..12];
    WordAt(b, p, 0xC000 + a.target);
    WordAt(b, p + 2, a.kind);
    WordAt(b, p + 10, |a.data|);
    PointerWord(b, p, a.target);
  }

  lemma {:induction false} PointerWord(b: Bytes, p: nat, target: nat)
    requires p + 2 <= |b| && target < 0x4000 && Word(b, p) == 0xC000 + target
    ensures IsPointer(b[p]) && Target(b, p) == target
  {
    var high: int, low: int := b[p], b[p + 1];
    assert high == 0xC0 + target / 0x100 && low == target % 0x100;
  }

  lemma {:induction false} PointerRead(b: Bytes, p: nat, room: nat)
    requires p + 1 < |b| && IsPointer(b[p]) && Target(b, p) < p && Readable(b, Target(b, p), room)
    ensures Readable(b, p, room) && Appended(b, p, p) == Appended(b, Target(b, p), Target(b, p))
  {
  }

  lemma {:induction false} RecordRead(b: Bytes, p: nat, a: Answer)
    requires GoodAnswer(a) && p + 12 + |a.data| <= |b|
    requires IsPointer(b[p]) && Target(b, p) == a.target < p
    requires Word(b, p + 2) == a.kind && Word(b, p + 10) == |a.data| && b[p + 12..p + 12 + |a.data|] == a.data
    requires Readable(b, a.target, NAME_MAX - 1) && (a.kind == CNAME ==> Readable(b, p + 12, NAME_MAX))
    ensures RecordAt(b, p)
         == Some(Record(if a.kind == HOST && |a.data| == 4
                        then [Item(UntilZero(Appended(b, a.target, a.target)), a.data)] else [],
                        p + 12 + |a.data|))
  {
    PointerRead(b, p, NAME_MAX - 1);
    hide NameAt, Appended, UntilZero, Target, Word;
  }

  lemma {:induction false} AnswersRead(pre: Bytes, answers: seq<Answer>, post: Bytes)
    requires forall i :: 0 <= i < |answers| ==> GoodAnswer(answers[i])
    requires NamesReadable(pre + (EncodeAnswers(answers) + post), |pre|, answers)
    ensures var b := pre + (EncodeAnswers(answers) + post);
            ReadAnswers(b, |pre|, |answers|) == Some(Addresses(b, |pre|, answers))
    decreases |answers|
  {
    hide RecordHead, Readable, Appended, UntilZero, Target, RecordAt, Word, GoodAnswer, IsPointer;
    if answers != [] {
      var a, rest := answers[0], EncodeAnswers(answers[1..]) + post;
      var b, p := pre + (EncodeAnswers(answers) + post), |pre|;
      var pre' := pre + RecordHead(a) + a.data;
      RecordFirst(pre, RecordHead(a), a.data, EncodeAnswers(answers[1..]), post);
      HeadAt(pre, a, rest);
      HeadSlices(a);
      RecordRead(b, p, a);
      assert b == pre' + rest && |pre'| == p + 12 + |a.data|;
      AnswersRead(pre', answers[1..], post);
    }
  }

  lemma {:induction false} RecordFirst(pre: Bytes, head: Bytes, data: Bytes, rest: Bytes, post: Bytes)
    ensures pre + (head + data + rest + post) == pre + (head + (data + (rest + post)))
    ensures pre + (head + data + rest + post) == (pre + head + data) + (rest + post)
  {
  }

  /** For every encoded response with uncompressed questions and A and CNAME answers owned by a pointer:
      the result is exactly the A records of four bytes, in order. */
  lemma {:induction false} ResponseRoundTrip(id: Bytes, qs: seq<Question>, answers: seq<Answer>, more: Bytes,
      post: Bytes)
    requires |id| == 4 && |more| == 4 && |qs| < 0x1_0000 && |answers| < 0x1_0000
    requires forall i :: 0 <= i < |qs| ==> GoodLabels(qs[i].labels)
    requires forall i :: 0 <= i < |answers| ==> GoodAnswer(answers[i])
    requires var pre := Header(id, |qs|, |answers|, more) + EncodeQuestions(qs);
             NamesReadable(pre + (EncodeAnswers(answers) + post), |pre|, answers)
    ensures var pre := Header(id, |qs|, |answers|, more) + EncodeQuestions(qs);
            var b := pre + (EncodeAnswers(answers) + post);
            ReadResponse(b) == Some(Addresses(b, |pre|, answers))
  {
    hide EncodeQuestions, EncodeAnswers, SkipQuestions, ReadAnswers, Addresses, NamesReadable, Word, Header;
    var head := Header(id, |qs|, |answers|, more);
    var rest := EncodeAnswers(answers) + post;
    HeaderRead(id, |qs|, |answers|, more, EncodeQuestions(qs) + rest);
    Assoc(head, EncodeQuestions(qs), rest);
    SkipEncoded(head, qs, rest);
    AnswersRead(head + EncodeQuestions(qs), answers, post);
  }

  function Header(id: Bytes, questions: u16, answers: u16, more: Bytes): Bytes {
    id + Bytes2(questions) + Bytes2(answers) + more
  }

  lemma {:induction false} HeaderRead(id: Bytes, questions: u16, answers: u16, more: Bytes, rest: Bytes)
    requires |id| == 4 && |more| == 4
    ensures var b := Header(id, questions, answers, more) + rest;
            |b| == 12 + |rest| && Word(b, 4) == questions && Word(b, 6) == answers
    ensures |Header(id, questions, answers, more)| == 12
  {
    var b := Header(id, questions, answers, more) + rest;
    assert b[4..6] == Bytes2(questions) && b[6..8] == Bytes2(answers);
    WordAt(b, 4, questions);
    WordAt(b, 6, answers);
  }
}
