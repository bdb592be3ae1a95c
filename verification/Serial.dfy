/** 32-bit integers as the C code sees them, and the serial-number comparison `_itimediff`
    that orders sequence numbers and clock readings (in the sense of section 3.2 of RFC 1982). */
module Serial {
  const TWO31: int := 0x8000_0000
  const TWO32: int := 0x1_0000_0000

  type u8 = x: int | 0 <= x < 0x100
  type u16 = x: int | 0 <= x < 0x1_0000
  type u32 = x: int | 0 <= x < 0x1_0000_0000
  type i32 = x: int | -0x8000_0000 <= x < 0x8000_0000

  /** The value an unsigned 32-bit variable holds after being assigned `x`. */
  function Wrap(x: int): u32 {
    x % TWO32
  }

  /** The cast `(IINT32)x`. */
  function Signed(x: u32): i32 {
    if x < TWO31 then x else x - TWO32
  }

  /** `_itimediff`: the subtraction wraps, then the result is read as signed. */
  function TimeDiff(later: u32, earlier: u32): i32 {
    Signed(Wrap(later - earlier))
  }

  /** The unsigned distance from `base` up to `x`. */
  function Off(x: u32, base: u32): u32 {
    Wrap(x - base)
  }

  function Min(a: int, b: int): int {
    if a <= b then a else b
  }

  function Max(a: int, b: int): int {
    if a >= b then a else b
  }

  /** Unsigned 32-bit multiplication. */
  function Mul(a: u32, b: u32): u32 {
    Wrap(a * b)
  }

  lemma {:induction false} MulNonNegative(x: nat, y: nat)
    ensures x * y >= 0
  {
  }

  lemma {:induction false} DivAtMost(a: nat, b: nat)
    requires b > 0
    ensures 0 <= a / b <= a
  {
    var q := a / b;
    MulNonNegative(q, b - 1);
    assert q * b == q * (b - 1) + q;
  }

  /** Unsigned 32-bit division. */
  function Div(a: u32, b: u32): u32
    requires b > 0
  {
    DivAtMost(a, b);
    a / b
  }

  lemma {:induction false} OffOfLift(n: int, m: int)
    requires 0 <= n - m < TWO32
    ensures Off(Wrap(n), Wrap(m)) == n - m
  {
  }

  lemma {:induction false} OffOfWraps(n: int, m: int)
    ensures Off(Wrap(n), Wrap(m)) == Wrap(n - m)
  {
    WrapMinus(Wrap(n), m, 0);
    WrapMinus(n, m, 0);
    WrapAdd(n, -m);
  }

  /** `_itimediff` on the low 32 bits of two unbounded numbers is their true difference exactly
      when that difference fits a signed 32-bit integer. */
  lemma {:induction false} TimeDiffExactIff(n: int, m: int)
    ensures TimeDiff(Wrap(n), Wrap(m)) == n - m <==> -TWO31 <= n - m < TWO31
  {
    OffOfWraps(n, m);
    if 0 <= n - m < TWO32 {
      WrapIs(n - m, 0);
    } else if -TWO31 <= n - m < 0 {
      WrapIs(n - m, 1);
    }
  }

  lemma {:induction false} WrapOff(x: u32, base: u32)
    ensures Wrap(base + Off(x, base)) == x
  {
  }

  lemma {:induction false} WrapSame(n: int, m: int)
    requires Wrap(n) == Wrap(m) && -TWO32 < n - m < TWO32
    ensures n == m
  {
  }

  /** Subtracting a wrapped sum is subtracting its parts in turn. */
  lemma {:induction false} WrapMinus(x: int, base: int, w: int)
    ensures Wrap(x - Wrap(base + w)) == Wrap(Wrap(x - base) - w)
  {
    var k, l := (base + w) / TWO32, (x - base) / TWO32;
    assert Wrap(base + w) == base + w - k * TWO32 && Wrap(x - base) == x - base - l * TWO32;
    WrapTurns(x - Wrap(base + w), Wrap(x - base) - w, k + l);
  }

  lemma {:induction false} WrapTurns(x: int, y: int, k: int)
    requires x == y + k * TWO32
    ensures Wrap(x) == Wrap(y)
  {
  }

  lemma {:induction false} WrapIs(x: int, k: int)
    requires 0 <= x + k * TWO32 < TWO32
    ensures Wrap(x) == x + k * TWO32
  {
  }

  lemma {:induction false} WrapAdd(n: int, d: int)
    ensures Wrap(Wrap(n) + d) == Wrap(n + d)
  {
  }

  /** Moving the base up by no more than the distance shortens the distance by that much. */
  lemma {:induction false} OffRebase(x: u32, base: u32, base': u32)
    requires Off(base', base) <= Off(x, base)
    ensures Off(x, base') == Off(x, base) - Off(base', base)
  {
  }

  /** Signed comparison of two numbers within 2^31 of a common base compares their distances. */
  lemma {:induction false} TimeDiffByOff(x: u32, y: u32, base: u32)
    requires -TWO31 <= Off(x, base) - Off(y, base) < TWO31
    ensures TimeDiff(x, y) == Off(x, base) - Off(y, base)
  {
    assert Wrap(Off(x, base) - Off(y, base)) == Wrap(x - y);
  }

  // ---------- distances on the clock ----------

  lemma {:induction false} TimeDiffBack(x: u32, y: u32)
    ensures Wrap(y + TimeDiff(x, y)) == x
  {
    WrapOff(x, y);
    WrapTurns(y + Off(x, y), y + TimeDiff(x, y), if Off(x, y) < TWO31 then 0 else 1);
  }

  /** A reading `d` ahead of `x` is `d` further from `y`, as long as that fits. */
  lemma {:induction false} TimeDiffShift(x: u32, y: u32, d: int)
    requires -TWO31 <= TimeDiff(x, y) + d < TWO31
    ensures TimeDiff(Wrap(x + d), y) == TimeDiff(x, y) + d
  {
    var t: int, b: int := TimeDiff(x, y), y;
    TimeDiffBack(x, y);
    WrapAdd(b + t, d);
    WrapIs(b, 0);
    TimeDiffExactIff(b + t + d, b);
  }

  lemma {:induction false} TimeDiffFlip(x: u32, y: u32)
    requires TimeDiff(x, y) > -TWO31
    ensures TimeDiff(y, x) == -TimeDiff(x, y)
  {
    var t: int, b: int := TimeDiff(x, y), y;
    TimeDiffBack(x, y);
    WrapIs(b, 0);
    TimeDiffExactIff(b, b + t);
  }

  lemma {:induction false} TimeDiffSame(x: u32)
    ensures TimeDiff(x, x) == 0
  {
  }

  lemma {:induction false} OffAhead(now: u32, d: nat)
    requires d < TWO32
    ensures Off(Wrap(now + d), now) == d
  {
    WrapIs(now, 0);
    OffOfLift(now + d, now);
  }
}
