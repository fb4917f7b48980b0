/** Page sizes, rounding and alignment. */
module Globals {
  const BASE_4KB: nat := 4096
  const HUGE_2MB: nat := 2097152
  const HUGE_1GB: nat := 1073741824

  /** The ROUND_UP macro. */
  function RoundUp(num: nat, mul: nat): (r: nat)
    requires mul > 0
    ensures num <= r < num + mul && IsAligned(r, mul)
  {
    var q := (num + mul - 1) / mul;
    MultipleIsAligned(q, mul);
    q * mul
  }

  /** The IS_ALIGNED macro. */
  predicate IsAligned(num: int, alignment: nat)
    requires alignment > 0
  { num % alignment == 0 }

  lemma MultipleIsAligned(k: int, m: nat)
    requires m > 0
    ensures IsAligned(k * m, m)
  {
    var q, r := (k * m) / m, (k * m) % m;
    assert (k - q) * m == r by { assert k * m == q * m + r; }
    SmallMultiple(k - q, m, r);
  }

  lemma ProductBound(d: int, m: int)
    requires m > 0
    ensures d >= 1 ==> d * m >= m
    ensures d <= -1 ==> d * m <= -m
  {
    if d >= 1 {
      assert (d - 1) * m >= 0;
      assert d * m == (d - 1) * m + m;
    } else if d <= -1 {
      assert (-d - 1) * m >= 0;
      assert d * m == -((-d - 1) * m + m);
    }
  }

  /** The only multiple of m between -m and m is 0. */
  lemma SmallMultiple(d: int, m: int, x: int)
    requires d * m == x && m > 0 && -m < x < m
    ensures d == 0 && x == 0
  {
    ProductBound(d, m);
  }

  lemma AlignedSum(a: int, b: int, m: nat)
    requires m > 0 && IsAligned(a, m) && IsAligned(b, m)
    ensures IsAligned(a + b, m) && IsAligned(a - b, m)
  {
    assert a == (a / m) * m && b == (b / m) * m;
    MultipleIsAligned(a / m + b / m, m);
    MultipleIsAligned(a / m - b / m, m);
    assert (a / m + b / m) * m == a + b && (a / m - b / m) * m == a - b;
  }

  /** Different multiples of m are at least m apart. */
  lemma AlignedApart(a: int, b: int, m: nat)
    requires m > 0 && IsAligned(a, m) && IsAligned(b, m) && a < b
    ensures a + m <= b
  {
    var d := b / m - a / m;
    assert d * m == b - a by { assert a == (a / m) * m && b == (b / m) * m; }
    if b - a < m { SmallMultiple(d, m, b - a); }
  }

  /** RoundUp is the least multiple that is not below its argument. */
  lemma RoundUpIsLeast(num: nat, mul: nat, r: int)
    requires mul > 0 && num <= r && IsAligned(r, mul)
    ensures RoundUp(num, mul) <= r
  {
    if r < RoundUp(num, mul) { AlignedApart(r, RoundUp(num, mul), mul); }
  }

  /** A multiple is its own rounding. */
  lemma RoundUpFixed(num: nat, mul: nat)
    requires mul > 0 && IsAligned(num, mul)
    ensures RoundUp(num, mul) == num
  {
    RoundUpIsLeast(num, mul, num);
  }
}
