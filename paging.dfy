/**
 * The paging arithmetic behind `from`/`size` listings: Java's 32-bit `int`
 * division, Spring Data's `PageRequest.of` argument checks, and the slice
 * of an ordered result that a page holds.
 */
module Paging {
  import opened Common

  const INT_MIN: int := -0x8000_0000
  const INT_MAX: int := 0x7fff_ffff

  /** Java's `int`. */
  newtype Int32 = x: int | -0x8000_0000 <= x <= 0x7fff_ffff

  function Abs(x: int): (r: int)
    ensures r >= 0
  {
    if x < 0 then -x else x
  }

  /** Division truncated toward zero, on unbounded integers. */
  function TruncDiv(a: int, b: int): int
    requires b != 0
  {
    if a >= 0 && b > 0 then a / b
    else if a >= 0 then -(a / -b)
    else if b > 0 then -((-a) / b)
    else (-a) / (-b)
  }

  /** A positive factor does not shrink a non-negative number. */
  lemma MulAtLeast(q: int, m: int)
    requires q >= 0 && m >= 1
    ensures m * q >= q
    ensures m >= 2 ==> m * q >= 2 * q
  {
  }

  /** A positive factor does not raise a negative number. */
  lemma MulBelow(q: int, m: int)
    requires q < 0 && m >= 1
    ensures m * q <= q
  {
  }

  /** Euclidean division of a non-negative number: the remainder and the size of the quotient. */
  lemma EuclidNonneg(x: int, m: int)
    requires x >= 0 && m > 0
    ensures 0 <= x - (x / m) * m < m
    ensures 0 <= x / m <= x
    ensures x / m == x && x > 0 ==> m == 1
  {
    var q := x / m;
    assert x == m * q + x % m && 0 <= x % m < m;
    if q < 0 {
      MulBelow(q, m);
    } else {
      MulAtLeast(q, m);
    }
  }

  /** Moving a sign across a product. */
  lemma NegSwap(q: int, m: int)
    ensures (-q) * (-m) == q * m
    ensures (-q) * m == q * (-m)
  {
  }

  /** The remainder of truncated division is smaller than the divisor and has the sign of the dividend. */
  lemma TruncDivRemainder(a: int, b: int)
    requires b != 0
    ensures a >= 0 ==> 0 <= a - TruncDiv(a, b) * b < Abs(b)
    ensures a < 0 ==> -Abs(b) < a - TruncDiv(a, b) * b <= 0
    ensures Abs(TruncDiv(a, b)) <= Abs(a)
    ensures Abs(TruncDiv(a, b)) == Abs(a) && a != 0 ==> Abs(b) == 1
  {
    var x := Abs(a);
    var m := Abs(b);
    var q := x / m;
    var t := TruncDiv(a, b);
    EuclidNonneg(x, m);
    assert t == q || t == -q;
    if a >= 0 && b > 0 {
      assert t * b == q * m;
    } else if a >= 0 {
      assert t == -q && b == -m;
      NegSwap(q, m);
      assert t * b == q * m;
    } else if b > 0 {
      assert t == -q && b == m;
      NegSwap(q, -m);
      assert t * b == -(q * m);
    } else {
      assert t == q && b == -m;
      NegSwap(-q, m);
      assert t * b == -(q * m);
    }
  }

  /**
   * Java's `a / b` on `int`: division by zero throws ArithmeticException,
   * the quotient is truncated toward zero, and `MIN_VALUE / -1` wraps
   * around to `MIN_VALUE`.
   */
  function JavaDiv(a: Int32, b: Int32): (r: Result<Int32>)
    ensures r.Err? <==> b == 0
    ensures r.Err? ==> r.error == Arithmetic
    ensures r.Ok? && a as int >= 0 ==> 0 <= a as int - r.value as int * b as int < Abs(b as int)
    ensures r.Ok? && a as int < 0 && !(a as int == INT_MIN && b == -1) ==> -Abs(b as int) < a as int - r.value as int * b as int <= 0
    ensures r.Ok? && a as int == INT_MIN && b == -1 ==> r.value as int == INT_MIN
  {
    if b == 0 then Err(Arithmetic)
    else
      var q := TruncDiv(a as int, b as int);
      TruncDivRemainder(a as int, b as int);
      if q > INT_MAX then Ok(INT_MIN as Int32) else Ok(q as Int32)
  }

  /** For a non-negative offset and a positive size, `offset / size` is the page whose window holds the offset. */
  lemma DivWindow(from: Int32, size: Int32)
    requires from >= 0 && size > 0
    ensures JavaDiv(from, size).Ok?
    ensures var page := JavaDiv(from, size).value as int;
      page >= 0 && page * (size as int) <= from as int < page * (size as int) + size as int
  {
    EuclidNonneg(from as int, size as int);
    assert JavaDiv(from, size).value as int == (from as int) / (size as int);
  }

  /** A page request: the page number and the page size. */
  datatype Pageable = Pageable(page: int, size: int)

  /** `PageRequest.of(page, size)`: a negative page or a size below one is an IllegalArgumentException. */
  function PageRequestOf(page: int, size: int): (r: Result<Pageable>)
    ensures r.Ok? <==> page >= 0 && size >= 1
    ensures r.Err? ==> r.error == IllegalArgument
    ensures r.Ok? ==> r.value == Pageable(page, size)
  {
    if page < 0 then Err(IllegalArgument)
    else if size < 1 then Err(IllegalArgument)
    else Ok(Pageable(page, size))
  }

  /** The first row of a page: `page * size` (computed by Spring as a `long`, so it does not wrap). */
  function Offset(p: Pageable): int { p.page * p.size }

  /**
   * `r` is page `p` of `s`: as many rows as remain after the page's offset,
   * at most `size`, each the row of `s` at the offset plus its position.
   */
  ghost predicate IsPage<T>(r: seq<T>, s: seq<T>, p: Pageable) {
    && |r| == (if |s| <= Offset(p) then 0 else Min(p.size, |s| - Offset(p)))
    && forall i :: 0 <= i < |r| ==> 0 <= Offset(p) + i < |s| && r[i] == s[Offset(p) + i]
  }

  /** `getContent()` of the page `p` of an ordered result: up to `size` rows from the page's offset on. */
  function PageContent<T>(s: seq<T>, p: Pageable): (r: seq<T>)
    requires p.page >= 0 && p.size >= 1
    ensures |r| <= p.size
    ensures |r| == if |s| <= Offset(p) then 0 else Min(p.size, |s| - Offset(p))
    ensures forall i :: 0 <= i < |r| ==> r[i] == s[Offset(p) + i]
    ensures forall x :: x in r ==> x in s
    ensures IsPage(r, s, p)
  {
    var off := p.page * p.size;
    assert off >= 0;
    if |s| <= off then []
    else s[off..off + Min(p.size, |s| - off)]
  }

  function Min(a: int, b: int): int { if a <= b then a else b }

  /** The page whose window contains row `k` holds that row at position `k % size`. */
  lemma PageOfRow<T>(s: seq<T>, p: Pageable, k: int)
    requires p.page >= 0 && p.size >= 1
    requires Offset(p) <= k < Offset(p) + p.size
    ensures k < |s| ==> k % p.size < |PageContent(s, p)| && PageContent(s, p)[k % p.size] == s[k]
  {
    var q := k / p.size;
    assert k == p.size * q + k % p.size;
    if q < p.page {
      MulStep(q, p.page, p.size);
    } else if q > p.page {
      MulStep(p.page, q, p.size);
    }
    assert k % p.size == k - Offset(p);
  }

  /** Multiplying by a positive size keeps consecutive pages a full size apart. */
  lemma MulStep(a: int, b: int, size: int)
    requires a < b && size >= 1
    ensures a * size + size <= b * size
  {
    var c := b - a;
    MulAtLeast(size, c);
    assert b * size == a * size + c * size;
  }
}
