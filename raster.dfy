/**
 * Rectangles of an 8-bit grey buffer addressed through a row stride, and the
 * integer mean brightness `average` computes over them.
 */
module Raster {
  import opened Common

  /** Row `y` (`w` pixels from `off + y * stride`) of a rectangle lies inside a buffer of length `len`. */
  predicate RectInside(len: nat, off: nat, stride: nat, w: nat, h: nat)
  {
    h == 0 || off + (h - 1) * stride + w <= len
  }

  lemma RowInside(len: nat, off: nat, stride: nat, w: nat, h: nat, y: nat)
    requires RectInside(len, off, stride, w, h) && y < h
    ensures off + y * stride + w <= len
  {
    assert (h - 1) * stride == y * stride + (h - 1 - y) * stride;
  }

  /** Where row `y` of the rectangle at `off` starts. */
  function RowStart(off: nat, stride: nat, y: nat): nat
  {
    off + y * stride
  }

  /** Pixel `(y, x)` of the rectangle at `off`. */
  function Pixel(buf: seq<byte>, off: nat, stride: nat, y: nat, x: nat): byte
    requires off + y * stride + x < |buf|
  {
    buf[off + y * stride + x]
  }

  /** Row `y` of the rectangle at `off`, as a sequence of `w` pixels. */
  function Row(buf: seq<byte>, off: nat, stride: nat, w: nat, h: nat, y: nat): (r: seq<byte>)
    requires RectInside(|buf|, off, stride, w, h) && y < h
    ensures |r| == w
  {
    RowInside(|buf|, off, stride, w, h, y);
    buf[off + y * stride..off + y * stride + w]
  }

  /** The sum of the `n` pixels starting at `start`. */
  function RowSum(buf: seq<byte>, start: nat, n: nat): (s: nat)
    requires start + n <= |buf|
    ensures s <= 255 * n
  {
    if n == 0 then 0 else RowSum(buf, start, n - 1) + buf[start + n - 1]
  }

  /** The sum of the first `rows` rows of the `w`-wide rectangle at `off`. */
  function RectSum(buf: seq<byte>, off: nat, stride: nat, w: nat, rows: nat): nat
    requires RectInside(|buf|, off, stride, w, rows)
  {
    if rows == 0 then 0
    else
      RowInside(|buf|, off, stride, w, rows, rows - 1);
      assert RectInside(|buf|, off, stride, w, rows - 1) by {
        if rows > 1 { RowInside(|buf|, off, stride, w, rows, rows - 2); }
      }
      RectSum(buf, off, stride, w, rows - 1) + RowSum(buf, off + (rows - 1) * stride, w)
  }

  lemma {:induction false} RectSumBound(buf: seq<byte>, off: nat, stride: nat, w: nat, rows: nat)
    requires RectInside(|buf|, off, stride, w, rows)
    ensures RectSum(buf, off, stride, w, rows) <= 255 * (w * rows)
  {
    if rows > 0 {
      assert RectInside(|buf|, off, stride, w, rows - 1) by {
        if rows > 1 { RowInside(|buf|, off, stride, w, rows, rows - 2); }
      }
      RectSumBound(buf, off, stride, w, rows - 1);
      assert w * rows == w * (rows - 1) + w;
    }
  }

  /** `average`: the mean brightness of a `w` by `h` rectangle, rounded down. */
  function Average(buf: seq<byte>, off: nat, stride: nat, w: nat, h: nat): (a: int)
    requires w > 0 && h > 0 && RectInside(|buf|, off, stride, w, h)
    ensures 0 <= a <= 255
  {
    var s := RectSum(buf, off, stride, w, h);
    var d := w * h;
    RectSumBound(buf, off, stride, w, h);
    DivFloor(s, d, 255);
    s / d
  }

  /** The average is the pixel sum divided by the pixel count, rounded down. */
  lemma AverageFloor(buf: seq<byte>, off: nat, stride: nat, w: nat, h: nat)
    requires w > 0 && h > 0 && RectInside(|buf|, off, stride, w, h)
    ensures var a, s, d := Average(buf, off, stride, w, h), RectSum(buf, off, stride, w, h), w * h;
      a * d <= s < (a + 1) * d
  {
    RectSumBound(buf, off, stride, w, h);
    DivFloor(RectSum(buf, off, stride, w, h), w * h, 255);
  }

  /** Integer division of a natural number rounds down. */
  lemma DivFloor(s: nat, d: nat, m: nat)
    requires d > 0 && s <= m * d
    ensures (s / d) * d <= s < (s / d + 1) * d
    ensures s / d <= m
  {
    var q, r := s / d, s % d;
    assert s == q * d + r;
  }

  lemma MulMono(a: nat, b: nat, d: nat)
    requires a <= b
    ensures a * d <= b * d
  {
    assert b * d == a * d + (b - a) * d;
  }

  /** Dividing an exact multiple gives the factor back. */
  lemma MulDivCancel(v: nat, d: nat)
    requires d > 0
    ensures (v * d) / d == v
  {
    var q := (v * d) / d;
    DivFloor(v * d, d, v);
    if q < v {
      MulMono(q + 1, v, d);
    }
  }

  /** The rectangle holds the same value `v` everywhere. */
  ghost predicate Uniform(buf: seq<byte>, off: nat, stride: nat, w: nat, h: nat, v: byte)
    requires RectInside(|buf|, off, stride, w, h)
  {
    forall y, x :: 0 <= y < h && 0 <= x < w && off + y * stride + x < |buf| ==>
      Pixel(buf, off, stride, y, x) == v
  }

  lemma {:induction false} RowSumUniform(buf: seq<byte>, start: nat, n: nat, v: byte)
    requires start + n <= |buf|
    requires forall x :: start <= x < start + n ==> buf[x] == v
    ensures RowSum(buf, start, n) == v * n
  {
    if n > 0 { RowSumUniform(buf, start, n - 1, v); }
  }

  /** Each row of a uniform rectangle sums to `v * w`. */
  lemma RowOfUniform(buf: seq<byte>, off: nat, stride: nat, w: nat, h: nat, v: byte, y: nat)
    requires RectInside(|buf|, off, stride, w, h) && Uniform(buf, off, stride, w, h, v) && y < h
    ensures off + y * stride + w <= |buf|
    ensures RowSum(buf, off + y * stride, w) == v * w
  {
    RowInside(|buf|, off, stride, w, h, y);
    var start := off + y * stride;
    forall x | start <= x < start + w ensures buf[x] == v {
      assert Pixel(buf, off, stride, y, x - start) == v;
    }
    RowSumUniform(buf, start, w, v);
  }

  lemma {:induction false} RectSumUniform(buf: seq<byte>, off: nat, stride: nat, w: nat, rows: nat, h: nat, v: byte)
    requires rows <= h && RectInside(|buf|, off, stride, w, h)
    requires Uniform(buf, off, stride, w, h, v)
    ensures RectInside(|buf|, off, stride, w, rows)
    ensures RectSum(buf, off, stride, w, rows) == rows * (v * w)
  {
    if rows > 0 {
      RectSumUniform(buf, off, stride, w, rows - 1, h, v);
      RowOfUniform(buf, off, stride, w, h, v, rows - 1);
      assert rows * (v * w) == (rows - 1) * (v * w) + v * w;
    } else {
      assert RectInside(|buf|, off, stride, w, rows);
    }
  }

  /** A uniform rectangle of value `v` averages to `v`. */
  lemma AverageUniform(buf: seq<byte>, off: nat, stride: nat, w: nat, h: nat, v: byte)
    requires w > 0 && h > 0 && RectInside(|buf|, off, stride, w, h)
    requires Uniform(buf, off, stride, w, h, v)
    ensures Average(buf, off, stride, w, h) == v
  {
    RectSumUniform(buf, off, stride, w, h, h, v);
    var d := w * h;
    assert h * (v * w) == v * d;
    MulDivCancel(v, d);
  }

  /** The loop of `average`: a running sum over the rows, then one integer division. */
  method ComputeAverage(buf: seq<byte>, off: nat, stride: nat, w: nat, h: nat) returns (a: int)
    requires w > 0 && h > 0 && RectInside(|buf|, off, stride, w, h)
    ensures a == Average(buf, off, stride, w, h)
  {
    var sum := 0;
    for y := 0 to h
      invariant RectInside(|buf|, off, stride, w, y)
      invariant sum == RectSum(buf, off, stride, w, y)
    {
      RowInside(|buf|, off, stride, w, h, y);
      ghost var rowStart := off + y * stride;
      for x := 0 to w
        invariant sum == RectSum(buf, off, stride, w, y) + RowSum(buf, rowStart, x)
      {
        sum := sum + buf[off + y * stride + x];
      }
      assert RectInside(|buf|, off, stride, w, y + 1);
    }
    a := sum / (w * h);
  }

  /** Row-major addressing with row length `w` is undone by `/` and `%`. */
  lemma RowMajor(y: nat, x: nat, w: nat)
    requires x < w
    ensures (y * w + x) / w == y && (y * w + x) % w == x
  {
    var i := y * w + x;
    var q, r := i / w, i % w;
    assert i == q * w + r && 0 <= r < w;
    if q < y {
      MulMono(q + 1, y, w);
      assert false;
    }
    if q > y {
      MulMono(y + 1, q, w);
      assert false;
    }
  }

  /** A flat index below `w * h` lies in one of the first `h` rows. */
  lemma RowBelow(i: nat, w: nat, h: nat)
    requires i < w * h
    ensures w > 0 && i / w < h && i % w < w
  {
    DivFloor(i, w, i);
    if i / w >= h {
      MulMono(h, i / w, w);
    }
  }
}
