/**
 * Glyph matching: the shape distance (`distance_diff`), the brightness
 * distance (`distance_avg_diff`) and the arg-min over the eligible glyphs
 * (`find_lowest_distance`) that picks the character printed for one cell.
 */
module Matcher {
  import opened Common
  import opened Raster
  import opened Glyphs

  /** The squared difference of two pixels. */
  function SqDiff(a: byte, b: byte): (r: nat)
    ensures r <= 255 * 255
    ensures r == 0 <==> a == b
  {
    var d := Abs(a - b);
    MulMono(d, 255, d);
    MulMono(d, 255, 255);
    d * d
  }

  /** The squared differences of `n` cell pixels from `cs` against `n` glyph pixels from `ds`. */
  function RowDistance(cell: seq<byte>, cs: nat, data: seq<byte>, ds: nat, n: nat): (s: nat)
    requires cs + n <= |cell| && ds + n <= |data|
    ensures s <= 255 * 255 * n
  {
    if n == 0 then 0 else RowDistance(cell, cs, data, ds, n - 1) + SqDiff(cell[cs + n - 1], data[ds + n - 1])
  }

  /** The shape distance over the first `rows` rows: cell rows are `stride`
      apart from `off`, glyph rows `w` apart from 0. */
  function ShapeDistance(cell: seq<byte>, off: nat, stride: nat, data: seq<byte>, w: nat, rows: nat): nat
    requires RectInside(|cell|, off, stride, w, rows) && RectInside(|data|, 0, w, w, rows)
  {
    if rows == 0 then 0
    else
      RowInside(|cell|, off, stride, w, rows, rows - 1);
      RowInside(|data|, 0, w, w, rows, rows - 1);
      assert RectInside(|cell|, off, stride, w, rows - 1) && RectInside(|data|, 0, w, w, rows - 1) by {
        if rows > 1 {
          RowInside(|cell|, off, stride, w, rows, rows - 2);
          RowInside(|data|, 0, w, w, rows, rows - 2);
        }
      }
      ShapeDistance(cell, off, stride, data, w, rows - 1) +
        RowDistance(cell, RowStart(off, stride, rows - 1), data, RowStart(0, w, rows - 1), w)
  }

  lemma RectShrink(len: nat, off: nat, stride: nat, w: nat, rows: nat)
    requires RectInside(len, off, stride, w, rows) && rows > 0
    ensures RectInside(len, off, stride, w, rows - 1)
    ensures off + (rows - 1) * stride + w <= len
  {
    RowInside(len, off, stride, w, rows, rows - 1);
    if rows > 1 {
      RowInside(len, off, stride, w, rows, rows - 2);
    }
  }

  /** A longer prefix of a row never has a smaller distance. */
  lemma {:induction false} RowDistanceMono(cell: seq<byte>, cs: nat, data: seq<byte>, ds: nat, m: nat, n: nat)
    requires m <= n && cs + n <= |cell| && ds + n <= |data|
    ensures RowDistance(cell, cs, data, ds, m) <= RowDistance(cell, cs, data, ds, n)
    decreases n
  {
    if m < n {
      RowDistanceMono(cell, cs, data, ds, m, n - 1);
    }
  }

  /** More rows never give a smaller distance. */
  lemma {:induction false} ShapeDistanceMono(cell: seq<byte>, off: nat, stride: nat, data: seq<byte>, w: nat, m: nat, n: nat)
    requires m <= n
    requires RectInside(|cell|, off, stride, w, n) && RectInside(|data|, 0, w, w, n)
    requires RectInside(|cell|, off, stride, w, m) && RectInside(|data|, 0, w, w, m)
    ensures ShapeDistance(cell, off, stride, data, w, m) <= ShapeDistance(cell, off, stride, data, w, n)
    decreases n
  {
    if m < n {
      RectShrink(|cell|, off, stride, w, n);
      RectShrink(|data|, 0, w, w, n);
      ShapeDistanceMono(cell, off, stride, data, w, m, n - 1);
    }
  }

  /** The shape distance is at most `255 * 255` per pixel. */
  lemma {:induction false} ShapeDistanceBound(cell: seq<byte>, off: nat, stride: nat, data: seq<byte>, w: nat, rows: nat)
    requires RectInside(|cell|, off, stride, w, rows) && RectInside(|data|, 0, w, w, rows)
    ensures ShapeDistance(cell, off, stride, data, w, rows) <= 255 * 255 * (w * rows)
  {
    if rows > 0 {
      RectShrink(|cell|, off, stride, w, rows);
      RectShrink(|data|, 0, w, w, rows);
      ShapeDistanceBound(cell, off, stride, data, w, rows - 1);
      assert w * rows == w * (rows - 1) + w;
    }
  }

  /** A row has distance 0 exactly when it equals the glyph row. */
  lemma {:induction false} RowDistanceZero(cell: seq<byte>, cs: nat, data: seq<byte>, ds: nat, n: nat)
    requires cs + n <= |cell| && ds + n <= |data|
    ensures RowDistance(cell, cs, data, ds, n) == 0 <==> cell[cs..cs + n] == data[ds..ds + n]
    decreases n
  {
    if n > 0 {
      RowDistanceZero(cell, cs, data, ds, n - 1);
      assert cell[cs..cs + n] == cell[cs..cs + n - 1] + [cell[cs + n - 1]];
      assert data[ds..ds + n] == data[ds..ds + n - 1] + [data[ds + n - 1]];
      if cell[cs..cs + n] == data[ds..ds + n] {
        assert cell[cs..cs + n - 1] == cell[cs..cs + n][..n - 1];
        assert data[ds..ds + n - 1] == data[ds..ds + n][..n - 1];
        assert cell[cs + n - 1] == cell[cs..cs + n][n - 1];
        assert data[ds + n - 1] == data[ds..ds + n][n - 1];
      }
    }
  }

  /** Every one of the first `rows` cell rows equals the glyph's row. */
  predicate SameRows(cell: seq<byte>, off: nat, stride: nat, data: seq<byte>, w: nat, rows: nat)
    requires RectInside(|cell|, off, stride, w, rows) && RectInside(|data|, 0, w, w, rows)
  {
    forall y :: 0 <= y < rows ==> Row(cell, off, stride, w, rows, y) == Row(data, 0, w, w, rows, y)
  }

  lemma SameRowsStep(cell: seq<byte>, off: nat, stride: nat, data: seq<byte>, w: nat, rows: nat)
    requires rows > 0 && RectInside(|cell|, off, stride, w, rows) && RectInside(|data|, 0, w, w, rows)
    ensures RectInside(|cell|, off, stride, w, rows - 1) && RectInside(|data|, 0, w, w, rows - 1)
    ensures SameRows(cell, off, stride, data, w, rows) <==>
      SameRows(cell, off, stride, data, w, rows - 1) &&
      Row(cell, off, stride, w, rows, rows - 1) == Row(data, 0, w, w, rows, rows - 1)
  {
    RectShrink(|cell|, off, stride, w, rows);
    RectShrink(|data|, 0, w, w, rows);
    forall y | 0 <= y < rows - 1
      ensures Row(cell, off, stride, w, rows, y) == Row(cell, off, stride, w, rows - 1, y)
      ensures Row(data, 0, w, w, rows, y) == Row(data, 0, w, w, rows - 1, y)
    {
    }
    if SameRows(cell, off, stride, data, w, rows) {
      var shorter := rows - 1;
      assert Row(cell, off, stride, w, rows, shorter) == Row(data, 0, w, w, rows, shorter);
      forall y | 0 <= y < shorter
        ensures Row(cell, off, stride, w, shorter, y) == Row(data, 0, w, w, shorter, y)
      {
        assert Row(cell, off, stride, w, rows, y) == Row(data, 0, w, w, rows, y);
      }
    }
  }

  /** The last row's share of the shape distance. */
  lemma ShapeDistanceLast(cell: seq<byte>, off: nat, stride: nat, data: seq<byte>, w: nat, last: nat)
    requires RectInside(|cell|, off, stride, w, last + 1) && RectInside(|data|, 0, w, w, last + 1)
    ensures RectInside(|cell|, off, stride, w, last) && RectInside(|data|, 0, w, w, last)
    ensures RowStart(off, stride, last) + w <= |cell| && RowStart(0, w, last) + w <= |data|
    ensures ShapeDistance(cell, off, stride, data, w, last + 1) ==
      ShapeDistance(cell, off, stride, data, w, last) +
      RowDistance(cell, RowStart(off, stride, last), data, RowStart(0, w, last), w)
    ensures Row(cell, off, stride, w, last + 1, last) ==
      cell[RowStart(off, stride, last)..RowStart(off, stride, last) + w]
    ensures Row(data, 0, w, w, last + 1, last) == data[RowStart(0, w, last)..RowStart(0, w, last) + w]
  {
    RectShrink(|cell|, off, stride, w, last + 1);
    RectShrink(|data|, 0, w, w, last + 1);
  }

  /** The shape distance is 0 exactly when every cell row equals the glyph's row. */
  lemma {:induction false} ShapeDistanceZero(cell: seq<byte>, off: nat, stride: nat, data: seq<byte>, w: nat, rows: nat)
    requires RectInside(|cell|, off, stride, w, rows) && RectInside(|data|, 0, w, w, rows)
    ensures ShapeDistance(cell, off, stride, data, w, rows) == 0 <==> SameRows(cell, off, stride, data, w, rows)
  {
    if rows > 0 {
      var last := rows - 1;
      var cs, ds := RowStart(off, stride, last), RowStart(0, w, last);
      ShapeDistanceLast(cell, off, stride, data, w, last);
      SameRowsStep(cell, off, stride, data, w, rows);
      ShapeDistanceZero(cell, off, stride, data, w, last);
      RowDistanceZero(cell, cs, data, ds, w);
      var lastSame := Row(cell, off, stride, w, rows, last) == Row(data, 0, w, w, rows, last);
      assert lastSame <==> RowDistance(cell, cs, data, ds, w) == 0;
      assert SameRows(cell, off, stride, data, w, rows) <==>
        SameRows(cell, off, stride, data, w, last) && lastSame;
    }
  }

  /** `distance_diff`: the running sum of squared differences, row by row,
      which gives up as soon as it exceeds `maxDist`. It returns the full
      shape distance when that is within `maxDist`, and otherwise a partial
      sum above `maxDist` that is at most the full distance. */
  method DistanceDiff(cell: seq<byte>, off: nat, stride: nat, data: seq<byte>, w: nat, h: nat, maxDist: int)
    returns (d: int)
    requires RectInside(|cell|, off, stride, w, h) && RectInside(|data|, 0, w, w, h)
    ensures var full := ShapeDistance(cell, off, stride, data, w, h);
      (full <= maxDist ==> d == full) && (full > maxDist ==> maxDist < d <= full)
  {
    var distance := 0;
    for y := 0 to h
      invariant RectInside(|cell|, off, stride, w, y) && RectInside(|data|, 0, w, w, y)
      invariant distance == ShapeDistance(cell, off, stride, data, w, y)
    {
      RowInside(|cell|, off, stride, w, h, y);
      RowInside(|data|, 0, w, w, h, y);
      ShapeDistanceLast(cell, off, stride, data, w, y);
      var stopped;
      distance, stopped := RowDiff(cell, RowStart(off, stride, y), data, RowStart(0, w, y), w, distance, maxDist);
      if stopped {
        ShapeDistanceMono(cell, off, stride, data, w, y + 1, h);
        return distance;
      }
    }
    return distance;
  }

  /** One row of `distance_diff`'s inner loop, continuing the running sum
      `start`: it stops as soon as the sum exceeds `maxDist`, with a sum above
      `maxDist` and at most the whole row's, and otherwise adds the whole row. */
  method RowDiff(cell: seq<byte>, cs: nat, data: seq<byte>, ds: nat, w: nat, start: int, maxDist: int)
    returns (distance: int, stopped: bool)
    requires cs + w <= |cell| && ds + w <= |data|
    ensures !stopped ==> distance == start + RowDistance(cell, cs, data, ds, w)
    ensures stopped ==> maxDist < distance <= start + RowDistance(cell, cs, data, ds, w)
  {
    distance := start;
    for x := 0 to w
      invariant distance == start + RowDistance(cell, cs, data, ds, x)
    {
      var diff := Abs(cell[cs + x] as int - data[ds + x] as int);
      distance := distance + diff * diff;
      if distance > maxDist {
        RowDistanceMono(cell, cs, data, ds, x + 1, w);
        return distance, true;
      }
    }
    return distance, false;
  }

  /** `distance_avg_diff`'s value: the gap between the glyph's and the cell's
      brightness, weighted by the pixel count. */
  function AvgDistance(glyphAvg: int, cellAvg: int, w: nat, h: nat): (r: nat)
    ensures r == 0 <==> w * h == 0 || glyphAvg == cellAvg
  {
    w * h * Abs(glyphAvg - cellAvg)
  }

  lemma AvgDistanceBound(glyphAvg: int, cellAvg: int, w: nat, h: nat)
    requires 0 <= glyphAvg <= 255 && 0 <= cellAvg <= 255
    ensures AvgDistance(glyphAvg, cellAvg, w, h) <= 255 * (w * h)
  {
    MulMono(Abs(glyphAvg - cellAvg), 255, w * h);
  }

  /** `distance_avg_diff`: one `average` of the cell, compared with the glyph's. */
  method DistanceAvgDiff(g: Glyph, cell: seq<byte>, off: nat, stride: nat, w: nat, h: nat) returns (r: int)
    requires w > 0 && h > 0 && RectInside(|cell|, off, stride, w, h)
    ensures r == AvgDistance(g.avg, Average(cell, off, stride, w, h), w, h)
  {
    var a := ComputeAverage(cell, off, stride, w, h);
    r := w * h * Abs(g.avg - a);
  }

  /** The integer square root: the largest `r` with `r * r <= n`. For a
      natural `n` this is the truncation of `sqrt(n + 0.1)`, since no square
      of an integer lies strictly between `n` and `n + 1`. */
  function Isqrt(n: nat): (r: nat)
    ensures r * r <= n < (r + 1) * (r + 1)
    decreases n
  {
    if n == 0 then 0
    else
      var q := Isqrt(n / 4);
      IsqrtStep(n, q);
      if (2 * q + 1) * (2 * q + 1) <= n then 2 * q + 1 else 2 * q
  }

  lemma IsqrtStep(n: nat, q: nat)
    requires q * q <= n / 4 < (q + 1) * (q + 1)
    ensures (2 * q) * (2 * q) <= n < (2 * q + 2) * (2 * q + 2)
  {
    var m := n / 4;
    assert n == 4 * m + n % 4;
    assert (2 * q) * (2 * q) == 4 * (q * q);
    assert (2 * q + 2) * (2 * q + 2) == 4 * ((q + 1) * (q + 1));
  }

  /** The integer square root is the only number whose square brackets `n`. */
  lemma IsqrtUnique(n: nat, r: nat)
    requires r * r <= n < (r + 1) * (r + 1)
    ensures r == Isqrt(n)
  {
    var s := Isqrt(n);
    if r < s {
      SquareMono(r + 1, s);
    }
    if s < r {
      SquareMono(s + 1, r);
    }
  }

  lemma SquareMono(a: nat, b: nat)
    requires a <= b
    ensures a * a <= b * b
  {
    MulMono(a, b, a);
    MulMono(a, b, b);
  }

  /** The brightness factor is 0 exactly for a zero distance, and at most 180
      for distances up to `128 * 255`. */
  lemma IsqrtFacts(n: nat)
    ensures Isqrt(n) == 0 <==> n == 0
    ensures n <= 128 * 255 ==> Isqrt(n) <= 180
  {
    var r := Isqrt(n);
    if r > 180 {
      SquareMono(181, r);
    }
  }

  lemma GlyphRect(w: nat, h: nat)
    ensures RectInside(w * h, 0, w, w, h)
  {
    if h > 0 {
      assert (h - 1) * w + w == w * h;
    }
  }

  /** The score `find_lowest_distance` gives glyph `g` on the cell: the shape
      distance times the integer square root of the brightness distance, each
      factor replaced by 1 when its bit of `flags` is clear. */
  function Score(g: Glyph, cell: seq<byte>, off: nat, stride: nat, w: nat, h: nat, flags: bv32): nat
    requires w > 0 && h > 0 && |g.data| == w * h && RectInside(|cell|, off, stride, w, h)
  {
    GlyphRect(w, h);
    var shape := if flags & 1 != 0 then ShapeDistance(cell, off, stride, g.data, w, h) else 1;
    var bright := if flags & 2 != 0 then Isqrt(AvgDistance(g.avg, Average(cell, off, stride, w, h), w, h)) else 1;
    shape * bright
  }

  /** With at most 128 pixels per glyph (the 8 by 16 font) a score stays
      below `INT_MAX`: at most `128 * 255 * 255` for the shape and 180 for
      the brightness factor. */
  lemma ScoreBound(g: Glyph, cell: seq<byte>, off: nat, stride: nat, w: nat, h: nat, flags: bv32)
    requires w > 0 && h > 0 && w * h <= 128 && |g.data| == w * h && RectInside(|cell|, off, stride, w, h)
    requires 0 <= g.avg <= 255
    ensures Score(g, cell, off, stride, w, h, flags) < IntMax
  {
    GlyphRect(w, h);
    var shape := if flags & 1 != 0 then ShapeDistance(cell, off, stride, g.data, w, h) else 1;
    var dist := AvgDistance(g.avg, Average(cell, off, stride, w, h), w, h);
    var bright := if flags & 2 != 0 then Isqrt(dist) else 1;
    ShapeDistanceBound(cell, off, stride, g.data, w, h);
    assert w * h == h * w;
    MulMono(w * h, 128, 255 * 255);
    assert shape <= 255 * 255 * 128;
    AvgDistanceBound(g.avg, Average(cell, off, stride, w, h), w, h);
    MulMono(w * h, 128, 255);
    IsqrtFacts(dist);
    assert bright <= 180;
    MulMono(bright, 180, shape);
    MulMono(shape, 255 * 255 * 128, 180);
    assert Score(g, cell, off, stride, w, h, flags) == shape * bright;
  }

  /** Comparing a score against the best so far gives the same answer whether
      the shape factor is the full distance or the partial sum `distance_diff`
      returns when it gives up early; and a score that wins is the full one. */
  lemma EarlyExitHarmless(partial: int, full: nat, bright: nat, best: nat)
    requires full <= best ==> partial == full
    requires full > best ==> best < partial <= full
    ensures partial * bright < best <==> full * bright < best
    ensures partial * bright < best ==> partial * bright == full * bright
  {
    if full > best && bright > 0 {
      MulMono(1, bright, partial);
      MulMono(partial, full, bright);
    }
  }

  /** What `find_lowest_distance` returns for a table: 0 when no glyph is
      eligible, and otherwise an eligible glyph whose score is least, the
      lowest such code when several tie. */
  ghost predicate IsBestMatch(gs: seq<Glyph>, cell: seq<byte>, off: nat, stride: nat, w: nat, h: nat, flags: bv32, c: int)
    requires WellFormed(gs, w, h) && w > 0 && h > 0 && RectInside(|cell|, off, stride, w, h)
  {
    0 <= c < NrChars &&
    if exists j :: 0 <= j < NrChars && gs[j].allowed then
      gs[c].allowed &&
      (forall j :: 0 <= j < NrChars && gs[j].allowed ==>
        Score(gs[c], cell, off, stride, w, h, flags) <= Score(gs[j], cell, off, stride, w, h, flags)) &&
      (forall j :: 0 <= j < c && gs[j].allowed ==>
        Score(gs[c], cell, off, stride, w, h, flags) < Score(gs[j], cell, off, stride, w, h, flags))
    else
      c == 0
  }

  /** The best match is unique. */
  lemma BestMatchUnique(gs: seq<Glyph>, cell: seq<byte>, off: nat, stride: nat, w: nat, h: nat, flags: bv32, c1: int, c2: int)
    requires WellFormed(gs, w, h) && w > 0 && h > 0 && RectInside(|cell|, off, stride, w, h)
    requires IsBestMatch(gs, cell, off, stride, w, h, flags, c1)
    requires IsBestMatch(gs, cell, off, stride, w, h, flags, c2)
    ensures c1 == c2
  {
  }

  /** `find_lowest_distance`: one pass over the codes in order keeping the
      least score so far (starting from `INT_MAX`) and its code, replaced only
      by a strictly smaller score. The shape factor comes from `distance_diff`
      with the least score so far as its limit. */
  method FindLowestDistance(f: Font, cell: seq<byte>, off: nat, stride: nat, flags: bv32) returns (c: int)
    requires f.Valid() && f.width > 0 && f.height > 0 && f.width * f.height <= 128
    requires RectInside(|cell|, off, stride, f.width, f.height)
    ensures IsBestMatch(f.chars[..], cell, off, stride, f.width, f.height, flags, c)
  {
    var w, h := f.width, f.height;
    ghost var gs := f.chars[..];
    GlyphRect(w, h);
    var min := IntMax;
    ghost var found := false;
    c := 0;
    for k := 0 to NrChars
      invariant 0 <= c < NrChars
      invariant found <==> exists j :: 0 <= j < k && gs[j].allowed
      invariant !found ==> c == 0 && min == IntMax
      invariant found ==> c < k && gs[c].allowed && min == Score(gs[c], cell, off, stride, w, h, flags)
      invariant found ==> forall j :: 0 <= j < k && gs[j].allowed ==> min <= Score(gs[j], cell, off, stride, w, h, flags)
      invariant found ==> forall j :: 0 <= j < c && gs[j].allowed ==> min < Score(gs[j], cell, off, stride, w, h, flags)
    {
      var g := f.chars[k];
      assert g == gs[k];
      if g.allowed {
        var fdist, adist := 1, 1;
        if flags & 1 != 0 {
          fdist := DistanceDiff(cell, off, stride, g.data, w, h, min);
        }
        if flags & 2 != 0 {
          var avgDist := DistanceAvgDiff(g, cell, off, stride, w, h);
          adist := Isqrt(avgDist);
        }
        var dist := fdist * adist;
        ghost var full := if flags & 1 != 0 then ShapeDistance(cell, off, stride, g.data, w, h) else 1;
        assert Score(g, cell, off, stride, w, h, flags) == full * adist;
        EarlyExitHarmless(fdist, full, adist, min);
        ScoreBound(g, cell, off, stride, w, h, flags);
        if dist < min {
          min := dist;
          c := k;
        }
        found := true;
      }
    }
  }
}
