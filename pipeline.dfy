/**
 * The per-image part of `main`: the brightness rescale that maps the blurred
 * image onto the eligible glyphs' brightness range, and the walk over the
 * character cells that picks one glyph per cell.
 */
module Pipeline {
  import opened Common
  import opened Raster
  import opened Glyphs
  import opened Matcher

  /** Division by 255 rounds down and keeps the order. */
  lemma DivMono(a: int, b: int)
    requires a <= b
    ensures a / 255 <= b / 255
  {
  }

  /** A quotient by 255 of a value in `[-255 * k, 0]` lies in `[-k, 0]`. */
  lemma NegQuotient(n: int, k: int)
    requires k >= 0 && -255 * k <= n <= 0
    ensures -k <= n / 255 <= 0
  {
    var q := n / 255;
    assert n == q * 255 + n % 255;
  }

  /** One pixel of the rescale: `v * (hi - lo) / 255 + lo`, rounded down. The
      source computes it in floating point and truncates toward zero; the sum
      lies between `lo` and `hi`, so it is never negative, and it is at least
      `1/255` away from the next integer unless it is one, so truncation gives
      the integer floor whichever of `lo` and `hi` is larger. */
  function RescalePixel(v: byte, lo: int, hi: int): (r: byte)
    requires 0 <= lo <= 255 && 0 <= hi <= 255
    ensures lo <= hi ==> lo <= r <= hi
    ensures hi <= lo ==> hi <= r <= lo
  {
    RescaleQuotient(v, lo, hi);
    v * (hi - lo) / 255 + lo
  }

  lemma RescaleQuotient(v: byte, lo: int, hi: int)
    requires 0 <= lo <= 255 && 0 <= hi <= 255
    ensures lo <= hi ==> 0 <= v * (hi - lo) / 255 <= hi - lo
    ensures hi <= lo ==> hi - lo <= v * (hi - lo) / 255 <= 0
  {
    if lo <= hi {
      MulMono(v, 255, hi - lo);
      DivFloor(v * (hi - lo), 255, hi - lo);
    } else {
      MulMono(v, 255, lo - hi);
      assert v * (hi - lo) == -(v * (lo - hi));
      NegQuotient(v * (hi - lo), lo - hi);
    }
  }

  /** Black goes to `lo`, white to `hi`. */
  lemma RescaleEnds(lo: int, hi: int)
    requires 0 <= lo <= 255 && 0 <= hi <= 255
    ensures RescalePixel(0, lo, hi) == lo
    ensures RescalePixel(255, lo, hi) == hi
  {
    assert 255 * (hi - lo) == (hi - lo) * 255;
  }

  /** The rescale keeps the order of brightness when `lo <= hi` and reverses
      it when `hi < lo` (which is what an empty selection leaves behind). */
  lemma RescaleMono(a: byte, b: byte, lo: int, hi: int)
    requires 0 <= lo <= 255 && 0 <= hi <= 255 && a <= b
    ensures lo <= hi ==> RescalePixel(a, lo, hi) <= RescalePixel(b, lo, hi)
    ensures hi <= lo ==> RescalePixel(b, lo, hi) <= RescalePixel(a, lo, hi)
  {
    if lo <= hi {
      MulMono(a, b, hi - lo);
      DivMono(a * (hi - lo), b * (hi - lo));
    } else {
      MulMono(a, b, lo - hi);
      assert a * (hi - lo) == -(a * (lo - hi)) && b * (hi - lo) == -(b * (lo - hi));
      DivMono(b * (hi - lo), a * (hi - lo));
    }
  }

  /** The full range leaves every pixel as it is. */
  lemma RescaleFullRange(v: byte)
    ensures RescalePixel(v, 0, 255) == v
  {
    MulDivCancel(v, 255);
  }

  /** The image after the rescale. */
  function Rescaled(s: seq<byte>, lo: int, hi: int): (r: seq<byte>)
    requires 0 <= lo <= 255 && 0 <= hi <= 255
    ensures |r| == |s|
  {
    seq(|s|, i requires 0 <= i < |s| => RescalePixel(s[i], lo, hi))
  }

  /** The rescale loop of `main`: every byte is rewritten in place, after its
      old value has been folded into the running minimum (from 255) and
      maximum (from 0) that are reported. */
  method Rescale(img: array<byte>, lo: int, hi: int) returns (imgMin: int, imgMax: int)
    requires 0 <= lo <= 255 && 0 <= hi <= 255
    modifies img
    ensures img[..] == Rescaled(old(img[..]), lo, hi)
    ensures forall i :: 0 <= i < img.Length ==> imgMin <= old(img[i]) <= imgMax
    ensures img.Length == 0 ==> imgMin == 255 && imgMax == 0
    ensures img.Length > 0 ==>
      (exists i :: 0 <= i < img.Length && old(img[i]) == imgMin) &&
      (exists i :: 0 <= i < img.Length && old(img[i]) == imgMax)
  {
    ghost var before := img[..];
    imgMin, imgMax := 255, 0;
    for p := 0 to img.Length
      invariant forall i :: 0 <= i < p ==> img[i] == RescalePixel(before[i], lo, hi)
      invariant forall i :: p <= i < img.Length ==> img[i] == before[i]
      invariant forall i :: 0 <= i < p ==> imgMin <= before[i] <= imgMax
      invariant p == 0 ==> imgMin == 255 && imgMax == 0
      invariant p > 0 ==> (exists i :: 0 <= i < p && before[i] == imgMin) && (exists i :: 0 <= i < p && before[i] == imgMax)
    {
      if img[p] < imgMin {
        imgMin := img[p];
      }
      if img[p] > imgMax {
        imgMax := img[p];
      }
      assert p > 0 || (before[p] == imgMin && before[p] == imgMax);
      img[p] := RescalePixel(img[p], lo, hi);
    }
    assert img[..] == Rescaled(before, lo, hi);
  }

  /** Where character cell `(y, x)` starts: `height` image rows per cell row,
      `width` pixels per cell column. */
  function CellOffset(y: nat, x: nat, width: nat, height: nat, pw: nat): nat
  {
    y * height * pw + x * width
  }

  /** Cell row `y` ends at or above image row `ph`. */
  lemma CellRowsFit(y: nat, height: nat, ph: nat)
    requires height > 0 && y < ph / height
    ensures y * height + height <= ph
  {
    DivFloor(ph, height, ph);
    MulMono(y + 1, ph / height, height);
  }

  /** A rectangle of `height` rows of `width` pixels whose top row is image
      row `top` and whose left column is `col` fits inside the image. */
  lemma RectFits(top: nat, col: nat, width: nat, height: nat, pw: nat, ph: nat)
    requires height > 0 && top + height <= ph && col + width <= pw
    ensures RectInside(pw * ph, top * pw + col, pw, width, height)
  {
    assert (top + height - 1) * pw + pw == (top + height) * pw;
    assert top * pw + (height - 1) * pw == (top + height - 1) * pw;
    MulMono(top + height, ph, pw);
    assert pw * ph == ph * pw;
  }

  /** Every cell of the `ph / height` by `w` grid lies inside the `pw` by `ph`
      image when `pw = w * width`. */
  lemma CellInside(y: nat, x: nat, w: nat, width: nat, height: nat, pw: nat, ph: nat)
    requires width > 0 && height > 0 && pw == w * width
    requires y < ph / height && x < w
    ensures RectInside(pw * ph, CellOffset(y, x, width, height, pw), pw, width, height)
  {
    CellRowsFit(y, height, ph);
    MulMono(x + 1, w, width);
    assert x * width + width == (x + 1) * width;
    RectFits(y * height, x * width, width, height, pw, ph);
  }

  /** Cell `(y, x)` of the image shows the glyph `code`: the one
      `find_lowest_distance` chooses for that cell. */
  ghost predicate CellMatch(gs: seq<Glyph>, img: seq<byte>, pw: nat, ph: nat, w: nat, width: nat, height: nat,
                            flags: bv32, y: nat, x: nat, code: int)
    requires WellFormed(gs, width, height) && width > 0 && height > 0
    requires pw == w * width && |img| == pw * ph && y < ph / height && x < w
  {
    CellInside(y, x, w, width, height, pw, ph);
    IsBestMatch(gs, img, CellOffset(y, x, width, height, pw), pw, width, height, flags, code)
  }

  /** The cell loops of `main`: `ph / height` rows of `w` cells, each printed
      as the `num` of the glyph chosen for it. */
  method MatchCells(f: Font, img: seq<byte>, pw: nat, ph: nat, w: nat, flags: bv32) returns (grid: seq<seq<byte>>)
    requires f.Valid() && f.width > 0 && f.height > 0 && f.width * f.height <= 128
    requires pw == w * f.width && |img| == pw * ph
    ensures |grid| == ph / f.height
    ensures forall y :: 0 <= y < |grid| ==> |grid[y]| == w
    ensures forall y, x :: 0 <= y < |grid| && 0 <= x < w ==>
      CellMatch(f.chars[..], img, pw, ph, w, f.width, f.height, flags, y, x, grid[y][x])
  {
    var h := ph / f.height;
    grid := [];
    for y := 0 to h
      invariant |grid| == y
      invariant forall j :: 0 <= j < y ==> |grid[j]| == w
      invariant forall j, x :: 0 <= j < y && 0 <= x < w ==>
        CellMatch(f.chars[..], img, pw, ph, w, f.width, f.height, flags, j, x, grid[j][x])
    {
      var line := [];
      for x := 0 to w
        invariant |line| == x
        invariant forall i :: 0 <= i < x ==> CellMatch(f.chars[..], img, pw, ph, w, f.width, f.height, flags, y, i, line[i])
      {
        CellInside(y, x, w, f.width, f.height, pw, ph);
        var c := FindLowestDistance(f, img, CellOffset(y, x, f.width, f.height, pw), pw, flags);
        assert f.chars[c].num == c;
        line := line + [f.chars[c].num];
      }
      grid := grid + [line];
    }
  }

  /** The rest of `main` after the font is ready and the image is loaded and
      blurred: the optional rescale onto `[f.min, f.max]`, then the cells. */
  method Render(f: Font, img: array<byte>, ph: nat, w: nat, normalize: bool, flags: bv32)
    returns (grid: seq<seq<byte>>)
    requires f.Valid() && f.width > 0 && f.height > 0 && f.width * f.height <= 128
    requires img.Length == w * f.width * ph
    requires normalize ==> 0 <= f.min <= 255 && 0 <= f.max <= 255
    modifies img
    ensures img[..] == if normalize then Rescaled(old(img[..]), f.min, f.max) else old(img[..])
    ensures |grid| == ph / f.height
    ensures forall y :: 0 <= y < |grid| ==> |grid[y]| == w
    ensures forall y, x :: 0 <= y < |grid| && 0 <= x < w ==>
      CellMatch(f.chars[..], img[..], w * f.width, ph, w, f.width, f.height, flags, y, x, grid[y][x])
  {
    if normalize {
      var imgMin, imgMax := Rescale(img, f.min, f.max);
    }
    grid := MatchCells(f, img[..], w * f.width, ph, w, flags);
  }
}
