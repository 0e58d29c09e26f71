/**
 * The integer part of `font_load`: cutting the 256 glyphs out of the font
 * sheet, binarising them and measuring their brightness before smoothing.
 */
module FontLoader {
  import opened Common
  import opened Raster
  import opened Glyphs

  /** The sheet does not have the 16 by 16 cell geometry (or is not single-channel). */
  datatype LoadError = FormatMismatch

  /** Where pixel `(x, y)` of glyph `c` lies in a sheet of 16 by 16 cells of
      `w` by `h` pixels: cell row `c / 16`, cell column `c % 16`. */
  function SheetIndex(c: nat, x: nat, y: nat, w: nat, h: nat): (i: nat)
    requires c < NrChars && x < w && y < h
    ensures i < NrChars * w * h
  {
    CellBound(c, x, y, w, h);
    SheetBound((c / 16) * h + y, (c % 16) * w + x, w, h);
    ((c / 16) * h + y) * (16 * w) + (c % 16) * w + x
  }

  lemma SheetBound(row: nat, col: nat, w: nat, h: nat)
    requires row < 16 * h && col < 16 * w
    ensures row * (16 * w) + col < NrChars * w * h
  {
    MulMono(row + 1, 16 * h, 16 * w);
    assert (row + 1) * (16 * w) == row * (16 * w) + 16 * w;
    assert 16 * h * (16 * w) == NrChars * w * h;
  }

  lemma CellBound(c: nat, x: nat, y: nat, w: nat, h: nat)
    requires c < NrChars && x < w && y < h
    ensures (c / 16) * h + y < 16 * h && (c % 16) * w + x < 16 * w
  {
    MulMono(c / 16, 15, h);
    MulMono(c % 16, 15, w);
  }

  /** The sheet position of glyph pixel `(x, y)` is sheet row `(c / 16) * h + y`
      and sheet column `(c % 16) * w + x` of a sheet `16 * w` pixels wide. */
  lemma SheetIndexCell(c: nat, x: nat, y: nat, w: nat, h: nat)
    requires c < NrChars && x < w && y < h
    ensures SheetIndex(c, x, y, w, h) / (16 * w) == (c / 16) * h + y
    ensures SheetIndex(c, x, y, w, h) % (16 * w) == (c % 16) * w + x
  {
    MulMono(c % 16, 15, w);
    RowMajor((c / 16) * h + y, (c % 16) * w + x, 16 * w);
  }

  /** One sheet sample as a glyph pixel: `inv` for a non-zero sample and
      `~inv` (truncated to a byte) for a zero one, where `inv` is 0 when the
      font is inverted and 255 otherwise. */
  function Binarize(p: byte, invert: bool): (r: byte)
    ensures r == (if (p != 0) != invert then 255 else 0)
  {
    var inv := if invert then 0 else 255;
    if p != 0 then inv else ToByte(BitNot(inv))
  }

  /** Glyph `c` as cut from the sheet and binarised, row by row. */
  function RawGlyph(sheet: seq<byte>, invert: bool, w: nat, h: nat, c: nat): (r: seq<byte>)
    requires c < NrChars && |sheet| == NrChars * w * h
    ensures |r| == w * h
  {
    seq(w * h, i requires 0 <= i < w * h =>
      RowBelow(i, w, h);
      Binarize(sheet[SheetIndex(c, i % w, i / w, w, h)], invert))
  }

  lemma RawGlyphPixel(sheet: seq<byte>, invert: bool, w: nat, h: nat, c: nat, x: nat, y: nat)
    requires c < NrChars && |sheet| == NrChars * w * h && x < w && y < h
    ensures y * w + x < w * h
    ensures RawGlyph(sheet, invert, w, h, c)[y * w + x] == Binarize(sheet[SheetIndex(c, x, y, w, h)], invert)
  {
    MulMono(y + 1, h, w);
    RowMajor(y, x, w);
  }

  /** The glyph `font_load` stores for code `c`: not eligible, the brightness of
      the binarised cell, and the binarised cell passed through the blur. */
  function LoadedGlyph(sheet: seq<byte>, invert: bool, w: nat, h: nat, blur: seq<byte> -> seq<byte>, c: nat): Glyph
    requires c < NrChars && |sheet| == NrChars * w * h && w > 0 && h > 0
  {
    var raw := RawGlyph(sheet, invert, w, h, c);
    assert RectInside(|raw|, 0, w, w, h) by { assert (h - 1) * w + w == w * h; }
    Glyph(c, false, Average(raw, 0, w, w, h), blur(raw))
  }

  /** The inner loops of `font_load` for glyph `c`: every pixel of its cell,
      row by row, binarised into a zero-filled buffer. */
  method ExtractGlyph(sheet: seq<byte>, invert: bool, w: nat, h: nat, c: nat) returns (pixels: seq<byte>)
    requires c < NrChars && |sheet| == NrChars * w * h
    ensures pixels == RawGlyph(sheet, invert, w, h, c)
  {
    ghost var raw := RawGlyph(sheet, invert, w, h, c);
    var inv: byte := if invert then 0 else 255;
    var data := new byte[w * h];
    for y := 0 to h
      invariant forall i :: 0 <= i < y * w ==> data[i] == raw[i]
    {
      ghost var rowStart := y * w;
      assert (y + 1) * w == rowStart + w;
      for x := 0 to w
        invariant forall i :: 0 <= i < rowStart + x ==> data[i] == raw[i]
      {
        RawGlyphPixel(sheet, invert, w, h, c, x, y);
        var p := sheet[SheetIndex(c, x, y, w, h)];
        data[y * w + x] := if p != 0 then inv else ToByte(BitNot(inv));
      }
    }
    assert h * w == w * h;
    assert forall i :: 0 <= i < w * h ==> data[..][i] == raw[i];
    pixels := data[..];
  }

  /** `font_load` given the decoded sheet (`sheetW` by `sheetH` samples with `bpp`
      channels) and the blur that smooths each glyph. Its `assert`s become the
      failure result. */
  method FontLoad(sheet: seq<byte>, sheetW: nat, sheetH: nat, bpp: int, invert: bool,
                  fontW: nat, fontH: nat, blur: seq<byte> -> seq<byte>)
    returns (r: Result<Font, LoadError>)
    requires |sheet| == sheetW * sheetH
    requires fontW > 0 && fontH > 0
    requires forall s: seq<byte> :: |blur(s)| == |s|
    ensures r.Failure? <==> sheetW != 16 * fontW || sheetH != 16 * fontH || bpp != 1
    ensures r.Success? ==>
      fresh(r.value) && fresh(r.value.chars) && r.value.Valid() &&
      r.value.width == fontW && r.value.height == fontH &&
      r.value.min == 0 && r.value.max == 0
    ensures r.Success? ==>
      (|sheet| == NrChars * fontW * fontH &&
       forall c :: 0 <= c < NrChars ==> r.value.chars[c] == LoadedGlyph(sheet, invert, fontW, fontH, blur, c))
  {
    if sheetW != 16 * fontW || sheetH != 16 * fontH || bpp != 1 {
      return Failure(FormatMismatch);
    }
    assert |sheet| == NrChars * fontW * fontH;
    assert (fontH - 1) * fontW + fontW == fontW * fontH;
    var font := new Font(fontW, fontH);
    for c := 0 to NrChars
      modifies font.chars
      invariant forall i :: 0 <= i < c ==> font.chars[i] == LoadedGlyph(sheet, invert, fontW, fontH, blur, i)
    {
      var data := ExtractGlyph(sheet, invert, fontW, fontH, c);
      var avg := ComputeAverage(data, 0, fontW, fontW, fontH);
      font.chars[c] := Glyph(c, false, avg, blur(data));
    }
    assert WellFormed(font.chars[..], fontW, fontH);
    return Success(font);
  }
}
