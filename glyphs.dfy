/**
 * The glyph table (`font_t`): 256 glyphs cut from a 16 by 16 font sheet, their
 * eligibility flags and the brightness range of the eligible ones.
 */
module Glyphs {
  import opened Common
  import opened Raster

  /** `nr_chars`: one glyph per code-page character. */
  const NrChars: nat := 256

  /** `font_char_t`: the code, the eligibility flag, the mean brightness of the
      binarised glyph and its (smoothed) pixels. */
  datatype Glyph = Glyph(num: byte, allowed: bool, avg: int, data: seq<byte>)

  /** The shape every glyph table has once loaded: glyph `c` carries code `c`,
      a full cell of pixels and a brightness in 0..255. */
  ghost predicate WellFormed(gs: seq<Glyph>, width: nat, height: nat)
  {
    |gs| == NrChars &&
    forall c :: 0 <= c < |gs| ==>
      gs[c].num == c && |gs[c].data| == width * height && 0 <= gs[c].avg <= 255
  }

  /** The table with the flag of code `c` set to `allowed`. */
  function SetOne(gs: seq<Glyph>, c: int, allowed: bool): (r: seq<Glyph>)
    requires 0 <= c < |gs|
    ensures |r| == |gs|
    ensures forall i :: 0 <= i < |r| ==>
      r[i].allowed == (if i == c then allowed else gs[i].allowed) &&
      r[i] == gs[i].(allowed := r[i].allowed)
  {
    gs[c := gs[c].(allowed := allowed)]
  }

  /** The table with the flags of codes `lo..hi` (inclusive) set to `allowed`. */
  function SetRange(gs: seq<Glyph>, lo: int, hi: int, allowed: bool): (r: seq<Glyph>)
    ensures |r| == |gs|
    ensures forall i :: 0 <= i < |r| ==>
      r[i].allowed == (if lo <= i <= hi then allowed else gs[i].allowed) &&
      r[i] == gs[i].(allowed := r[i].allowed)
  {
    seq(|gs|, i requires 0 <= i < |gs| => if lo <= i <= hi then gs[i].(allowed := allowed) else gs[i])
  }

  lemma SetFlagsKeepShape(gs: seq<Glyph>, r: seq<Glyph>, width: nat, height: nat)
    requires WellFormed(gs, width, height) && |r| == |gs|
    requires forall i :: 0 <= i < |r| ==> r[i] == gs[i].(allowed := r[i].allowed)
    ensures WellFormed(r, width, height)
  {
  }

  /** `font_t`. The table of glyph pointers becomes an array of glyph values;
      `min` and `max` are what `font_normalize` last computed. */
  class Font {
    const width: nat
    const height: nat
    var min: int
    var max: int
    const chars: array<Glyph>

    ghost predicate Valid()
      reads this, chars
    {
      chars.Length == NrChars && WellFormed(chars[..], width, height)
    }

    /** The zero-filled `font_t` that `font_load` allocates: 256 placeholder
        glyphs (code 0, no pixels), so it is not yet `Valid()`; `FontLoad`
        stores the real glyphs and only then is the font valid. */
    constructor (width: nat, height: nat)
      ensures this.width == width && this.height == height
      ensures min == 0 && max == 0
      ensures fresh(chars) && chars.Length == NrChars
    {
      this.width := width;
      this.height := height;
      min, max := 0, 0;
      chars := new Glyph[NrChars](_ => Glyph(0, false, 0, []));
    }

    /** `font_set_allowed` */
    method SetAllowed(nr: int, allowed: bool)
      requires Valid() && 0 <= nr < NrChars
      modifies chars
      ensures Valid()
      ensures chars[..] == SetOne(old(chars[..]), nr, allowed)
    {
      chars[nr] := chars[nr].(allowed := allowed);
      SetFlagsKeepShape(old(chars[..]), chars[..], width, height);
    }

    /** `font_set_allowed_range`: codes `start..end`, both included; nothing when `start > end`. */
    method SetAllowedRange(start: int, end: int, allowed: bool)
      requires Valid() && 0 <= start && end < NrChars
      modifies chars
      ensures Valid()
      ensures chars[..] == SetRange(old(chars[..]), start, end, allowed)
    {
      var c := start;
      while c <= end
        invariant start <= c <= if start <= end then end + 1 else start
        invariant chars[..] == SetRange(old(chars[..]), start, c - 1, allowed)
      {
        chars[c] := chars[c].(allowed := allowed);
        c := c + 1;
      }
      ghost var done, want := SetRange(old(chars[..]), start, c - 1, allowed), SetRange(old(chars[..]), start, end, allowed);
      assert forall i :: 0 <= i < |done| ==> done[i] == want[i];
      assert done == want;
      SetFlagsKeepShape(old(chars[..]), chars[..], width, height);
    }

    /** `font_normalize`: `min` and `max` become the lowest and highest brightness
        among the eligible glyphs, and stay 255 and 0 when no glyph is eligible. */
    method Normalize()
      requires Valid()
      modifies this
      ensures Valid() && chars[..] == old(chars[..])
      ensures forall c :: 0 <= c < NrChars && chars[c].allowed ==> min <= chars[c].avg <= max
      ensures (exists c :: 0 <= c < NrChars && chars[c].allowed) ==>
        (exists c :: 0 <= c < NrChars && chars[c].allowed && chars[c].avg == min) &&
        (exists c :: 0 <= c < NrChars && chars[c].allowed && chars[c].avg == max)
      ensures (forall c :: 0 <= c < NrChars ==> !chars[c].allowed) ==> min == 255 && max == 0
      ensures 0 <= min <= 255 && 0 <= max <= 255
    {
      max := 0;
      min := 255;
      for c := 0 to NrChars
        invariant forall i :: 0 <= i < c && chars[i].allowed ==> min <= chars[i].avg <= max
        invariant (exists i :: 0 <= i < c && chars[i].allowed) ==>
          (exists i :: 0 <= i < c && chars[i].allowed && chars[i].avg == min) &&
          (exists i :: 0 <= i < c && chars[i].allowed && chars[i].avg == max)
        invariant (forall i :: 0 <= i < c ==> !chars[i].allowed) ==> min == 255 && max == 0
        invariant 0 <= min <= 255 && 0 <= max <= 255
      {
        if chars[c].allowed && chars[c].avg > max {
          max := chars[c].avg;
        }
        if chars[c].allowed && chars[c].avg < min {
          min := chars[c].avg;
        }
      }
    }
  }
}
