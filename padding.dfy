/**
 * The padding phase of `gb_blur`: a zero-filled copy of the image with a
 * border of `r` pixels on every side, whose border is then filled in five
 * passes (image rows, top rows, "bottom" rows, left columns, "right" columns).
 * The padded buffer has `h + 2r` rows of `w + 2r` pixels; it is held here as a
 * two-dimensional array whose element `[Y, X]` is the flat buffer's byte at
 * `Y * (w + 2r) + X`.
 *
 * The bottom pass writes `r` rows from row `bottom` and the right pass `r`
 * columns from column `right`, copying column `right - 1`. The source uses
 * `bottom = h` and `right = w`, which overwrites the last `r` image rows and
 * columns and leaves the real bottom and right borders zero; `bottom = h + r`
 * and `right = w + r` give the edge replication the blur evidently expects.
 */
module Padding {
  import opened Common
  import opened Raster

  /** The image the padding reads: `w` by `h` pixels, rows `pw` apart. */
  predicate SourceOk(src: seq<byte>, pw: nat, w: nat, h: nat)
  {
    w > 0 && h > 0 && RectInside(|src|, 0, pw, w, h)
  }

  /** Pixel `(y, x)` of the image. */
  function Src(src: seq<byte>, pw: nat, w: nat, h: nat, y: nat, x: nat): byte
    requires SourceOk(src, pw, w, h) && y < h && x < w
  {
    RowInside(|src|, 0, pw, w, h, y);
    src[RowStart(0, pw, y) + x]
  }

  /** After the first pass: image row `y` copied to padded row `y + r`, from column `r`. */
  function Copied(src: seq<byte>, pw: nat, w: nat, h: nat, r: nat, Y: nat, X: nat): byte
    requires SourceOk(src, pw, w, h)
  {
    if r <= Y < h + r && r <= X < r + w then Src(src, pw, w, h, Y - r, X - r) else 0
  }

  /** After the second pass: padded rows `0..r-1` hold image row 0. */
  function TopExtended(src: seq<byte>, pw: nat, w: nat, h: nat, r: nat, Y: nat, X: nat): byte
    requires SourceOk(src, pw, w, h)
  {
    if Y < r && r <= X < r + w then Src(src, pw, w, h, 0, X - r) else Copied(src, pw, w, h, r, Y, X)
  }

  /** After the third pass: padded rows `bottom..bottom+r-1` hold image row `h - 1`. */
  function BottomExtended(src: seq<byte>, pw: nat, w: nat, h: nat, r: nat, bottom: nat, Y: nat, X: nat): byte
    requires SourceOk(src, pw, w, h)
  {
    if bottom <= Y < bottom + r && r <= X < r + w then Src(src, pw, w, h, h - 1, X - r)
    else TopExtended(src, pw, w, h, r, Y, X)
  }

  /** After the fourth pass: padded columns `0..r-1` repeat padded column `r`. */
  function LeftExtended(src: seq<byte>, pw: nat, w: nat, h: nat, r: nat, bottom: nat, Y: nat, X: nat): byte
    requires SourceOk(src, pw, w, h)
  {
    if X < r then BottomExtended(src, pw, w, h, r, bottom, Y, r) else BottomExtended(src, pw, w, h, r, bottom, Y, X)
  }

  /** After the fifth pass: padded columns `right..right+r-1` repeat padded
      column `right - 1`. */
  function Padded(src: seq<byte>, pw: nat, w: nat, h: nat, r: nat, bottom: nat, right: nat, Y: nat, X: nat): byte
    requires SourceOk(src, pw, w, h) && right > 0
  {
    if right <= X < right + r then LeftExtended(src, pw, w, h, r, bottom, Y, right - 1)
    else LeftExtended(src, pw, w, h, r, bottom, Y, X)
  }

  /** Index `i` moved into `0..n-1`. */
  function Clamped(i: int, n: nat): (c: nat)
    requires n > 0
    ensures c < n
  {
    if i < 0 then 0 else if i >= n then n - 1 else i
  }

  /** Edge replication: padded pixel `(Y, X)` shows the image pixel nearest
      to `(Y - r, X - r)`. */
  function Replicated(src: seq<byte>, pw: nat, w: nat, h: nat, r: nat, Y: nat, X: nat): byte
    requires SourceOk(src, pw, w, h)
  {
    Src(src, pw, w, h, Clamped(Y - r, h), Clamped(X - r, w))
  }

  /** The image row a padded row shows when `h >= r`. */
  function SourceRow(h: nat, r: nat, Y: nat): nat
    requires h > 0
  {
    if Y < r then 0 else if Y < h then Y - r else h - 1
  }

  /** The image column a padded column shows when `w > r`. */
  function SourceColumn(w: nat, r: nat, X: nat): nat
    requires w > r
  {
    if X < r then 0 else if X < w then X - r else w - 1 - r
  }

  /** The padded buffer region by region, for an image at least `r` rows
      high and more than `r` columns wide: rows from `h + r` and columns from
      `w + r` stay zero; elsewhere padded rows `0..r-1` show image row 0, rows
      `r..h-1` image row `Y - r` and rows `h..h+r-1` image row `h - 1`, while
      columns `0..r-1` show image column 0, columns `r..w-1` image column
      `X - r` and columns `w..w+r-1` image column `w - 1 - r`. The last `r`
      image rows and columns do not appear at all. */
  lemma PaddingRegions(src: seq<byte>, pw: nat, w: nat, h: nat, r: nat, Y: nat, X: nat)
    requires SourceOk(src, pw, w, h) && h >= r && w > r
    requires Y < h + 2 * r && X < w + 2 * r
    ensures Padded(src, pw, w, h, r, h, w, Y, X) ==
      if Y >= h + r || X >= w + r then 0
      else Src(src, pw, w, h, SourceRow(h, r, Y), SourceColumn(w, r, X))
  {
  }

  /** The source's padding is not edge replication: whatever the radius, the
      bottom-right corner of the padded buffer stays zero, so an image whose
      bottom-right pixel is not black is padded with black there. */
  lemma CornerNotReplicated(src: seq<byte>, pw: nat, w: nat, h: nat, r: nat)
    requires SourceOk(src, pw, w, h) && r > 0
    requires Src(src, pw, w, h, h - 1, w - 1) != 0
    ensures Padded(src, pw, w, h, r, h, w, h + 2 * r - 1, w + 2 * r - 1) == 0
    ensures Replicated(src, pw, w, h, r, h + 2 * r - 1, w + 2 * r - 1) != 0
  {
  }

  /** With the bottom pass from row `h + r` and the right pass from column
      `w + r`, the five passes replicate the image's edges into every border
      pixel, for any image size and radius. */
  lemma CorrectedIsReplicated(src: seq<byte>, pw: nat, w: nat, h: nat, r: nat, Y: nat, X: nat)
    requires SourceOk(src, pw, w, h)
    requires Y < h + 2 * r && X < w + 2 * r
    ensures Padded(src, pw, w, h, r, h + r, w + r, Y, X) == Replicated(src, pw, w, h, r, Y, X)
  {
  }

  /** The first pass: image row `y` goes to padded row `y + r`, from column `r`. */
  method CopyImage(t: array2<byte>, src: seq<byte>, pw: nat, w: nat, h: nat, r: nat)
    requires SourceOk(src, pw, w, h) && t.Length0 == h + 2 * r && t.Length1 == w + 2 * r
    requires forall Y, X :: 0 <= Y < t.Length0 && 0 <= X < t.Length1 ==> t[Y, X] == 0
    modifies t
    ensures forall Y, X :: 0 <= Y < t.Length0 && 0 <= X < t.Length1 ==> t[Y, X] == Copied(src, pw, w, h, r, Y, X)
  {
    for y := 0 to h
      invariant forall Y, X :: 0 <= Y < t.Length0 && 0 <= X < t.Length1 ==>
        t[Y, X] == if Y < y + r then Copied(src, pw, w, h, r, Y, X) else 0
    {
      RowInside(|src|, 0, pw, w, h, y);
      var start := RowStart(0, pw, y);
      for x := 0 to w
        invariant forall Y, X :: 0 <= Y < t.Length0 && 0 <= X < t.Length1 ==>
          t[Y, X] == if Y < y + r || (Y == y + r && r <= X < r + x) then Copied(src, pw, w, h, r, Y, X) else 0
      {
        t[y + r, r + x] := src[start + x];
      }
    }
  }

  /** The second pass: padded rows `0..r-1` get image row 0, from column `r`. */
  method ExtendTop(t: array2<byte>, src: seq<byte>, pw: nat, w: nat, h: nat, r: nat)
    requires SourceOk(src, pw, w, h) && t.Length0 == h + 2 * r && t.Length1 == w + 2 * r
    requires forall Y, X :: 0 <= Y < t.Length0 && 0 <= X < t.Length1 ==> t[Y, X] == Copied(src, pw, w, h, r, Y, X)
    modifies t
    ensures forall Y, X :: 0 <= Y < t.Length0 && 0 <= X < t.Length1 ==> t[Y, X] == TopExtended(src, pw, w, h, r, Y, X)
  {
    RowInside(|src|, 0, pw, w, h, 0);
    for y := 0 to r
      invariant forall Y, X :: 0 <= Y < t.Length0 && 0 <= X < t.Length1 ==>
        t[Y, X] == if Y < y then TopExtended(src, pw, w, h, r, Y, X) else Copied(src, pw, w, h, r, Y, X)
    {
      for x := 0 to w
        invariant forall Y, X :: 0 <= Y < t.Length0 && 0 <= X < t.Length1 ==>
          t[Y, X] == if Y < y || (Y == y && r <= X < r + x) then TopExtended(src, pw, w, h, r, Y, X)
            else Copied(src, pw, w, h, r, Y, X)
      {
        t[y, r + x] := src[x];
      }
    }
  }

  /** The third pass: padded rows `bottom..bottom+r-1` get image row `h - 1`, from column `r`. */
  method ExtendBottom(t: array2<byte>, src: seq<byte>, pw: nat, w: nat, h: nat, r: nat, bottom: nat)
    requires SourceOk(src, pw, w, h) && t.Length0 == h + 2 * r && t.Length1 == w + 2 * r && bottom <= h + r
    requires forall Y, X :: 0 <= Y < t.Length0 && 0 <= X < t.Length1 ==> t[Y, X] == TopExtended(src, pw, w, h, r, Y, X)
    modifies t
    ensures forall Y, X :: 0 <= Y < t.Length0 && 0 <= X < t.Length1 ==> t[Y, X] == BottomExtended(src, pw, w, h, r, bottom, Y, X)
  {
    RowInside(|src|, 0, pw, w, h, h - 1);
    var start := RowStart(0, pw, h - 1);
    for y := bottom to bottom + r
      invariant forall Y, X :: 0 <= Y < t.Length0 && 0 <= X < t.Length1 ==>
        t[Y, X] == if bottom <= Y < y then BottomExtended(src, pw, w, h, r, bottom, Y, X) else TopExtended(src, pw, w, h, r, Y, X)
    {
      for x := 0 to w
        invariant forall Y, X :: 0 <= Y < t.Length0 && 0 <= X < t.Length1 ==>
          t[Y, X] == if bottom <= Y < y || (Y == y && r <= X < r + x) then BottomExtended(src, pw, w, h, r, bottom, Y, X)
            else TopExtended(src, pw, w, h, r, Y, X)
      {
        t[y, r + x] := src[start + x];
      }
    }
  }

  /** The fourth pass: column by column, padded columns `0..r-1` copy padded column `r`. */
  method ExtendLeft(t: array2<byte>, src: seq<byte>, pw: nat, w: nat, h: nat, r: nat, bottom: nat)
    requires SourceOk(src, pw, w, h) && t.Length0 == h + 2 * r && t.Length1 == w + 2 * r
    requires forall Y, X :: 0 <= Y < t.Length0 && 0 <= X < t.Length1 ==> t[Y, X] == BottomExtended(src, pw, w, h, r, bottom, Y, X)
    modifies t
    ensures forall Y, X :: 0 <= Y < t.Length0 && 0 <= X < t.Length1 ==> t[Y, X] == LeftExtended(src, pw, w, h, r, bottom, Y, X)
  {
    for x := 0 to r
      invariant forall Y, X :: 0 <= Y < t.Length0 && 0 <= X < t.Length1 ==>
        t[Y, X] == if X < x then LeftExtended(src, pw, w, h, r, bottom, Y, X) else BottomExtended(src, pw, w, h, r, bottom, Y, X)
    {
      for y := 0 to h + 2 * r
        invariant forall Y, X :: 0 <= Y < t.Length0 && 0 <= X < t.Length1 ==>
          t[Y, X] == if X < x || (X == x && Y < y) then LeftExtended(src, pw, w, h, r, bottom, Y, X)
            else BottomExtended(src, pw, w, h, r, bottom, Y, X)
      {
        t[y, x] := t[y, r];
      }
    }
  }

  /** The fifth pass: column by column, padded columns `right..right+r-1` copy padded column `right - 1`. */
  method ExtendRight(t: array2<byte>, src: seq<byte>, pw: nat, w: nat, h: nat, r: nat, bottom: nat, right: nat)
    requires SourceOk(src, pw, w, h) && t.Length0 == h + 2 * r && t.Length1 == w + 2 * r
    requires 0 < right <= w + r
    requires forall Y, X :: 0 <= Y < t.Length0 && 0 <= X < t.Length1 ==> t[Y, X] == LeftExtended(src, pw, w, h, r, bottom, Y, X)
    modifies t
    ensures forall Y, X :: 0 <= Y < t.Length0 && 0 <= X < t.Length1 ==> t[Y, X] == Padded(src, pw, w, h, r, bottom, right, Y, X)
  {
    for x := right to right + r
      invariant forall Y, X :: 0 <= Y < t.Length0 && 0 <= X < t.Length1 ==>
        t[Y, X] == if right <= X < x then Padded(src, pw, w, h, r, bottom, right, Y, X) else LeftExtended(src, pw, w, h, r, bottom, Y, X)
    {
      for y := 0 to h + 2 * r
        invariant forall Y, X :: 0 <= Y < t.Length0 && 0 <= X < t.Length1 ==>
          t[Y, X] == if right <= X < x || (X == x && Y < y) then Padded(src, pw, w, h, r, bottom, right, Y, X)
            else LeftExtended(src, pw, w, h, r, bottom, Y, X)
      {
        t[y, x] := t[y, right - 1];
      }
    }
  }

  /** The five passes over a zero-filled buffer of `h + 2r` rows of `w + 2r` bytes. */
  method Pad(src: seq<byte>, pw: nat, w: nat, h: nat, r: nat, bottom: nat, right: nat) returns (t: array2<byte>)
    requires SourceOk(src, pw, w, h) && bottom <= h + r && 0 < right <= w + r
    ensures fresh(t) && t.Length0 == h + 2 * r && t.Length1 == w + 2 * r
    ensures forall Y, X :: 0 <= Y < t.Length0 && 0 <= X < t.Length1 ==> t[Y, X] == Padded(src, pw, w, h, r, bottom, right, Y, X)
  {
    t := new byte[h + 2 * r, w + 2 * r]((Y, X) => 0);
    CopyImage(t, src, pw, w, h, r);
    ExtendTop(t, src, pw, w, h, r);
    ExtendBottom(t, src, pw, w, h, r, bottom);
    ExtendLeft(t, src, pw, w, h, r, bottom);
    ExtendRight(t, src, pw, w, h, r, bottom, right);
  }

  /** The padding phase of `gb_blur` as written: the bottom pass from row `h`
      and the right pass from column `w`. */
  method PadForBlur(src: seq<byte>, pw: nat, w: nat, h: nat, r: nat) returns (t: array2<byte>)
    requires SourceOk(src, pw, w, h)
    ensures fresh(t) && t.Length0 == h + 2 * r && t.Length1 == w + 2 * r
    ensures forall Y, X :: 0 <= Y < t.Length0 && 0 <= X < t.Length1 ==> t[Y, X] == Padded(src, pw, w, h, r, h, w, Y, X)
  {
    t := Pad(src, pw, w, h, r, h, w);
  }

  /** The padding as intended: the bottom pass from row `h + r` and the right
      pass from column `w + r`, which replicates the image's edges. */
  method PadReplicated(src: seq<byte>, pw: nat, w: nat, h: nat, r: nat) returns (t: array2<byte>)
    requires SourceOk(src, pw, w, h)
    ensures fresh(t) && t.Length0 == h + 2 * r && t.Length1 == w + 2 * r
    ensures forall Y, X :: 0 <= Y < t.Length0 && 0 <= X < t.Length1 ==> t[Y, X] == Replicated(src, pw, w, h, r, Y, X)
  {
    t := Pad(src, pw, w, h, r, h + r, w + r);
    forall Y, X | 0 <= Y < t.Length0 && 0 <= X < t.Length1
      ensures t[Y, X] == Replicated(src, pw, w, h, r, Y, X)
    {
      CorrectedIsReplicated(src, pw, w, h, r, Y, X);
    }
  }
}
