/** The VR180 stereo tools node: splits a side-by-side (SBS) stereo batch into
    one eye, rebuilds an SBS batch from one half or from a mono frame, or only
    enforces an even width; SBS outputs may have their centre seam feathered. */
module Stereo {
  import opened Tensors

  // ---------------------------------------------------------------------
  // Clamping to [0, 1]
  // ---------------------------------------------------------------------

  /** A sample clamped to [0, 1]; samples already inside are kept. */
  function Clamp(x: real): (y: real)
    ensures 0.0 <= y <= 1.0
    ensures 0.0 <= x <= 1.0 ==> y == x
  {
    if x < 0.0 then 0.0 else if x > 1.0 then 1.0 else x
  }

  function ClampPixel(p: Pixel): (q: Pixel)
    ensures |q| == |p|
    ensures forall ch :: 0 <= ch < |p| ==> q[ch] == Clamp(p[ch])
  {
    seq(|p|, ch requires 0 <= ch < |p| => Clamp(p[ch]))
  }

  /** Every sample of the batch lies in [0, 1]. */
  predicate InUnitRange(t: Tensor)
  {
    forall k, i, j, ch ::
      0 <= k < |t.data| && 0 <= i < |t.data[k]| && 0 <= j < |t.data[k][i]| && 0 <= ch < |t.data[k][i][j]| ==>
        0.0 <= t.data[k][i][j][ch] <= 1.0
  }

  /** The batch clamped sample by sample. */
  function ClampAll(t: Tensor): (r: Tensor)
    requires t.Valid()
    ensures r.Valid() && r.shape == t.shape && InUnitRange(r)
    ensures forall k, i, j {:trigger r.data[k][i][j]} :: 0 <= k < t.shape.b && 0 <= i < t.shape.h && 0 <= j < t.shape.w ==>
      r.data[k][i][j] == ClampPixel(t.data[k][i][j])
  {
    Tensor(t.shape, seq(|t.data|, k requires 0 <= k < |t.data| =>
      seq(|t.data[k]|, i requires 0 <= i < |t.data[k]| =>
        seq(|t.data[k][i]|, j requires 0 <= j < |t.data[k][i]| => ClampPixel(t.data[k][i][j])))))
  }

  // ---------------------------------------------------------------------
  // Slicing and concatenating along the width
  // ---------------------------------------------------------------------

  /** Columns [lo, hi) of every image. */
  function Columns(t: Tensor, lo: nat, hi: nat): (r: Tensor)
    requires t.Valid() && lo <= hi <= t.shape.w
    ensures r.Valid() && r.shape == t.shape.(w := hi - lo)
    ensures forall k, i, j {:trigger r.data[k][i][j]} :: 0 <= k < t.shape.b && 0 <= i < t.shape.h && 0 <= j < hi - lo ==>
      r.data[k][i][j] == t.data[k][i][lo + j]
  {
    Tensor(t.shape.(w := hi - lo), seq(|t.data|, k requires 0 <= k < |t.data| =>
      seq(|t.data[k]|, i requires 0 <= i < |t.data[k]| =>
        seq(hi - lo, j requires 0 <= j < hi - lo => t.data[k][i][lo + j]))))
  }

  /** Two batches of one shape placed side by side: a's columns, then b's. */
  function SideBySide(a: Tensor, b: Tensor): (r: Tensor)
    requires a.Valid() && b.Valid() && a.shape == b.shape
    ensures r.Valid() && r.shape == a.shape.(w := 2 * a.shape.w)
    ensures forall k, i, j {:trigger r.data[k][i][j]} :: 0 <= k < a.shape.b && 0 <= i < a.shape.h && 0 <= j < a.shape.w ==>
      r.data[k][i][j] == a.data[k][i][j]
    ensures forall k, i, j {:trigger r.data[k][i][j]} :: 0 <= k < a.shape.b && 0 <= i < a.shape.h && a.shape.w <= j < 2 * a.shape.w ==>
      r.data[k][i][j] == b.data[k][i][j - a.shape.w]
  {
    var w := a.shape.w;
    Tensor(a.shape.(w := 2 * w), seq(|a.data|, k requires 0 <= k < |a.data| =>
      seq(|a.data[k]|, i requires 0 <= i < |a.data[k]| =>
        seq(2 * w, j requires 0 <= j < 2 * w => if j < w then a.data[k][i][j] else b.data[k][i][j - w]))))
  }

  /** Even-width normalisation: "skip" leaves the batch alone; any other
      setting drops the last column of an odd width. Either way the kept
      columns are the input's first columns, untouched. */
  function EnsureEvenWidth(t: Tensor, evenWidthHandling: string): (r: Tensor)
    requires t.Valid()
    ensures r.Valid() && r.shape.b == t.shape.b && r.shape.h == t.shape.h && r.shape.c == t.shape.c
    ensures evenWidthHandling == "skip" ==> r == t
    ensures evenWidthHandling != "skip" ==> r.shape.w == t.shape.w - t.shape.w % 2 && r.shape.w % 2 == 0
    ensures r.shape.w == EvenWidth(t, evenWidthHandling)
    ensures forall k, i, j {:trigger r.data[k][i][j]} :: 0 <= k < r.shape.b && 0 <= i < r.shape.h && 0 <= j < r.shape.w ==>
      r.data[k][i][j] == t.data[k][i][j]
  {
    if evenWidthHandling == "skip" then t
    else if t.shape.w % 2 != 0 then Columns(t, 0, t.shape.w - 1)
    else t
  }

  // ---------------------------------------------------------------------
  // Seam feathering
  // ---------------------------------------------------------------------

  /** The blend weights across a band of f columns: f evenly spaced values
      from 0 to 1 (a single 0 when f is 1). */
  function Ramp(f: nat): (r: seq<real>)
    ensures |r| == f
    ensures forall k :: 0 <= k < f ==> 0.0 <= r[k] <= 1.0
  {
    if f <= 1 then seq(f, k => 0.0)
    else
      var r := seq(f, k requires 0 <= k < f => k as real / (f - 1) as real);
      assert forall k :: 0 <= k < f ==> 0.0 <= r[k] <= 1.0 by {
        forall k | 0 <= k < f
          ensures 0.0 <= r[k] <= 1.0
        {
          UnitFraction(k, f - 1);
        }
      }
      r
  }

  /** a / b lies in [0, 1] when 0 <= a <= b and b is positive. */
  lemma UnitFraction(a: nat, b: nat)
    requires a <= b && b > 0
    ensures 0.0 <= a as real / b as real <= 1.0
  {
    var q := a as real / b as real;
    assert q * b as real == a as real;
  }

  /** Channel-wise linear blend of two pixels with weight t on the second. */
  function Mix(l: Pixel, r: Pixel, t: real): (m: Pixel)
    requires |l| == |r|
    ensures |m| == |l|
  {
    seq(|l|, ch requires 0 <= ch < |l| => l[ch] * (1.0 - t) + r[ch] * t)
  }

  /** The blended band of one row, computed from the row before any write:
      column k mixes column half - f + k (left of the seam) with column
      half + k (right of the seam) by the k-th ramp weight. */
  function BlendedBand(row: seq<Pixel>, half: nat, f: nat, c: nat): (band: seq<Pixel>)
    requires f <= half && |row| == 2 * half
    requires forall j :: 0 <= j < |row| ==> |row[j]| == c
    ensures |band| == f && forall k :: 0 <= k < f ==> |band[k]| == c
  {
    var ramp := Ramp(f);
    seq(f, k requires 0 <= k < f => Mix(row[half - f + k], row[half + k], ramp[k]))
  }

  /** One row after feathering: both bands replaced by the same blend. */
  function FeatherRow(row: seq<Pixel>, half: nat, f: nat, c: nat): (r: seq<Pixel>)
    requires f <= half && |row| == 2 * half
    requires forall j :: 0 <= j < |row| ==> |row[j]| == c
    ensures |r| == |row|
  {
    var band := BlendedBand(row, half, f, c);
    row[..half - f] + band + band + row[half + f..]
  }

  /** Column by column, a feathered row: outside the two bands it is the
      row, and column half - f + k and column half + k both hold blend k. */
  lemma {:induction false} FeatherRowAt(row: seq<Pixel>, half: nat, f: nat, c: nat, j: int)
    requires f <= half && |row| == 2 * half
    requires forall j' :: 0 <= j' < |row| ==> |row[j']| == c
    requires 0 <= j < 2 * half
    ensures |FeatherRow(row, half, f, c)| == 2 * half
    ensures FeatherRow(row, half, f, c)[j] ==
      if half - f <= j < half then Mix(row[j], row[j + f], Ramp(f)[j - (half - f)])
      else if half <= j < half + f then Mix(row[j - f], row[j], Ramp(f)[j - half])
      else row[j]
  {
    var band := BlendedBand(row, half, f, c);
    var r := row[..half - f] + band + band + row[half + f..];
    assert |r| == 2 * half;
    if j < half - f {
      assert r[j] == row[..half - f][j];
    } else if j < half {
      assert r[j] == band[j - (half - f)];
    } else if j < half + f {
      assert r[j] == band[j - half];
    } else {
      assert r[j] == row[half + f..][j - (half + f)];
    }
  }

  /** Every row of an image feathered over bands of f columns. */
  function FeatherImage(img: Image, f: nat, half: nat, c: nat): (r: Image)
    requires f <= half && IsImage(img, |img|, 2 * half, c)
    ensures IsImage(r, |img|, 2 * half, c)
  {
    var r := seq(|img|, i requires 0 <= i < |img| => FeatherRow(img[i], half, f, c));
    assert IsImage(r, |img|, 2 * half, c) by {
      forall i, j | 0 <= i < |img| && 0 <= j < 2 * half
        ensures |r[i]| == 2 * half && |r[i][j]| == c
      {
        FeatherRowAt(img[i], half, f, c, j);
      }
    }
    r
  }

  /** The seam feather as a value: nothing happens unless seamFeather is
      positive; otherwise every row is feathered over f = min(seamFeather,
      half) columns on each side of the seam at column half. */
  function Feathered(img: Image, seamFeather: int, half: nat, c: nat): (r: Image)
    requires IsImage(img, |img|, 2 * half, c)
    ensures IsImage(r, |img|, 2 * half, c)
  {
    if seamFeather <= 0 then img else FeatherImage(img, (if seamFeather < half then seamFeather else half), half, c)
  }

  /** An image feathered over f columns, column by column: outside
      [half - f, half + f) it is the image; column half - f + k of the left
      band and column half + k of the right band both hold the mix of the two
      values those columns had before, by the k-th ramp weight. */
  lemma FeatherImageColumns(img: Image, f: nat, half: nat, c: nat)
    requires f <= half && IsImage(img, |img|, 2 * half, c)
    ensures forall i, j {:trigger FeatherImage(img, f, half, c)[i][j]} ::
      0 <= i < |img| && 0 <= j < 2 * half && !(half - f <= j < half + f) ==>
        FeatherImage(img, f, half, c)[i][j] == img[i][j]
    ensures forall i, j {:trigger FeatherImage(img, f, half, c)[i][j]} :: 0 <= i < |img| && half - f <= j < half ==>
      FeatherImage(img, f, half, c)[i][j] == Mix(img[i][j], img[i][j + f], Ramp(f)[j - (half - f)])
    ensures forall i, j {:trigger FeatherImage(img, f, half, c)[i][j]} :: 0 <= i < |img| && half <= j < half + f ==>
      FeatherImage(img, f, half, c)[i][j] == Mix(img[i][j - f], img[i][j], Ramp(f)[j - half])
  {
    forall i, j {:trigger FeatherImage(img, f, half, c)[i][j]} | 0 <= i < |img| && 0 <= j < 2 * half
      ensures FeatherImage(img, f, half, c)[i][j] ==
        if half - f <= j < half then Mix(img[i][j], img[i][j + f], Ramp(f)[j - (half - f)])
        else if half <= j < half + f then Mix(img[i][j - f], img[i][j], Ramp(f)[j - half])
        else img[i][j]
    {
      assert FeatherImage(img, f, half, c)[i] == FeatherRow(img[i], half, f, c);
      FeatherRowAt(img[i], half, f, c, j);
    }
  }

  /** What the seam feather does to an image: with seamFeather <= 0 nothing;
      otherwise, with f = min(seamFeather, half), the columns outside
      [half - f, half + f) keep their value, and for every k < f column
      half - f + k and column half + k both hold the blend, by the k-th ramp
      weight, of the values those two columns had before. */
  lemma FeatheredColumns(img: Image, seamFeather: int, half: nat, c: nat)
    requires IsImage(img, |img|, 2 * half, c)
    ensures seamFeather <= 0 ==> Feathered(img, seamFeather, half, c) == img
    ensures seamFeather > 0 ==>
      var f, r := (if seamFeather < half then seamFeather else half), Feathered(img, seamFeather, half, c);
      forall i, j :: 0 <= i < |img| && 0 <= j < 2 * half && !(half - f <= j < half + f) ==> r[i][j] == img[i][j]
    ensures seamFeather > 0 ==>
      var f, r := (if seamFeather < half then seamFeather else half), Feathered(img, seamFeather, half, c);
      forall i, j {:trigger r[i][j]} :: 0 <= i < |img| && half - f <= j < half ==>
        r[i][j] == Mix(img[i][j], img[i][j + f], Ramp(f)[j - (half - f)])
    ensures seamFeather > 0 ==>
      var f, r := (if seamFeather < half then seamFeather else half), Feathered(img, seamFeather, half, c);
      forall i, j {:trigger r[i][j]} :: 0 <= i < |img| && half <= j < half + f ==>
        r[i][j] == Mix(img[i][j - f], img[i][j], Ramp(f)[j - half])
  {
    if seamFeather > 0 {
      FeatheredOutside(img, seamFeather, half, c);
      FeatheredLeftBand(img, seamFeather, half, c);
      FeatheredRightBand(img, seamFeather, half, c);
    }
  }

  /** Columns outside the feathered band keep their value. */
  lemma FeatheredOutside(img: Image, seamFeather: int, half: nat, c: nat)
    requires IsImage(img, |img|, 2 * half, c) && seamFeather > 0
    ensures var f, r := (if seamFeather < half then seamFeather else half), Feathered(img, seamFeather, half, c);
      forall i, j :: 0 <= i < |img| && 0 <= j < 2 * half && !(half - f <= j < half + f) ==> r[i][j] == img[i][j]
  {
    var f := if seamFeather < half then seamFeather else half;
    var r := Feathered(img, seamFeather, half, c);
    assert r == FeatherImage(img, f, half, c);
    forall i, j {:trigger r[i][j]} | 0 <= i < |img| && 0 <= j < 2 * half && !(half - f <= j < half + f)
      ensures r[i][j] == img[i][j]
    {
      assert r[i] == FeatherRow(img[i], half, f, c);
      FeatherRowAt(img[i], half, f, c, j);
    }
  }

  /** The f columns left of the seam hold the blend with their partner f
      columns to the right. */
  lemma FeatheredLeftBand(img: Image, seamFeather: int, half: nat, c: nat)
    requires IsImage(img, |img|, 2 * half, c) && seamFeather > 0
    ensures var f, r := (if seamFeather < half then seamFeather else half), Feathered(img, seamFeather, half, c);
      forall i, j {:trigger r[i][j]} :: 0 <= i < |img| && half - f <= j < half ==>
        r[i][j] == Mix(img[i][j], img[i][j + f], Ramp(f)[j - (half - f)])
  {
    var f := if seamFeather < half then seamFeather else half;
    var r := Feathered(img, seamFeather, half, c);
    assert r == FeatherImage(img, f, half, c);
    forall i, j {:trigger r[i][j]} | 0 <= i < |img| && half - f <= j < half
      ensures r[i][j] == Mix(img[i][j], img[i][j + f], Ramp(f)[j - (half - f)])
    {
      assert r[i] == FeatherRow(img[i], half, f, c);
      FeatherRowAt(img[i], half, f, c, j);
    }
  }

  /** The f columns right of the seam hold the blend with their partner f
      columns to the left. */
  lemma FeatheredRightBand(img: Image, seamFeather: int, half: nat, c: nat)
    requires IsImage(img, |img|, 2 * half, c) && seamFeather > 0
    ensures var f, r := (if seamFeather < half then seamFeather else half), Feathered(img, seamFeather, half, c);
      forall i, j {:trigger r[i][j]} :: 0 <= i < |img| && half <= j < half + f ==>
        r[i][j] == Mix(img[i][j - f], img[i][j], Ramp(f)[j - half])
  {
    var f := if seamFeather < half then seamFeather else half;
    var r := Feathered(img, seamFeather, half, c);
    assert r == FeatherImage(img, f, half, c);
    forall i, j {:trigger r[i][j]} | 0 <= i < |img| && half <= j < half + f
      ensures r[i][j] == Mix(img[i][j - f], img[i][j], Ramp(f)[j - half])
    {
      assert r[i] == FeatherRow(img[i], half, f, c);
      FeatherRowAt(img[i], half, f, c, j);
    }
  }

  /** The blended band of every row of an image. */
  function BlendedBands(img: Image, half: nat, f: nat, c: nat): (bands: seq<seq<Pixel>>)
    requires f <= half && IsImage(img, |img|, 2 * half, c)
    ensures IsGrid(bands, |img|, f)
  {
    seq(|img|, i requires 0 <= i < |img| => BlendedBand(img[i], half, f, c))
  }

  /** Slice assignment on values: in row i, the columns from start on are
      replaced by band[i]; the row keeps its length. */
  function Overwrite<P>(img: seq<seq<P>>, band: seq<seq<P>>, start: nat): (r: seq<seq<P>>)
    requires |band| == |img|
    requires forall i :: 0 <= i < |img| ==> start + |band[i]| <= |img[i]|
    ensures |r| == |img| && forall i :: 0 <= i < |img| ==> |r[i]| == |img[i]|
  {
    seq(|img|, i requires 0 <= i < |img| => img[i][..start] + band[i] + img[i][start + |band[i]|..])
  }

  /** One cell after a slice assignment: inside the assigned columns it is
      the band's, elsewhere it is the old one. */
  lemma {:induction false} OverwriteAt<P>(img: seq<seq<P>>, band: seq<seq<P>>, start: nat, i: int, j: int)
    requires |band| == |img|
    requires forall i' :: 0 <= i' < |img| ==> start + |band[i']| <= |img[i']|
    requires 0 <= i < |img| && 0 <= j < |img[i]|
    ensures Overwrite(img, band, start)[i][j] ==
      if start <= j < start + |band[i]| then band[i][j - start] else img[i][j]
  {
    var r := img[i][..start] + band[i] + img[i][start + |band[i]|..];
    assert Overwrite(img, band, start)[i] == r;
    if j < start {
      assert r[j] == img[i][..start][j];
    } else if j < start + |band[i]| {
      assert r[j] == band[i][j - start];
    } else {
      assert r[j] == img[i][start + |band[i]|..][j - start - |band[i]|];
    }
  }

  /** Writing the same band first over the f columns left of the seam and
      then over the f columns right of it gives the feathered row. */
  lemma {:induction false} BothBandsRow(row: seq<Pixel>, band: seq<Pixel>, half: nat, f: nat)
    requires f <= half && |row| == 2 * half && |band| == f
    ensures var once := row[..half - f] + band + row[half..];
      once[..half] + band + once[half + f..] == row[..half - f] + band + band + row[half + f..]
  {
    var once := row[..half - f] + band + row[half..];
    assert once[..half] == row[..half - f] + band;
    assert once[half + f..] == row[half + f..];
  }

  /** The two slice assignments of the blended band make up the feather. */
  lemma {:induction false} BothBands(img: Image, half: nat, f: nat, c: nat)
    requires f <= half && IsImage(img, |img|, 2 * half, c)
    ensures var bands := BlendedBands(img, half, f, c);
      Overwrite(Overwrite(img, bands, half - f), bands, half) == FeatherImage(img, f, half, c)
  {
    var bands := BlendedBands(img, half, f, c);
    var once := Overwrite(img, bands, half - f);
    var twice := Overwrite(once, bands, half);
    forall i | 0 <= i < |img|
      ensures twice[i] == FeatherImage(img, f, half, c)[i]
    {
      assert once[i] == img[i][..half - f] + bands[i] + img[i][half..];
      assert twice[i] == once[i][..half] + bands[i] + once[i][half + f..];
      BothBandsRow(img[i], bands[i], half, f);
      assert FeatherImage(img, f, half, c)[i] == FeatherRow(img[i], half, f, c);
    }
  }

  /** The blended band of every row of an image held in an array, computed
      before anything is written. */
  method BlendBand(out: array2<Pixel>, half: nat, f: nat, c: nat) returns (band: array2<Pixel>)
    requires f <= half && out.Length1 == 2 * half
    requires forall i, j :: 0 <= i < out.Length0 && 0 <= j < out.Length1 ==> |out[i, j]| == c
    ensures fresh(band) && band.Length0 == out.Length0 && band.Length1 == f
    ensures IsImage(Grid(out), out.Length0, 2 * half, c)
    ensures Grid(band) == BlendedBands(Grid(out), half, f, c)
  {
    var ramp := Ramp(f);
    band := new Pixel[out.Length0, f];
    var i := 0;
    while i < out.Length0
      invariant 0 <= i <= out.Length0
      invariant forall a, k :: 0 <= a < i && 0 <= k < f ==>
        band[a, k] == Mix(out[a, half - f + k], out[a, half + k], ramp[k])
    {
      var k := 0;
      while k < f
        invariant 0 <= k <= f
        invariant forall a, k' :: 0 <= a < i && 0 <= k' < f ==>
          band[a, k'] == Mix(out[a, half - f + k'], out[a, half + k'], ramp[k'])
        invariant forall k' :: 0 <= k' < k ==>
          band[i, k'] == Mix(out[i, half - f + k'], out[i, half + k'], ramp[k'])
      {
        band[i, k] := Mix(out[i, half - f + k], out[i, half + k], ramp[k]);
        k := k + 1;
      }
      i := i + 1;
    }
    BandIsBlended(out, band, half, f, c);
  }

  /** An array holding, in row a and column k, the mix of columns
      half - f + k and half + k of row a by the k-th ramp weight holds the
      blended bands of the image. */
  lemma BandIsBlended(out: array2<Pixel>, band: array2<Pixel>, half: nat, f: nat, c: nat)
    requires f <= half && out.Length1 == 2 * half && band.Length0 == out.Length0 && band.Length1 == f
    requires forall i, j :: 0 <= i < out.Length0 && 0 <= j < out.Length1 ==> |out[i, j]| == c
    requires forall a, k :: 0 <= a < out.Length0 && 0 <= k < f ==>
      band[a, k] == Mix(out[a, half - f + k], out[a, half + k], Ramp(f)[k])
    ensures IsImage(Grid(out), out.Length0, 2 * half, c)
    ensures Grid(band) == BlendedBands(Grid(out), half, f, c)
  {
    var img := Grid(out);
    assert IsImage(img, out.Length0, 2 * half, c);
    var bands := BlendedBands(img, half, f, c);
    forall a, k | 0 <= a < out.Length0 && 0 <= k < f
      ensures Grid(band)[a][k] == bands[a][k]
    {
      BlendedBandsAt(img, half, f, c, a, k);
    }
    GridExt(Grid(band), bands, out.Length0, f);
  }

  /** One cell of the blended bands. */
  lemma BlendedBandsAt(img: Image, half: nat, f: nat, c: nat, a: int, k: int)
    requires f <= half && IsImage(img, |img|, 2 * half, c)
    requires 0 <= a < |img| && 0 <= k < f
    ensures BlendedBands(img, half, f, c)[a][k] == Mix(img[a][half - f + k], img[a][half + k], Ramp(f)[k])
  {
    assert BlendedBands(img, half, f, c)[a] == BlendedBand(img[a], half, f, c);
  }

  /** The slice assignment of a band: columns [start, start + width of band)
      of every row of out are overwritten with the band; nothing else changes. */
  method WriteBand(out: array2<Pixel>, band: array2<Pixel>, start: nat)
    requires band != out && band.Length0 == out.Length0 && start + band.Length1 <= out.Length1
    modifies out
    ensures Grid(out) == Overwrite(old(Grid(out)), Grid(band), start)
  {
    ghost var before := Grid(out);
    var i := 0;
    while i < out.Length0
      invariant 0 <= i <= out.Length0
      invariant forall a, j :: 0 <= a < out.Length0 && 0 <= j < out.Length1 ==>
        out[a, j] == if a < i && start <= j < start + band.Length1 then band[a, j - start] else before[a][j]
    {
      var k := 0;
      while k < band.Length1
        invariant 0 <= k <= band.Length1
        invariant forall a, j :: 0 <= a < out.Length0 && 0 <= j < out.Length1 ==>
          out[a, j] == if (a < i && start <= j < start + band.Length1) || (a == i && start <= j < start + k)
                       then band[a, j - start] else before[a][j]
      {
        out[i, start + k] := band[i, k];
        k := k + 1;
      }
      i := i + 1;
    }
    ghost var written := Overwrite(before, Grid(band), start);
    forall a, j | 0 <= a < out.Length0 && 0 <= j < out.Length1
      ensures out[a, j] == written[a][j]
    {
      OverwriteAt(before, Grid(band), start, a, j);
    }
    GridExt(Grid(out), written, out.Length0, out.Length1);
  }

  /** The seam feather, in place on one image: when seamFeather is positive
      the blend of the two bands is computed first and then written over the
      left band and over the right band. */
  method SeamFeather(out: array2<Pixel>, seamFeather: int, half: nat, c: nat)
    requires out.Length1 == 2 * half
    requires forall i, j :: 0 <= i < out.Length0 && 0 <= j < out.Length1 ==> |out[i, j]| == c
    modifies out
    ensures IsImage(old(Grid(out)), out.Length0, 2 * half, c)
    ensures Grid(out) == Feathered(old(Grid(out)), seamFeather, half, c)
  {
    ghost var before := Grid(out);
    assert IsImage(before, out.Length0, 2 * half, c);
    if seamFeather <= 0 {
      return;
    }
    var f: nat := if seamFeather < half then seamFeather else half;
    var band := BlendBand(out, half, f, c);
    WriteBand(out, band, half - f);
    WriteBand(out, band, half);
    BothBands(before, half, f, c);
  }

  /** The batch with every image feathered. */
  function FeatherAll(t: Tensor, seamFeather: int, half: nat): (r: Tensor)
    requires t.Valid() && t.shape.w == 2 * half
    ensures r.Valid() && r.shape == t.shape
  {
    Tensor(t.shape, seq(|t.data|, k requires 0 <= k < |t.data| => Feathered(t.data[k], seamFeather, half, t.shape.c)))
  }

  /** The seam feather of a whole batch, image by image through an array. */
  method FeatherBatch(t: Tensor, seamFeather: int, half: nat) returns (r: Tensor)
    requires t.Valid() && t.shape.w == 2 * half
    ensures r == FeatherAll(t, seamFeather, half)
  {
    var s := t.shape;
    var images: Batch := [];
    var k := 0;
    while k < s.b
      invariant 0 <= k <= s.b
      invariant |images| == k
      invariant forall n :: 0 <= n < k ==> images[n] == Feathered(t.data[n], seamFeather, half, s.c)
    {
      var img := t.data[k];
      var out := new Pixel[s.h, s.w]((i, j) requires 0 <= i < s.h && 0 <= j < s.w => img[i][j]);
      GridExt(Grid(out), img, s.h, s.w);
      SeamFeather(out, seamFeather, half, s.c);
      images := images + [Grid(out)];
      k := k + 1;
    }
    assert images == FeatherAll(t, seamFeather, half).data;
    r := Tensor(s, images);
  }

  /** Without feathering the batch is returned as it is. */
  lemma FeatherAllOff(t: Tensor, seamFeather: int, half: nat)
    requires t.Valid() && t.shape.w == 2 * half && seamFeather <= 0
    ensures FeatherAll(t, seamFeather, half) == t
  {
    assert FeatherAll(t, seamFeather, half).data == t.data;
  }

  /** With feathering over f = min(seamFeather, half) columns, every column
      of every image outside [half - f, half + f) keeps its value. */
  lemma FeatherAllOutside(t: Tensor, seamFeather: int, half: nat)
    requires t.Valid() && t.shape.w == 2 * half && seamFeather > 0
    ensures var f, r := (if seamFeather < half then seamFeather else half), FeatherAll(t, seamFeather, half);
      forall k, i, j {:trigger r.data[k][i][j]} ::
        0 <= k < t.shape.b && 0 <= i < t.shape.h && 0 <= j < 2 * half && !(half - f <= j < half + f) ==>
          r.data[k][i][j] == t.data[k][i][j]
  {
    var f, r := (if seamFeather < half then seamFeather else half), FeatherAll(t, seamFeather, half);
    forall k, i, j | 0 <= k < t.shape.b && 0 <= i < t.shape.h && 0 <= j < 2 * half && !(half - f <= j < half + f)
      ensures r.data[k][i][j] == t.data[k][i][j]
    {
      assert r.data[k] == FeatherImage(t.data[k], f, half, t.shape.c);
      FeatherImageColumns(t.data[k], f, half, t.shape.c);
    }
  }

  /** With feathering over f = min(seamFeather, half) columns, column j of
      the left band and column j + f of the right band of every image hold
      the same value. */
  lemma FeatherAllBands(t: Tensor, seamFeather: int, half: nat, k: int, i: int, j: int)
    requires t.Valid() && t.shape.w == 2 * half && seamFeather > 0
    requires 0 <= k < t.shape.b && 0 <= i < t.shape.h && half - (if seamFeather < half then seamFeather else half) <= j < half
    ensures var f, r := (if seamFeather < half then seamFeather else half), FeatherAll(t, seamFeather, half);
      r.data[k][i][j + f] == r.data[k][i][j]
  {
    var f := if seamFeather < half then seamFeather else half;
    assert FeatherAll(t, seamFeather, half).data[k] == FeatherImage(t.data[k], f, half, t.shape.c);
    FeatherImageColumns(t.data[k], f, half, t.shape.c);
    assert (j + f) - f == j && (j + f) - half == j - (half - f);
  }

  // ---------------------------------------------------------------------
  // The operator
  // ---------------------------------------------------------------------

  /** The chosen half of a batch of even width: the left half when
      sourceHalf is "left", the right half for any other value. */
  function ChosenHalf(t: Tensor, sourceHalf: string): (src: Tensor)
    requires t.Valid() && t.shape.w % 2 == 0
    ensures src.Valid() && src.shape == t.shape.(w := t.shape.w / 2)
    ensures var offset := if sourceHalf == "left" then 0 else t.shape.w / 2;
      forall k, i, j {:trigger src.data[k][i][j]} :: 0 <= k < t.shape.b && 0 <= i < t.shape.h && 0 <= j < t.shape.w / 2 ==>
        src.data[k][i][j] == t.data[k][i][offset + j]
  {
    var half := t.shape.w / 2;
    var left, right := Columns(t, 0, half), Columns(t, half, t.shape.w);
    if sourceHalf == "left" then left else right
  }

  /** sbs_extract_half on a batch of even width: the chosen half, clamped. */
  function ExtractHalf(t: Tensor, sourceHalf: string): (r: Tensor)
    requires t.Valid() && t.shape.w % 2 == 0
    ensures r.Valid() && r.shape == t.shape.(w := t.shape.w / 2) && InUnitRange(r)
  {
    ClampAll(ChosenHalf(t, sourceHalf))
  }

  /** sbs_copy_half_to_stereo on a batch of even width: the chosen half and a
      copy of it side by side, in the order the layout asks for, feathered
      around the centre seam and clamped. */
  function CopyHalfToStereo(t: Tensor, sourceHalf: string, outputLayout: string, seamFeather: int): (r: Tensor)
    requires t.Valid() && t.shape.w % 2 == 0
    ensures r.Valid() && r.shape == t.shape && InUnitRange(r)
  {
    var src := ChosenHalf(t, sourceHalf);
    var other := src;
    var out :=
      if outputLayout == "parallel" then
        (if sourceHalf == "left" then SideBySide(src, other) else SideBySide(other, src))
      else SideBySide(src, other);
    ClampAll(FeatherAll(out, seamFeather, t.shape.w / 2))
  }

  /** mono_to_stereo_copy: the frame and a copy of it side by side (the same
      order for either layout), feathered around the seam and clamped. */
  function MonoToStereo(t: Tensor, outputLayout: string, seamFeather: int): (r: Tensor)
    requires t.Valid()
    ensures r.Valid() && r.shape == t.shape.(w := 2 * t.shape.w) && InUnitRange(r)
  {
    var other := t;
    var out := if outputLayout == "parallel" then SideBySide(t, other) else SideBySide(t, other);
    ClampAll(FeatherAll(out, seamFeather, t.shape.w))
  }

  /** What the stereo node returns, as a value. */
  function ApplySpec(v: Value, mode: string, sourceHalf: string, outputLayout: string,
                     evenWidthHandling: string, seamFeather: int): (r: Result<Tensor>)
    requires WellFormed(v)
    ensures !v.Rank4? ==> r.Err? && r.error.NotATensor? == v.NotTensor?
    ensures v.Rank4? && r.Err? ==> r.error == OddWidth || r.error == UnknownMode(mode)
  {
    match v
    case NotTensor => Err(NotATensor)
    case OtherRank(dims) => Err(BadRank(dims))
    case Rank4(input) =>
      var t := EnsureEvenWidth(input, evenWidthHandling);
      if mode == "even_crop_only" then Ok(ClampAll(t))
      else if mode == "sbs_extract_half" then
        if t.shape.w % 2 != 0 then Err(OddWidth) else Ok(ExtractHalf(t, sourceHalf))
      else if mode == "sbs_copy_half_to_stereo" then
        if t.shape.w % 2 != 0 then Err(OddWidth) else Ok(CopyHalfToStereo(t, sourceHalf, outputLayout, seamFeather))
      else if mode == "mono_to_stereo_copy" then Ok(MonoToStereo(t, outputLayout, seamFeather))
      else Err(UnknownMode(mode))
  }

  /** The stereo node: validates the input, normalises the width, and runs the
      selected mode, feathering SBS outputs in place and clamping every result. */
  method Apply(v: Value, mode: string, sourceHalf: string, outputLayout: string,
               evenWidthHandling: string, seamFeather: int) returns (r: Result<Tensor>)
    requires WellFormed(v)
    ensures r == ApplySpec(v, mode, sourceHalf, outputLayout, evenWidthHandling, seamFeather)
  {
    if v.NotTensor? {
      return Err(NotATensor);
    }
    if v.OtherRank? {
      return Err(BadRank(v.dims));
    }
    var t := EnsureEvenWidth(v.t, evenWidthHandling);
    var w := t.shape.w;
    if mode == "even_crop_only" {
      return Ok(ClampAll(t));
    }
    if mode == "sbs_extract_half" {
      if w % 2 != 0 {
        return Err(OddWidth);
      }
      var out := ChosenHalf(t, sourceHalf);
      return Ok(ClampAll(out));
    }
    if mode == "sbs_copy_half_to_stereo" {
      if w % 2 != 0 {
        return Err(OddWidth);
      }
      var half := w / 2;
      var src := ChosenHalf(t, sourceHalf);
      var other := src;
      var out;
      if outputLayout == "parallel" {
        if sourceHalf == "left" {
          out := SideBySide(src, other);
        } else {
          out := SideBySide(other, src);
        }
      } else {
        out := SideBySide(src, other);
      }
      out := FeatherBatch(out, seamFeather, half);
      return Ok(ClampAll(out));
    }
    if mode == "mono_to_stereo_copy" {
      var mono := t;
      var half := mono.shape.w;
      var other := mono;
      var out;
      if outputLayout == "parallel" {
        out := SideBySide(mono, other);
      } else {
        out := SideBySide(mono, other);
      }
      out := FeatherBatch(out, seamFeather, half);
      return Ok(ClampAll(out));
    }
    return Err(UnknownMode(mode));
  }

  // ---------------------------------------------------------------------
  // Properties of the operator
  // ---------------------------------------------------------------------

  /** The modes the node knows. */
  const Modes: set<string> := {"even_crop_only", "sbs_extract_half", "sbs_copy_half_to_stereo", "mono_to_stereo_copy"}

  /** When the node fails: a non-tensor or non-4-D input, an odd width in a
      mode that splits the frame (possible only when the width is left
      alone), or an unknown mode; in every other case it returns a batch. */
  lemma ApplyFailures(v: Value, mode: string, sourceHalf: string, outputLayout: string,
                      evenWidthHandling: string, seamFeather: int)
    requires WellFormed(v)
    ensures var r := ApplySpec(v, mode, sourceHalf, outputLayout, evenWidthHandling, seamFeather);
      (v.NotTensor? ==> r == Err(NotATensor)) &&
      (v.OtherRank? ==> r == Err(BadRank(v.dims))) &&
      (v.Rank4? ==> (r == Err(UnknownMode(mode)) <==> mode !in Modes)) &&
      (v.Rank4? ==> (r == Err(OddWidth) <==>
        (mode == "sbs_extract_half" || mode == "sbs_copy_half_to_stereo") &&
        evenWidthHandling == "skip" && v.t.shape.w % 2 == 1)) &&
      (r.Ok? <==>
        (v.Rank4? && mode in Modes &&
         !((mode == "sbs_extract_half" || mode == "sbs_copy_half_to_stereo") &&
           evenWidthHandling == "skip" && v.t.shape.w % 2 == 1)))
  {
    if v.Rank4? {
      var t := EnsureEvenWidth(v.t, evenWidthHandling);
      assert evenWidthHandling != "skip" ==> t.shape.w % 2 == 0;
    }
  }

  /** Every batch the node returns is valid and lies in [0, 1]. */
  lemma ApplyInUnitRange(v: Value, mode: string, sourceHalf: string, outputLayout: string,
                         evenWidthHandling: string, seamFeather: int)
    requires WellFormed(v)
    ensures var r := ApplySpec(v, mode, sourceHalf, outputLayout, evenWidthHandling, seamFeather);
      r.Ok? ==> r.value.Valid() && InUnitRange(r.value)
  {
  }

  /** The result does not depend on the layout setting: the two halves are
      copies of one another, so the two concatenation orders agree. */
  lemma ApplyLayoutIrrelevant(v: Value, mode: string, sourceHalf: string, layout1: string, layout2: string,
                              evenWidthHandling: string, seamFeather: int)
    requires WellFormed(v)
    ensures ApplySpec(v, mode, sourceHalf, layout1, evenWidthHandling, seamFeather) ==
            ApplySpec(v, mode, sourceHalf, layout2, evenWidthHandling, seamFeather)
  {
  }

  /** The width after even-width normalisation. */
  function EvenWidth(t: Tensor, evenWidthHandling: string): (w: nat)
    ensures w <= t.shape.w
    ensures evenWidthHandling != "skip" ==> w % 2 == 0
  {
    if evenWidthHandling == "skip" then t.shape.w else t.shape.w - t.shape.w % 2
  }

  /** even_crop_only: the width-normalised batch, clamped, and nothing else. */
  lemma ApplyEvenCropOnly(t: Tensor, sourceHalf: string, outputLayout: string,
                          evenWidthHandling: string, seamFeather: int)
    requires t.Valid()
    ensures ApplySpec(Rank4(t), "even_crop_only", sourceHalf, outputLayout, evenWidthHandling, seamFeather).Ok?
    ensures var out, w := ApplySpec(Rank4(t), "even_crop_only", sourceHalf, outputLayout, evenWidthHandling, seamFeather).value,
                          EvenWidth(t, evenWidthHandling);
      out.shape == t.shape.(w := w) &&
      forall k, i, j {:trigger out.data[k][i][j]} :: 0 <= k < t.shape.b && 0 <= i < t.shape.h && 0 <= j < w ==>
        out.data[k][i][j] == ClampPixel(t.data[k][i][j])
  {
  }

  /** sbs_extract_half on an even width W: half the width, holding the clamped
      columns [0, W/2) for the left half and [W/2, W) for any other choice. */
  lemma ApplyExtractHalf(t: Tensor, sourceHalf: string, outputLayout: string,
                         evenWidthHandling: string, seamFeather: int)
    requires t.Valid() && EvenWidth(t, evenWidthHandling) % 2 == 0
    ensures ApplySpec(Rank4(t), "sbs_extract_half", sourceHalf, outputLayout, evenWidthHandling, seamFeather).Ok?
    ensures var out, half := ApplySpec(Rank4(t), "sbs_extract_half", sourceHalf, outputLayout, evenWidthHandling, seamFeather).value,
                             EvenWidth(t, evenWidthHandling) / 2;
      var offset := if sourceHalf == "left" then 0 else half;
      out.shape == t.shape.(w := half) &&
      forall k, i, j {:trigger out.data[k][i][j]} :: 0 <= k < t.shape.b && 0 <= i < t.shape.h && 0 <= j < half ==>
        out.data[k][i][j] == ClampPixel(t.data[k][i][offset + j])
  {
    var e := EnsureEvenWidth(t, evenWidthHandling);
    var src := ChosenHalf(e, sourceHalf);
    var offset := if sourceHalf == "left" then 0 else e.shape.w / 2;
    forall k, i, j | 0 <= k < t.shape.b && 0 <= i < t.shape.h && 0 <= j < e.shape.w / 2
      ensures src.data[k][i][j] == t.data[k][i][offset + j]
    {
      assert src.data[k][i][j] == e.data[k][i][offset + j];
    }
  }

  /** The pair of copies of a batch of width m, unfeathered and clamped:
      width 2m, and columns j and j + m both hold the clamped column j. */
  lemma PairUnfeathered(src: Tensor, seamFeather: int)
    requires src.Valid() && seamFeather <= 0
    ensures var m, out := src.shape.w, ClampAll(FeatherAll(SideBySide(src, src), seamFeather, src.shape.w));
      out.shape == src.shape.(w := 2 * m) &&
      forall k, i, j {:trigger out.data[k][i][j]} :: 0 <= k < src.shape.b && 0 <= i < src.shape.h && 0 <= j < m ==>
        out.data[k][i][j] == ClampPixel(src.data[k][i][j]) && out.data[k][i][j + m] == ClampPixel(src.data[k][i][j])
  {
    var m := src.shape.w;
    var pair := SideBySide(src, src);
    var out := ClampAll(FeatherAll(pair, seamFeather, m));
    FeatherAllOff(pair, seamFeather, m);
    forall k, i, j | 0 <= k < src.shape.b && 0 <= i < src.shape.h && 0 <= j < m
      ensures out.data[k][i][j] == ClampPixel(src.data[k][i][j]) && out.data[k][i][j + m] == ClampPixel(src.data[k][i][j])
    {
      assert pair.data[k][i][j + m] == src.data[k][i][j + m - m];
    }
  }

  /** The pair of copies of a batch of width m, feathered over
      f = min(seamFeather, m) columns and clamped: column j of the left band
      and column j + f of the right band hold the same value. */
  lemma PairSeamBands(src: Tensor, seamFeather: int, k: int, i: int, j: int)
    requires src.Valid() && seamFeather > 0
    requires var m := src.shape.w;
      0 <= k < src.shape.b && 0 <= i < src.shape.h && m - (if seamFeather < m then seamFeather else m) <= j < m
    ensures var m, out := src.shape.w, ClampAll(FeatherAll(SideBySide(src, src), seamFeather, src.shape.w));
      var f := if seamFeather < m then seamFeather else m;
      out.data[k][i][j + f] == out.data[k][i][j]
  {
    var m := src.shape.w;
    var f := if seamFeather < m then seamFeather else m;
    var feathered := FeatherAll(SideBySide(src, src), seamFeather, m);
    FeatherAllBands(SideBySide(src, src), seamFeather, m, k, i, j);
    assert ClampAll(feathered).data[k][i][j + f] == ClampPixel(feathered.data[k][i][j + f]);
  }

  /** The pair of copies of a batch of width m, feathered over
      f = min(seamFeather, m) columns and clamped: column j outside the two
      bands [m - f, m + f) is the clamped column of the batch it was copied
      from (j left of the seam, j - m right of it). */
  lemma PairSeamOutsideAt(src: Tensor, seamFeather: int, k: int, i: int, j: int)
    requires src.Valid() && seamFeather > 0
    requires var m := src.shape.w;
      var f := if seamFeather < m then seamFeather else m;
      0 <= k < src.shape.b && 0 <= i < src.shape.h && 0 <= j < 2 * m && !(m - f <= j < m + f)
    ensures var m, out := src.shape.w, ClampAll(FeatherAll(SideBySide(src, src), seamFeather, src.shape.w));
      out.data[k][i][j] == ClampPixel(src.data[k][i][if j < m then j else j - m])
  {
    var m := src.shape.w;
    var pair := SideBySide(src, src);
    var feathered := FeatherAll(pair, seamFeather, m);
    FeatherAllOutside(pair, seamFeather, m);
    assert feathered.data[k][i][j] == pair.data[k][i][j];
    assert pair.data[k][i][j] == src.data[k][i][if j < m then j else j - m];
  }

  /** On a width that is even after normalisation, the copy mode succeeds
      and returns the copy-mode result for the normalised batch, whose
      width the normalisation fixes. */
  lemma ApplyCopyMode(t: Tensor, sourceHalf: string, outputLayout: string,
                      evenWidthHandling: string, seamFeather: int)
    requires t.Valid() && EvenWidth(t, evenWidthHandling) % 2 == 0
    ensures var e := EnsureEvenWidth(t, evenWidthHandling);
      e.shape.w == EvenWidth(t, evenWidthHandling) &&
      ApplySpec(Rank4(t), "sbs_copy_half_to_stereo", sourceHalf, outputLayout, evenWidthHandling, seamFeather) ==
      Ok(CopyHalfToStereo(e, sourceHalf, outputLayout, seamFeather))
  {
  }

  /** In copy mode the node returns the clamped, feathered pair of copies of
      the chosen half of the width-normalised batch. */
  lemma ApplyCopyIsPair(t: Tensor, sourceHalf: string, outputLayout: string,
                        evenWidthHandling: string, seamFeather: int)
    requires t.Valid() && EvenWidth(t, evenWidthHandling) % 2 == 0
    ensures var e := EnsureEvenWidth(t, evenWidthHandling);
      var src := ChosenHalf(e, sourceHalf);
      ApplySpec(Rank4(t), "sbs_copy_half_to_stereo", sourceHalf, outputLayout, evenWidthHandling, seamFeather) ==
      Ok(ClampAll(FeatherAll(SideBySide(src, src), seamFeather, src.shape.w)))
  {
  }

  /** The columns of the chosen half, read in the input batch. */
  lemma ChosenHalfOfInput(t: Tensor, sourceHalf: string, evenWidthHandling: string)
    requires t.Valid() && EvenWidth(t, evenWidthHandling) % 2 == 0
    ensures var e := EnsureEvenWidth(t, evenWidthHandling);
      var src, offset := ChosenHalf(e, sourceHalf), (if sourceHalf == "left" then 0 else e.shape.w / 2);
      e.shape.w == EvenWidth(t, evenWidthHandling) &&
      forall k, i, j {:trigger src.data[k][i][j]} :: 0 <= k < t.shape.b && 0 <= i < t.shape.h && 0 <= j < e.shape.w / 2 ==>
        src.data[k][i][j] == t.data[k][i][offset + j]
  {
    var e := EnsureEvenWidth(t, evenWidthHandling);
    var src, offset := ChosenHalf(e, sourceHalf), (if sourceHalf == "left" then 0 else e.shape.w / 2);
    forall k, i, j | 0 <= k < t.shape.b && 0 <= i < t.shape.h && 0 <= j < e.shape.w / 2
      ensures src.data[k][i][j] == t.data[k][i][offset + j]
    {
      assert src.data[k][i][j] == e.data[k][i][offset + j];
    }
  }

  /** sbs_copy_half_to_stereo without feathering on an even width W: width W,
      and columns j and j + W/2 both hold the clamped column j of the chosen
      half. */
  lemma ApplyCopyHalf(t: Tensor, sourceHalf: string, outputLayout: string,
                      evenWidthHandling: string, seamFeather: int)
    requires t.Valid() && EvenWidth(t, evenWidthHandling) % 2 == 0 && seamFeather <= 0
    ensures ApplySpec(Rank4(t), "sbs_copy_half_to_stereo", sourceHalf, outputLayout, evenWidthHandling, seamFeather).Ok?
    ensures var out, half := ApplySpec(Rank4(t), "sbs_copy_half_to_stereo", sourceHalf, outputLayout, evenWidthHandling, seamFeather).value,
                             EvenWidth(t, evenWidthHandling) / 2;
      var offset := if sourceHalf == "left" then 0 else half;
      out.shape == t.shape.(w := 2 * half) &&
      forall k, i, j {:trigger out.data[k][i][j]} :: 0 <= k < t.shape.b && 0 <= i < t.shape.h && 0 <= j < half ==>
        out.data[k][i][j] == ClampPixel(t.data[k][i][offset + j]) &&
        out.data[k][i][j + half] == ClampPixel(t.data[k][i][offset + j])
  {
    var e := EnsureEvenWidth(t, evenWidthHandling);
    var src := ChosenHalf(e, sourceHalf);
    assert src.shape.w == EvenWidth(t, evenWidthHandling) / 2;
    ApplyCopyIsPair(t, sourceHalf, outputLayout, evenWidthHandling, seamFeather);
    ChosenHalfOfInput(t, sourceHalf, evenWidthHandling);
    PairUnfeathered(src, seamFeather);
  }

  /** The copy mode with feathering on an even width W, with
      f = min(seamFeather, W/2): width W, and column j of the left band and
      column j + f of the right band hold the same value. */
  lemma ApplyCopySeamBands(t: Tensor, sourceHalf: string, outputLayout: string,
                           evenWidthHandling: string, seamFeather: int, k: int, i: int, j: int)
    requires t.Valid() && EvenWidth(t, evenWidthHandling) % 2 == 0 && seamFeather > 0
    requires var half := EvenWidth(t, evenWidthHandling) / 2;
      0 <= k < t.shape.b && 0 <= i < t.shape.h && half - (if seamFeather < half then seamFeather else half) <= j < half
    ensures ApplySpec(Rank4(t), "sbs_copy_half_to_stereo", sourceHalf, outputLayout, evenWidthHandling, seamFeather).Ok?
    ensures var out, half := ApplySpec(Rank4(t), "sbs_copy_half_to_stereo", sourceHalf, outputLayout, evenWidthHandling, seamFeather).value,
                             EvenWidth(t, evenWidthHandling) / 2;
      var f := if seamFeather < half then seamFeather else half;
      out.shape == t.shape.(w := 2 * half) && out.data[k][i][j + f] == out.data[k][i][j]
  {
    var e := EnsureEvenWidth(t, evenWidthHandling);
    var src := ChosenHalf(e, sourceHalf);
    assert src.shape.w == EvenWidth(t, evenWidthHandling) / 2;
    ApplyCopyIsPair(t, sourceHalf, outputLayout, evenWidthHandling, seamFeather);
    PairSeamBands(src, seamFeather, k, i, j);
  }

  /** The copy mode with feathering on a batch of even width W, with
      f = min(seamFeather, W/2): column j outside the two bands holds the
      clamped column of the chosen half it was copied from. */
  lemma CopySeamOutsideAt(e: Tensor, sourceHalf: string, outputLayout: string, seamFeather: int, k: int, i: int, j: int)
    requires e.Valid() && e.shape.w % 2 == 0 && seamFeather > 0
    requires var half := e.shape.w / 2;
      var f := if seamFeather < half then seamFeather else half;
      0 <= k < e.shape.b && 0 <= i < e.shape.h && 0 <= j < 2 * half && !(half - f <= j < half + f)
    ensures var half := e.shape.w / 2;
      var offset := if sourceHalf == "left" then 0 else half;
      CopyHalfToStereo(e, sourceHalf, outputLayout, seamFeather).data[k][i][j] ==
        ClampPixel(e.data[k][i][offset + (if j < half then j else j - half)])
  {
    var src := ChosenHalf(e, sourceHalf);
    var half := src.shape.w;
    var out := ClampAll(FeatherAll(SideBySide(src, src), seamFeather, half));
    assert CopyHalfToStereo(e, sourceHalf, outputLayout, seamFeather) == out;
    PairSeamOutsideAt(src, seamFeather, k, i, j);
  }

  /** In mono mode the node returns the clamped, feathered pair of copies of
      the width-normalised batch. */
  lemma ApplyMonoIsPair(t: Tensor, sourceHalf: string, outputLayout: string,
                        evenWidthHandling: string, seamFeather: int)
    requires t.Valid()
    ensures var e := EnsureEvenWidth(t, evenWidthHandling);
      ApplySpec(Rank4(t), "mono_to_stereo_copy", sourceHalf, outputLayout, evenWidthHandling, seamFeather) ==
      Ok(ClampAll(FeatherAll(SideBySide(e, e), seamFeather, e.shape.w)))
  {
  }

  /** mono_to_stereo_copy without feathering on a frame of width m: width 2m,
      and both halves are the clamped frame. */
  lemma ApplyMono(t: Tensor, sourceHalf: string, outputLayout: string,
                  evenWidthHandling: string, seamFeather: int)
    requires t.Valid() && seamFeather <= 0
    ensures ApplySpec(Rank4(t), "mono_to_stereo_copy", sourceHalf, outputLayout, evenWidthHandling, seamFeather).Ok?
    ensures var out, m := ApplySpec(Rank4(t), "mono_to_stereo_copy", sourceHalf, outputLayout, evenWidthHandling, seamFeather).value,
                          EvenWidth(t, evenWidthHandling);
      out.shape == t.shape.(w := 2 * m) &&
      forall k, i, j {:trigger out.data[k][i][j]} :: 0 <= k < t.shape.b && 0 <= i < t.shape.h && 0 <= j < m ==>
        out.data[k][i][j] == ClampPixel(t.data[k][i][j]) &&
        out.data[k][i][j + m] == ClampPixel(t.data[k][i][j])
  {
    var e := EnsureEvenWidth(t, evenWidthHandling);
    ApplyMonoIsPair(t, sourceHalf, outputLayout, evenWidthHandling, seamFeather);
    PairUnfeathered(e, seamFeather);
  }

  /** The mono mode with feathering on a frame of width m, with
      f = min(seamFeather, m): width 2m, and column j of the left band and
      column j + f of the right band hold the same value. */
  lemma ApplyMonoSeamBands(t: Tensor, sourceHalf: string, outputLayout: string,
                           evenWidthHandling: string, seamFeather: int, k: int, i: int, j: int)
    requires t.Valid() && seamFeather > 0
    requires var m := EvenWidth(t, evenWidthHandling);
      0 <= k < t.shape.b && 0 <= i < t.shape.h && m - (if seamFeather < m then seamFeather else m) <= j < m
    ensures ApplySpec(Rank4(t), "mono_to_stereo_copy", sourceHalf, outputLayout, evenWidthHandling, seamFeather).Ok?
    ensures var out, m := ApplySpec(Rank4(t), "mono_to_stereo_copy", sourceHalf, outputLayout, evenWidthHandling, seamFeather).value,
                          EvenWidth(t, evenWidthHandling);
      var f := if seamFeather < m then seamFeather else m;
      out.shape == t.shape.(w := 2 * m) && out.data[k][i][j + f] == out.data[k][i][j]
  {
    var e := EnsureEvenWidth(t, evenWidthHandling);
    ApplyMonoIsPair(t, sourceHalf, outputLayout, evenWidthHandling, seamFeather);
    PairSeamBands(e, seamFeather, k, i, j);
  }

  /** The mono mode with feathering on a frame of width m, with
      f = min(seamFeather, m): every column j outside the two bands
      [m - f, m + f) is the clamped column of the frame it was copied from
      (j left of the seam, j - m right of it). */
  lemma ApplyMonoSeamOutside(t: Tensor, sourceHalf: string, outputLayout: string,
                             evenWidthHandling: string, seamFeather: int, k: int, i: int, j: int)
    requires t.Valid() && seamFeather > 0
    requires var m := EvenWidth(t, evenWidthHandling);
      var f := if seamFeather < m then seamFeather else m;
      0 <= k < t.shape.b && 0 <= i < t.shape.h && 0 <= j < 2 * m && !(m - f <= j < m + f)
    ensures ApplySpec(Rank4(t), "mono_to_stereo_copy", sourceHalf, outputLayout, evenWidthHandling, seamFeather).Ok?
    ensures var out, m := ApplySpec(Rank4(t), "mono_to_stereo_copy", sourceHalf, outputLayout, evenWidthHandling, seamFeather).value,
                          EvenWidth(t, evenWidthHandling);
      out.data[k][i][j] == ClampPixel(t.data[k][i][if j < m then j else j - m])
  {
    var e := EnsureEvenWidth(t, evenWidthHandling);
    var m := e.shape.w;
    assert m == EvenWidth(t, evenWidthHandling);
    ApplyMonoIsPair(t, sourceHalf, outputLayout, evenWidthHandling, seamFeather);
    PairSeamOutsideAt(e, seamFeather, k, i, j);
  }

  /** Clamping picks the point of [0, 1] nearest the sample. */
  lemma ClampNearest(x: real, z: real)
    requires 0.0 <= z <= 1.0
    ensures var d, e := Clamp(x) - x, z - x;
      (if d < 0.0 then -d else d) <= (if e < 0.0 then -e else e)
  {
  }

  /** Width normalisation is idempotent. */
  lemma EnsureEvenWidthIdempotent(t: Tensor, evenWidthHandling: string)
    requires t.Valid()
    ensures EnsureEvenWidth(EnsureEvenWidth(t, evenWidthHandling), evenWidthHandling) == EnsureEvenWidth(t, evenWidthHandling)
  {
  }
}
