/** Image batches as the two operators see them: a [B, H, W, C] tensor of
    samples, held as a sequence of B images, each a sequence of H rows of W
    pixels, each pixel a sequence of C channel samples. */
module Tensors {

  type Pixel = seq<real>
  type Image = seq<seq<Pixel>>
  type Batch = seq<Image>

  /** The four dimensions of a batch; kept apart from the data because an
      empty batch (B == 0) still has a height, a width and a channel count. */
  datatype Shape = Shape(b: nat, h: nat, w: nat, c: nat)

  /** g is a grid of h rows of w cells each. */
  predicate IsGrid<P>(g: seq<seq<P>>, h: nat, w: nat)
  {
    |g| == h && forall i :: 0 <= i < h ==> |g[i]| == w
  }

  /** img is an h x w image whose every pixel has c channels. */
  predicate IsImage(img: Image, h: nat, w: nat, c: nat)
  {
    IsGrid(img, h, w) &&
    forall i, j :: 0 <= i < h && 0 <= j < w ==> |img[i][j]| == c
  }

  datatype Tensor = Tensor(shape: Shape, data: Batch)
  {
    /** The data really has the dimensions the shape announces. */
    predicate Valid()
    {
      |data| == shape.b &&
      forall k :: 0 <= k < |data| ==> IsImage(data[k], shape.h, shape.w, shape.c)
    }
  }

  /** What a caller may hand to an operator: something that is not a tensor
      at all, a tensor whose rank is not 4, or a [B, H, W, C] tensor. */
  datatype Value = NotTensor | OtherRank(dims: seq<nat>) | Rank4(t: Tensor)

  predicate WellFormed(v: Value)
  {
    match v
    case NotTensor => true
    case OtherRank(dims) => |dims| != 4
    case Rank4(t) => t.Valid()
  }

  /** The failures the operators raise; each ends the call with no result. */
  datatype Error =
    | NotATensor
    | BadRank(dims: seq<nat>)
    | BadChannels(c: nat)
    | OddWidth
    | UnknownMode(mode: string)

  datatype Result<T> = Ok(value: T) | Err(error: Error)

  /** The contents of a two-dimensional array as a grid of rows. */
  function Grid<P>(a: array2<P>): (g: seq<seq<P>>)
    reads a
    ensures IsGrid(g, a.Length0, a.Length1)
    ensures forall i, j :: 0 <= i < a.Length0 && 0 <= j < a.Length1 ==> g[i][j] == a[i, j]
  {
    seq(a.Length0, i reads a requires 0 <= i < a.Length0 =>
      seq(a.Length1, j reads a requires 0 <= j < a.Length1 => a[i, j]))
  }

  /** Two grids of the same dimensions are equal when they agree cell by cell. */
  lemma {:induction false} GridExt<P>(g: seq<seq<P>>, g': seq<seq<P>>, h: nat, w: nat)
    requires IsGrid(g, h, w) && IsGrid(g', h, w)
    requires forall i, j :: 0 <= i < h && 0 <= j < w ==> g[i][j] == g'[i][j]
    ensures g == g'
  {
    forall i | 0 <= i < h
      ensures g[i] == g'[i]
    {
      assert forall j :: 0 <= j < w ==> g[i][j] == g'[i][j];
    }
  }
}
