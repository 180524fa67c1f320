/** Bounds on the linear blend the seam feather uses. */
module Blend {
  import opened Tensors
  import opened Stereo

  /** x lies on the closed segment between a and b. */
  predicate Between(x: real, a: real, b: real)
  {
    (a <= x <= b) || (b <= x <= a)
  }

  /** Moving from a towards b by a fraction t in [0, 1] of the distance
      stays within [a, b]. */
  lemma StepToward(a: real, b: real, t: real)
    requires a <= b && 0.0 <= t <= 1.0
    ensures a <= a + t * (b - a) <= b
  {
    assert (b - a) - t * (b - a) == (1.0 - t) * (b - a);
  }

  /** The blend measured from either end. */
  lemma BlendForms(a: real, b: real, t: real)
    ensures a * (1.0 - t) + b * t == a + t * (b - a)
    ensures a * (1.0 - t) + b * t == b + (1.0 - t) * (a - b)
  {
  }

  /** A weight in [0, 1] blends two samples into a value between them. */
  lemma BlendBetween(a: real, b: real, t: real)
    requires 0.0 <= t <= 1.0
    ensures Between(a * (1.0 - t) + b * t, a, b)
  {
    BlendForms(a, b, t);
    if a <= b {
      StepToward(a, b, t);
    } else {
      StepToward(b, a, 1.0 - t);
    }
  }

  /** With a weight in [0, 1], every channel of a blend lies between the
      two pixels' channels, so a blend of samples in [0, 1] stays in [0, 1]. */
  lemma MixBetween(l: Pixel, r: Pixel, t: real)
    requires |l| == |r| && 0.0 <= t <= 1.0
    ensures forall ch :: 0 <= ch < |l| ==> Between(Mix(l, r, t)[ch], l[ch], r[ch])
  {
    forall ch | 0 <= ch < |l|
      ensures Between(Mix(l, r, t)[ch], l[ch], r[ch])
    {
      BlendBetween(l[ch], r[ch], t);
    }
  }
}
