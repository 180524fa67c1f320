/** The offset node: shifts every image of a batch by whole pixels, like the
    Offset filter of an image editor, either wrapping what leaves one edge
    round to the opposite edge or filling the exposed area with a flat colour. */
module Offset {
  import opened Tensors

  // ---------------------------------------------------------------------
  // Remainders (divisors here are image dimensions, so always positive,
  // where Dafny's % and Python's % agree)
  // ---------------------------------------------------------------------

  lemma MulAtLeast(n: int, d: int)
    requires n > 0 && d >= 1
    ensures n * d >= n
  {
  }

  /** The remainder is fixed by any quotient/remainder decomposition. */
  lemma ModUnique(x: int, n: int, q: int, r: int)
    requires n > 0 && 0 <= r < n && x == n * q + r
    ensures x % n == r
  {
    var q', r' := x / n, x % n;
    assert x == n * q' + r';
    if q' > q {
      assert n * (q' - q) == n * q' - n * q;
      MulAtLeast(n, q' - q);
    } else if q' < q {
      assert n * (q - q') == n * q - n * q';
      MulAtLeast(n, q - q');
    }
  }

  /** Taking a whole number of periods away does not change the remainder. */
  lemma ModDropPeriods(y: int, n: int, q: int)
    requires n > 0
    ensures (y - n * q) % n == y % n
  {
    assert y == n * (y / n) + y % n;
    assert y - n * q == n * (y / n - q) + y % n;
    ModUnique(y - n * q, n, y / n - q, y % n);
  }

  /** Reducing first and shifting afterwards is the same as shifting first. */
  lemma ModThenShift(x: int, a: int, n: int)
    requires n > 0
    ensures (x % n - a) % n == (x - a) % n
  {
    assert x % n - a == (x - a) - n * (x / n);
    ModDropPeriods(x - a, n, x / n);
  }

  /** Two numbers with equal remainders and less than n apart are equal. */
  lemma SameResidueClose(a: int, b: int, n: int)
    requires n > 0 && a % n == b % n && -n < a - b < n
    ensures a == b
  {
    assert a == n * (a / n) + a % n;
    assert b == n * (b / n) + b % n;
    var d := a / n - b / n;
    assert a - b == n * d;
    if d >= 1 {
      MulAtLeast(n, d);
    } else if d <= -1 {
      assert n * (-d) == -(n * d);
      MulAtLeast(n, -d);
    }
  }

  // ---------------------------------------------------------------------
  // Shift resolution and normalisation
  // ---------------------------------------------------------------------

  /** The shift along one axis before normalisation: with auto-half set it is
      half the dimension (rounded down), and the requested amount (already
      converted to whole pixels) is not looked at; otherwise it is that amount. */
  function ResolveShift(autoHalf: bool, dim: nat, requested: int): (s: int)
    ensures autoHalf ==> s == dim / 2
    ensures !autoHalf ==> s == requested
  {
    if autoHalf then dim / 2 else requested
  }

  /** The symmetric representative of a shift: congruent to the raw shift
      modulo the dimension and inside (-(dim - dim/2), dim/2]. A zero
      dimension leaves the shift as it is. */
  function Normalize(raw: int, dim: nat): (s: int)
    ensures dim == 0 ==> s == raw
    ensures dim > 0 ==> s % dim == raw % dim && -(dim - dim / 2) < s <= dim / 2
  {
    if dim == 0 then raw
    else
      var m := raw % dim;
      if m > dim / 2 then
        ModUnique(m - dim, dim, -1, m);
        m - dim
      else
        ModUnique(m, dim, 0, m);
        m
  }

  /** Normalize picks the ONLY value of its range in the raw shift's class. */
  lemma NormalizeUnique(raw: int, dim: nat, t: int)
    requires dim > 0
    ensures (t % dim == raw % dim && -(dim - dim / 2) < t <= dim / 2) <==> t == Normalize(raw, dim)
  {
    if t % dim == raw % dim && -(dim - dim / 2) < t <= dim / 2 {
      SameResidueClose(t, Normalize(raw, dim), dim);
    }
  }

  /** Normalising twice changes nothing. */
  lemma NormalizeIdempotent(raw: int, dim: nat)
    ensures Normalize(Normalize(raw, dim), dim) == Normalize(raw, dim)
  {
    if dim > 0 {
      NormalizeUnique(Normalize(raw, dim), dim, Normalize(raw, dim));
    }
  }

  /** The tie: a shift of exactly half the dimension stays positive (the test
      that moves a shift to the negative side is a strict comparison); with
      auto-half this is the shift every dimension ends with. */
  lemma AutoHalfShift(dim: nat, requested: int)
    ensures Normalize(ResolveShift(true, dim, requested), dim) == dim / 2
  {
    if dim > 0 {
      ModUnique(dim / 2, dim, 0, dim / 2);
      NormalizeUnique(dim / 2, dim, dim / 2);
    }
  }

  /** A raw shift that is a whole number of periods normalises to no shift. */
  lemma NormalizeZero(raw: int, dim: nat)
    requires if dim == 0 then raw == 0 else raw % dim == 0
    ensures Normalize(raw, dim) == 0
  {
    if dim > 0 {
      ModUnique(0, dim, 0, 0);
      NormalizeUnique(raw, dim, 0);
    }
  }

  // ---------------------------------------------------------------------
  // Wrap mode: a cyclic roll along height and width
  // ---------------------------------------------------------------------

  /** Cyclic rotation towards higher indices by k places: element i comes
      from index (i - k) mod |s|, so what leaves the end comes back at the
      front. */
  function Rotate<T>(s: seq<T>, k: int): (r: seq<T>)
    ensures |r| == |s|
  {
    seq(|s|, i requires 0 <= i < |s| => s[(i - k) % |s|])
  }

  /** A rotation is the cut-and-swap of the sequence at |s| - (k mod |s|):
      the tail that leaves the end, followed by the rest. */
  lemma RotateCutSwap<T>(s: seq<T>, k: int)
    requires |s| > 0
    ensures var m := k % |s|; Rotate(s, k) == s[|s| - m..] + s[..|s| - m]
  {
    var n := |s|;
    var m := k % n;
    var cut := s[n - m..] + s[..n - m];
    assert k == n * (k / n) + m;
    forall i | 0 <= i < n
      ensures Rotate(s, k)[i] == cut[i]
    {
      if i < m {
        assert i - k == n * (-1 - k / n) + (n - m + i);
        ModUnique(i - k, n, -1 - k / n, n - m + i);
      } else {
        assert i - k == n * (-(k / n)) + (i - m);
        ModUnique(i - k, n, -(k / n), i - m);
      }
    }
  }

  /** A rotation keeps every element, as often as it occurs. */
  lemma RotateKeepsElements<T>(s: seq<T>, k: int)
    ensures multiset(Rotate(s, k)) == multiset(s)
  {
    if |s| > 0 {
      var m := k % |s|;
      RotateCutSwap(s, k);
      assert s == s[..|s| - m] + s[|s| - m..];
    }
  }

  /** The two-axis roll: rows move down by dy and columns right by dx, both
      cyclically, in one joint rotation. */
  function Roll<P>(g: seq<seq<P>>, dy: int, dx: int): (r: seq<seq<P>>)
    ensures |r| == |g|
  {
    Rotate(seq(|g|, i requires 0 <= i < |g| => Rotate(g[i], dx)), dy)
  }

  /** Cell (i, j) of a roll is cell ((i - dy) mod h, (j - dx) mod w) of the
      input, and the roll keeps the grid's dimensions. */
  lemma RollAt<P>(g: seq<seq<P>>, h: nat, w: nat, dy: int, dx: int, i: int, j: int)
    requires IsGrid(g, h, w) && 0 <= i < h && 0 <= j < w
    ensures IsGrid(Roll(g, dy, dx), h, w)
    ensures 0 <= From(i, dy, h) < h && 0 <= From(j, dx, w) < w
    ensures Roll(g, dy, dx)[i][j] == g[From(i, dy, h)][From(j, dx, w)]
  {
    RollShape(g, h, w, dy, dx);
  }

  lemma RollShape<P>(g: seq<seq<P>>, h: nat, w: nat, dy: int, dx: int)
    requires IsGrid(g, h, w)
    ensures IsGrid(Roll(g, dy, dx), h, w)
  {
    forall i | 0 <= i < h
      ensures |Roll(g, dy, dx)[i]| == w
    {
    }
  }

  /** The input row (or column) that output index i of a roll by shift
      reads from. */
  function From(i: int, shift: int, n: nat): int
    requires n > 0
  {
    (i - shift) % n
  }

  /** The output row (or column) that input index p of a roll by shift
      moves to. */
  function To(p: int, shift: int, n: nat): int
    requires n > 0
  {
    (p + shift) % n
  }

  /** From and To are inverse maps of [0, n) onto itself. */
  lemma FromToInverse(p: int, shift: int, n: nat)
    requires 0 <= p < n
    ensures 0 <= To(p, shift, n) < n && From(To(p, shift, n), shift, n) == p
    ensures 0 <= From(p, shift, n) < n && To(From(p, shift, n), shift, n) == p
  {
    ModThenShift(p + shift, shift, n);
    ModThenShift(p - shift, -shift, n);
    ModUnique(p, n, 0, p);
  }

  lemma RollComposeAt<P>(g: seq<seq<P>>, h: nat, w: nat, a: int, b: int, c: int, d: int, i: int, j: int)
    requires IsGrid(g, h, w) && 0 <= i < h && 0 <= j < w
    ensures IsGrid(Roll(Roll(g, a, b), c, d), h, w)
    ensures Roll(Roll(g, a, b), c, d)[i][j] == Roll(g, a + c, b + d)[i][j]
  {
    var once := Roll(g, a, b);
    RollShape(g, h, w, a, b);
    RollAt(once, h, w, c, d, i, j);
    var i1, j1 := From(i, c, h), From(j, d, w);
    assert Roll(once, c, d)[i][j] == once[i1][j1];
    RollAt(g, h, w, a, b, i1, j1);
    assert once[i1][j1] == g[From(i1, a, h)][From(j1, b, w)];
    RollAt(g, h, w, a + c, b + d, i, j);
    assert Roll(g, a + c, b + d)[i][j] == g[From(i, a + c, h)][From(j, b + d, w)];
    FromCompose(i, c, a, h);
    FromCompose(j, d, b, w);
    assert From(i1, a, h) == From(i, a + c, h);
    assert From(j1, b, w) == From(j, b + d, w);
  }

  /** Reading back twice is reading back once by the summed shift. */
  lemma FromCompose(i: int, c: int, a: int, n: nat)
    requires n > 0
    ensures From(From(i, c, n), a, n) == From(i, a + c, n)
  {
    ModThenShift(i - c, a, n);
    assert i - c - a == i - (a + c);
  }

  /** Rolling twice is rolling once by the summed shifts. */
  lemma RollCompose<P>(g: seq<seq<P>>, h: nat, w: nat, a: int, b: int, c: int, d: int)
    requires IsGrid(g, h, w)
    ensures Roll(Roll(g, a, b), c, d) == Roll(g, a + c, b + d)
  {
    RollShape(g, h, w, a + c, b + d);
    RollShape(Roll(g, a, b), h, w, c, d);
    forall i, j | 0 <= i < h && 0 <= j < w
      ensures Roll(Roll(g, a, b), c, d)[i][j] == Roll(g, a + c, b + d)[i][j]
    {
      RollComposeAt(g, h, w, a, b, c, d, i, j);
    }
    GridExt(Roll(Roll(g, a, b), c, d), Roll(g, a + c, b + d), h, w);
  }

  lemma RollResidueAt<P>(g: seq<seq<P>>, h: nat, w: nat, a: int, b: int, a': int, b': int, i: int, j: int)
    requires IsGrid(g, h, w) && 0 <= i < h && 0 <= j < w
    requires a % h == a' % h && b % w == b' % w
    ensures Roll(g, a, b)[i][j] == Roll(g, a', b')[i][j]
  {
    RollAt(g, h, w, a, b, i, j);
    RollAt(g, h, w, a', b', i, j);
    ShiftResidue(i, a, a', h);
    ShiftResidue(j, b, b', w);
  }

  /** A roll depends on the shifts only modulo the dimensions. */
  lemma RollResidue<P>(g: seq<seq<P>>, h: nat, w: nat, a: int, b: int, a': int, b': int)
    requires IsGrid(g, h, w)
    requires h == 0 || a % h == a' % h
    requires w == 0 || b % w == b' % w
    ensures Roll(g, a, b) == Roll(g, a', b')
  {
    RollShape(g, h, w, a, b);
    RollShape(g, h, w, a', b');
    forall i, j | 0 <= i < h && 0 <= j < w
      ensures Roll(g, a, b)[i][j] == Roll(g, a', b')[i][j]
    {
      RollResidueAt(g, h, w, a, b, a', b', i, j);
    }
    GridExt(Roll(g, a, b), Roll(g, a', b'), h, w);
  }

  lemma ShiftResidue(i: int, a: int, a': int, n: nat)
    requires n > 0 && a % n == a' % n
    ensures (i - a) % n == (i - a') % n
  {
    assert i - a == (i - a % n) - n * (a / n);
    ModDropPeriods(i - a % n, n, a / n);
    assert i - a' == (i - a' % n) - n * (a' / n);
    ModDropPeriods(i - a' % n, n, a' / n);
  }

  lemma RollZeroAt<P>(g: seq<seq<P>>, h: nat, w: nat, i: int, j: int)
    requires IsGrid(g, h, w) && 0 <= i < h && 0 <= j < w
    ensures Roll(g, 0, 0)[i][j] == g[i][j]
  {
    RollAt(g, h, w, 0, 0, i, j);
    ModUnique(i, h, 0, i);
    ModUnique(j, w, 0, j);
  }

  /** Rolling by no shift is the identity. */
  lemma RollZero<P>(g: seq<seq<P>>, h: nat, w: nat)
    requires IsGrid(g, h, w)
    ensures Roll(g, 0, 0) == g
  {
    RollShape(g, h, w, 0, 0);
    forall i, j | 0 <= i < h && 0 <= j < w
      ensures Roll(g, 0, 0)[i][j] == g[i][j]
    {
      RollZeroAt(g, h, w, i, j);
    }
    GridExt(Roll(g, 0, 0), g, h, w);
  }

  /** Rolling by (dy, dx) and then by (-dy, -dx) gives the image back. */
  lemma RollRoundTrip<P>(g: seq<seq<P>>, h: nat, w: nat, dy: int, dx: int)
    requires IsGrid(g, h, w)
    ensures Roll(Roll(g, dy, dx), -dy, -dx) == g
  {
    var once := Roll(g, dy, dx);
    RollShape(g, h, w, dy, dx);
    RollShape(once, h, w, -dy, -dx);
    forall i, j | 0 <= i < h && 0 <= j < w
      ensures Roll(once, -dy, -dx)[i][j] == g[i][j]
    {
      RollAt(once, h, w, -dy, -dx, i, j);
      RollAt(g, h, w, dy, dx, From(i, -dy, h), From(j, -dx, w));
      FromUndo(i, dy, h);
      FromUndo(j, dx, w);
    }
    GridExt(Roll(once, -dy, -dx), g, h, w);
  }

  /** Reading back by -d and then by d returns to the starting index. */
  lemma FromUndo(i: int, d: int, n: nat)
    requires 0 <= i < n
    ensures From(From(i, -d, n), d, n) == i
  {
    ModThenShift(i - -d, d, n);
    ModUnique(i - -d - d, n, 0, i);
  }

  /** Every cell of a grid, counted with multiplicity. */
  function Cells<P>(g: seq<seq<P>>): multiset<P>
  {
    if |g| == 0 then multiset{} else Cells(g[..|g| - 1]) + multiset(g[|g| - 1])
  }

  lemma {:induction false} CellsAppend<P>(a: seq<seq<P>>, b: seq<seq<P>>)
    ensures Cells(a + b) == Cells(a) + Cells(b)
    decreases |b|
  {
    if |b| == 0 {
      assert a + b == a;
    } else {
      CellsAppend(a, b[..|b| - 1]);
      assert (a + b)[..|a + b| - 1] == a + b[..|b| - 1];
    }
  }

  /** Swapping two blocks of rows keeps the cells. */
  lemma CellsSwap<P>(a: seq<seq<P>>, b: seq<seq<P>>)
    ensures Cells(a + b) == Cells(b + a)
  {
    CellsAppend(a, b);
    CellsAppend(b, a);
  }

  /** Rotating every row of a grid keeps its cells. */
  lemma {:induction false} CellsRowsRotated<P>(g: seq<seq<P>>, dx: int)
    ensures Cells(seq(|g|, i requires 0 <= i < |g| => Rotate(g[i], dx))) == Cells(g)
    decreases |g|
  {
    if |g| > 0 {
      var n := |g|;
      var rows := seq(n, i requires 0 <= i < n => Rotate(g[i], dx));
      CellsRowsRotated(g[..n - 1], dx);
      assert rows[..n - 1] == seq(n - 1, i requires 0 <= i < n - 1 => Rotate(g[..n - 1][i], dx));
      RotateKeepsElements(g[n - 1], dx);
    }
  }

  /** The roll keeps every pixel of the image, as often as it occurs. */
  lemma RollKeepsCells<P>(g: seq<seq<P>>, dy: int, dx: int)
    ensures Cells(Roll(g, dy, dx)) == Cells(g)
  {
    var rows := seq(|g|, i requires 0 <= i < |g| => Rotate(g[i], dx));
    CellsRowsRotated(g, dx);
    if |rows| > 0 {
      var n, m := |rows|, dy % |rows|;
      var front, back := rows[..n - m], rows[n - m..];
      RotateCutSwap(rows, dy);
      assert rows == front + back;
      CellsSwap(front, back);
    }
  }

  /** The roll moves pixels without losing or duplicating any: input cell
      (p, q) lands at output cell (To(p), To(q)), and To is a bijection of
      each axis whose inverse is the From of RollAt. */
  lemma RollPermutes<P>(g: seq<seq<P>>, h: nat, w: nat, dy: int, dx: int)
    requires IsGrid(g, h, w)
    ensures IsGrid(Roll(g, dy, dx), h, w)
    ensures forall p, q :: 0 <= p < h && 0 <= q < w ==>
      0 <= To(p, dy, h) < h && 0 <= To(q, dx, w) < w &&
      Roll(g, dy, dx)[To(p, dy, h)][To(q, dx, w)] == g[p][q]
    ensures forall p :: 0 <= p < h ==> From(To(p, dy, h), dy, h) == p
    ensures forall i :: 0 <= i < h ==> 0 <= From(i, dy, h) < h && To(From(i, dy, h), dy, h) == i
    ensures forall q :: 0 <= q < w ==> From(To(q, dx, w), dx, w) == q
    ensures forall j :: 0 <= j < w ==> 0 <= From(j, dx, w) < w && To(From(j, dx, w), dx, w) == j
  {
    RollShape(g, h, w, dy, dx);
    forall p | 0 <= p < h
      ensures 0 <= To(p, dy, h) < h && From(To(p, dy, h), dy, h) == p
      ensures 0 <= From(p, dy, h) < h && To(From(p, dy, h), dy, h) == p
    {
      FromToInverse(p, dy, h);
    }
    forall q | 0 <= q < w
      ensures 0 <= To(q, dx, w) < w && From(To(q, dx, w), dx, w) == q
      ensures 0 <= From(q, dx, w) < w && To(From(q, dx, w), dx, w) == q
    {
      FromToInverse(q, dx, w);
    }
    forall p, q | 0 <= p < h && 0 <= q < w
      ensures Roll(g, dy, dx)[To(p, dy, h)][To(q, dx, w)] == g[p][q]
    {
      RollAt(g, h, w, dy, dx, To(p, dy, h), To(q, dx, w));
    }
  }

  // ---------------------------------------------------------------------
  // Fill modes: a flat canvas with one rectangle of the image pasted in
  // ---------------------------------------------------------------------

  /** One axis of the pasted rectangle: the first source index, the first
      destination index and the length copied. */
  datatype Span = Span(src: int, dst: int, len: int)

  predicate InSpan(sp: Span, i: int)
  {
    sp.dst <= i < sp.dst + sp.len
  }

  /** Output index i along an axis, shifted by shift, reads a source index
      that lies inside [0, dim). */
  predicate SourceInside(i: int, shift: int, dim: nat)
  {
    0 <= i < dim && 0 <= i - shift < dim
  }

  /** The copy range along one axis: a destination index is in the range
      exactly when it and the source index it reads both lie in the image,
      and each destination index reads the one shift places before it. */
  function CopySpan(shift: int, dim: nat): (sp: Span)
    ensures sp.src == sp.dst - shift
    ensures forall i :: InSpan(sp, i) <==> SourceInside(i, shift, dim)
  {
    if shift >= 0 then Span(0, shift, dim - shift)
    else Span(-shift, 0, dim + shift)
  }

  /** After normalisation of a shift along a non-empty axis the copy is never
      empty (so the early return for an empty rectangle is never taken) and
      both the source and the destination range lie inside the image. */
  lemma NormalizedSpanInBounds(raw: int, dim: nat)
    requires dim >= 1
    ensures var sp := CopySpan(Normalize(raw, dim), dim);
      1 <= sp.len &&
      0 <= sp.src && sp.src + sp.len <= dim &&
      0 <= sp.dst && sp.dst + sp.len <= dim
  {
  }

  /** The fill-mode result as a value: each cell whose source cell lies in the
      image shows that source cell, every other cell shows the fill. */
  function FillShifted<P>(img: seq<seq<P>>, h: nat, w: nat, fill: P, dy: int, dx: int): (r: seq<seq<P>>)
    requires IsGrid(img, h, w)
    ensures IsGrid(r, h, w)
  {
    seq(h, i requires 0 <= i < h =>
      seq(w, j requires 0 <= j < w =>
        if SourceInside(i, dy, h) && SourceInside(j, dx, w) then img[i - dy][j - dx] else fill))
  }

  /** Inside the destination rectangle the output is the source rectangle;
      everywhere else it is the fill. */
  lemma FillShiftedRectangle<P>(img: seq<seq<P>>, h: nat, w: nat, fill: P, dy: int, dx: int)
    requires IsGrid(img, h, w)
    ensures var r, ys, xs := FillShifted(img, h, w, fill, dy, dx), CopySpan(dy, h), CopySpan(dx, w);
      (forall i, j :: 0 <= i < h && 0 <= j < w && InSpan(ys, i) && InSpan(xs, j) ==>
        0 <= ys.src + (i - ys.dst) < h && 0 <= xs.src + (j - xs.dst) < w &&
        r[i][j] == img[ys.src + (i - ys.dst)][xs.src + (j - xs.dst)]) &&
      (forall i, j :: 0 <= i < h && 0 <= j < w && !(InSpan(ys, i) && InSpan(xs, j)) ==> r[i][j] == fill)
  {
  }

  /** A shift to the right only: the first dx columns are fill and the rest
      are the input's first w - dx columns. */
  lemma FillShiftedRight<P>(img: seq<seq<P>>, h: nat, w: nat, fill: P, dx: int)
    requires IsGrid(img, h, w) && 0 < dx < w
    ensures var r := FillShifted(img, h, w, fill, 0, dx);
      (forall i, j :: 0 <= i < h && 0 <= j < dx ==> r[i][j] == fill) &&
      (forall i, j :: 0 <= i < h && dx <= j < w ==> r[i][j] == img[i][j - dx])
  {
    var r := FillShifted(img, h, w, fill, 0, dx);
    forall i, j | 0 <= i < h && 0 <= j < w
      ensures j < dx ==> r[i][j] == fill
      ensures dx <= j ==> r[i][j] == img[i][j - dx]
    {
      assert SourceInside(i, 0, h);
    }
  }

  /** The canvas of the fill modes, built in place: an h x w array filled
      with the fill pixel, into which the rectangle of the image that stays
      visible is copied at its shifted position. */
  method ShiftFill<P>(img: seq<seq<P>>, h: nat, w: nat, fill: P, dy: int, dx: int) returns (out: array2<P>)
    requires IsGrid(img, h, w)
    ensures fresh(out) && out.Length0 == h && out.Length1 == w
    ensures forall i, j :: 0 <= i < h && 0 <= j < w ==>
      out[i, j] == if SourceInside(i, dy, h) && SourceInside(j, dx, w) then img[i - dy][j - dx] else fill
  {
    out := new P[h, w]((i, j) => fill);
    var xs := CopySpan(dx, w);
    var ys := CopySpan(dy, h);
    if xs.len <= 0 || ys.len <= 0 {
      return;
    }
    var a := 0;
    while a < ys.len
      invariant 0 <= a <= ys.len
      invariant forall i, j :: 0 <= i < h && 0 <= j < w ==>
        out[i, j] == if ys.dst <= i < ys.dst + a && InSpan(xs, j) then img[i - dy][j - dx] else fill
    {
      assert InSpan(ys, ys.dst + a);
      var b := 0;
      while b < xs.len
        invariant 0 <= b <= xs.len
        invariant forall i, j :: 0 <= i < h && 0 <= j < w ==>
          out[i, j] == if (ys.dst <= i < ys.dst + a && InSpan(xs, j)) || (i == ys.dst + a && xs.dst <= j < xs.dst + b)
                       then img[i - dy][j - dx] else fill
      {
        assert InSpan(xs, xs.dst + b);
        out[ys.dst + a, xs.dst + b] := img[ys.src + a][xs.src + b];
        b := b + 1;
      }
      a := a + 1;
    }
  }

  // ---------------------------------------------------------------------
  // The whole operator
  // ---------------------------------------------------------------------

  /** The pixel the exposed area gets: the given colour in fill_color mode and
      black in any other non-wrapping mode. */
  function FillPixel(edgeMode: string, fillR: real, fillG: real, fillB: real): (p: Pixel)
    ensures |p| == 3
    ensures edgeMode == "fill_color" ==> p == [fillR, fillG, fillB]
    ensures edgeMode != "fill_color" ==> forall ch :: 0 <= ch < 3 ==> p[ch] == 0.0
  {
    if edgeMode == "fill_color" then [fillR, fillG, fillB] else [0.0, 0.0, 0.0]
  }

  /** The normalised (dy, dx) shifts the operator applies to a tensor. */
  function Shifts(s: Shape, xRequested: int, yRequested: int, autoHalfWidth: bool, autoHalfHeight: bool): (d: (int, int))
    ensures s.h > 0 ==> -(s.h - s.h / 2) < d.0 <= s.h / 2
    ensures s.w > 0 ==> -(s.w - s.w / 2) < d.1 <= s.w / 2
  {
    (Normalize(ResolveShift(autoHalfHeight, s.h, yRequested), s.h),
     Normalize(ResolveShift(autoHalfWidth, s.w, xRequested), s.w))
  }

  /** Every image of the batch rolled by (dy, dx). */
  function RollAll(t: Tensor, dy: int, dx: int): (r: Tensor)
    requires t.Valid()
    ensures r.Valid() && r.shape == t.shape
  {
    var r := Tensor(t.shape, seq(|t.data|, k requires 0 <= k < |t.data| => Roll(t.data[k], dy, dx)));
    RollAllValid(t, r, dy, dx);
    r
  }

  lemma RollAllValid(t: Tensor, r: Tensor, dy: int, dx: int)
    requires t.Valid() && r.shape == t.shape
    requires r.data == seq(|t.data|, k requires 0 <= k < |t.data| => Roll(t.data[k], dy, dx))
    ensures r.Valid()
  {
    var s := t.shape;
    forall k | 0 <= k < s.b
      ensures IsImage(r.data[k], s.h, s.w, s.c)
    {
      var g := t.data[k];
      RollShape(g, s.h, s.w, dy, dx);
      forall i, j | 0 <= i < s.h && 0 <= j < s.w
        ensures |Roll(g, dy, dx)[i][j]| == s.c
      {
        RollAt(g, s.h, s.w, dy, dx, i, j);
      }
    }
  }

  /** Every image of the batch on its own fill canvas, shifted by (dy, dx). */
  function FillAll(t: Tensor, fill: Pixel, dy: int, dx: int): (r: Tensor)
    requires t.Valid() && |fill| == t.shape.c
    ensures r.Valid() && r.shape == t.shape
  {
    var s := t.shape;
    var r := Tensor(s, seq(|t.data|, k requires 0 <= k < |t.data| => FillShifted(t.data[k], s.h, s.w, fill, dy, dx)));
    assert forall k, i, j :: 0 <= k < s.b && 0 <= i < s.h && 0 <= j < s.w ==> |r.data[k][i][j]| == s.c by {
      forall k, i, j | 0 <= k < s.b && 0 <= i < s.h && 0 <= j < s.w
        ensures |r.data[k][i][j]| == s.c
      {
        if SourceInside(i, dy, s.h) && SourceInside(j, dx, s.w) {
          assert |t.data[k][i - dy][j - dx]| == s.c;
        }
      }
    }
    r
  }

  /** What the offset operator returns, as a value. */
  function OffsetSpec(v: Value, xRequested: int, yRequested: int, autoHalfWidth: bool, autoHalfHeight: bool,
                      edgeMode: string, fillR: real, fillG: real, fillB: real): (r: Result<Tensor>)
    requires WellFormed(v)
    ensures r.Ok? <==> v.Rank4? && v.t.shape.c == 3
    ensures r.Ok? ==> r.value.Valid() && r.value.shape == v.t.shape
  {
    match v
    case NotTensor => Err(NotATensor)
    case OtherRank(dims) => Err(BadRank(dims))
    case Rank4(t) =>
      if t.shape.c != 3 then Err(BadChannels(t.shape.c))
      else
        var (dy, dx) := Shifts(t.shape, xRequested, yRequested, autoHalfWidth, autoHalfHeight);
        if dx == 0 && dy == 0 then Ok(t)
        else if edgeMode == "wrap" then Ok(RollAll(t, dy, dx))
        else Ok(FillAll(t, FillPixel(edgeMode, fillR, fillG, fillB), dy, dx))
  }

  /** The offset operator: validates the input, resolves and normalises the
      shifts, and then returns the input itself, its roll, or filled canvases
      with the visible rectangle pasted in. */
  method Offset(v: Value, xRequested: int, yRequested: int, autoHalfWidth: bool, autoHalfHeight: bool,
                edgeMode: string, fillR: real, fillG: real, fillB: real) returns (r: Result<Tensor>)
    requires WellFormed(v)
    ensures r == OffsetSpec(v, xRequested, yRequested, autoHalfWidth, autoHalfHeight, edgeMode, fillR, fillG, fillB)
  {
    if v.NotTensor? {
      return Err(NotATensor);
    }
    if v.OtherRank? {
      return Err(BadRank(v.dims));
    }
    var t := v.t;
    var s := t.shape;
    if s.c != 3 {
      return Err(BadChannels(s.c));
    }
    var x := ResolveShift(autoHalfWidth, s.w, xRequested);
    var y := ResolveShift(autoHalfHeight, s.h, yRequested);
    x := Normalize(x, s.w);
    y := Normalize(y, s.h);
    if x == 0 && y == 0 {
      return Ok(t);
    }
    if edgeMode == "wrap" {
      return Ok(RollAll(t, y, x));
    }
    var fill := FillPixel(edgeMode, fillR, fillG, fillB);
    var out := FillBatch(t, fill, y, x);
    r := Ok(out);
  }

  /** The fill path over a whole batch, image by image through a canvas. */
  method FillBatch(t: Tensor, fill: Pixel, dy: int, dx: int) returns (r: Tensor)
    requires t.Valid() && |fill| == t.shape.c
    ensures r == FillAll(t, fill, dy, dx)
  {
    var s := t.shape;
    var out: Batch := [];
    var k := 0;
    while k < s.b
      invariant 0 <= k <= s.b
      invariant |out| == k
      invariant forall n :: 0 <= n < k ==> out[n] == FillShifted(t.data[n], s.h, s.w, fill, dy, dx)
    {
      var canvas := ShiftFill(t.data[k], s.h, s.w, fill, dy, dx);
      GridExt(Grid(canvas), FillShifted(t.data[k], s.h, s.w, fill, dy, dx), s.h, s.w);
      out := out + [Grid(canvas)];
      k := k + 1;
    }
    assert out == FillAll(t, fill, dy, dx).data;
    r := Tensor(s, out);
  }

  // ---------------------------------------------------------------------
  // Properties of the operator
  // ---------------------------------------------------------------------

  /** The operator fails exactly on a non-tensor, a rank other than 4 or a
      channel count other than 3, and on success returns a valid tensor of
      the input's shape. */
  lemma OffsetShape(v: Value, xRequested: int, yRequested: int, autoHalfWidth: bool, autoHalfHeight: bool,
                    edgeMode: string, fillR: real, fillG: real, fillB: real)
    requires WellFormed(v)
    ensures var r := OffsetSpec(v, xRequested, yRequested, autoHalfWidth, autoHalfHeight, edgeMode, fillR, fillG, fillB);
      (v.NotTensor? ==> r == Err(NotATensor)) &&
      (v.OtherRank? ==> r == Err(BadRank(v.dims))) &&
      (v.Rank4? && v.t.shape.c != 3 ==> r == Err(BadChannels(v.t.shape.c))) &&
      (v.Rank4? && v.t.shape.c == 3 ==> r.Ok? && r.value.shape == v.t.shape && r.value.Valid())
  {
  }

  /** In wrap mode the operator is the roll by the resolved shifts (half the
      dimension under auto-half, the requested amount otherwise):
      normalisation and the zero-shift shortcut change nothing a wrap
      produces. */
  lemma OffsetWrapIsRoll(t: Tensor, xRequested: int, yRequested: int, autoHalfWidth: bool, autoHalfHeight: bool,
                         fillR: real, fillG: real, fillB: real)
    requires t.Valid() && t.shape.c == 3
    ensures var yy, xx := ResolveShift(autoHalfHeight, t.shape.h, yRequested), ResolveShift(autoHalfWidth, t.shape.w, xRequested);
      OffsetSpec(Rank4(t), xRequested, yRequested, autoHalfWidth, autoHalfHeight, "wrap", fillR, fillG, fillB)
      == Ok(RollAll(t, yy, xx))
  {
    var s := t.shape;
    var yy, xx := ResolveShift(autoHalfHeight, s.h, yRequested), ResolveShift(autoHalfWidth, s.w, xRequested);
    var (dy, dx) := Shifts(s, xRequested, yRequested, autoHalfWidth, autoHalfHeight);
    var raw := RollAll(t, yy, xx);
    forall k | 0 <= k < s.b
      ensures raw.data[k] == (if dx == 0 && dy == 0 then t else RollAll(t, dy, dx)).data[k]
    {
      RollResidue(t.data[k], s.h, s.w, dy, dx, yy, xx);
      if dx == 0 && dy == 0 {
        RollZero(t.data[k], s.h, s.w);
      }
    }
    assert raw.data == (if dx == 0 && dy == 0 then t else RollAll(t, dy, dx)).data;
  }

  /** Wrap mode: output pixel (i, j) of every image is input pixel
      ((i - y) mod h, (j - x) mod w) for the resolved shifts (x, y); under
      auto-half these are (w / 2, h / 2), the panorama half-turn. */
  lemma OffsetWrapAt(t: Tensor, xRequested: int, yRequested: int, autoHalfWidth: bool, autoHalfHeight: bool,
                     fillR: real, fillG: real, fillB: real, k: int, i: int, j: int)
    requires t.Valid() && t.shape.c == 3
    requires 0 <= k < t.shape.b && 0 <= i < t.shape.h && 0 <= j < t.shape.w
    ensures var yy, xx := ResolveShift(autoHalfHeight, t.shape.h, yRequested), ResolveShift(autoHalfWidth, t.shape.w, xRequested);
      var r := OffsetSpec(Rank4(t), xRequested, yRequested, autoHalfWidth, autoHalfHeight, "wrap", fillR, fillG, fillB);
      r.Ok? && r.value.data[k][i][j] == t.data[k][(i - yy) % t.shape.h][(j - xx) % t.shape.w]
  {
    var yy, xx := ResolveShift(autoHalfHeight, t.shape.h, yRequested), ResolveShift(autoHalfWidth, t.shape.w, xRequested);
    OffsetWrapIsRoll(t, xRequested, yRequested, autoHalfWidth, autoHalfHeight, fillR, fillG, fillB);
    RollAt(t.data[k], t.shape.h, t.shape.w, yy, xx, i, j);
  }

  /** Wrap mode only moves pixels: every output image holds the pixels of
      its input image, each as often as before. */
  lemma OffsetWrapKeepsCells(t: Tensor, xRequested: int, yRequested: int, autoHalfWidth: bool, autoHalfHeight: bool,
                             fillR: real, fillG: real, fillB: real, k: int)
    requires t.Valid() && t.shape.c == 3 && 0 <= k < t.shape.b
    ensures var r := OffsetSpec(Rank4(t), xRequested, yRequested, autoHalfWidth, autoHalfHeight, "wrap", fillR, fillG, fillB);
      r.Ok? && r.value.shape == t.shape && Cells(r.value.data[k]) == Cells(t.data[k])
  {
    var yy, xx := ResolveShift(autoHalfHeight, t.shape.h, yRequested), ResolveShift(autoHalfWidth, t.shape.w, xRequested);
    OffsetWrapIsRoll(t, xRequested, yRequested, autoHalfWidth, autoHalfHeight, fillR, fillG, fillB);
    RollKeepsCells(t.data[k], yy, xx);
  }

  /** Wrap mode undoes itself: offsetting by the resolved shifts (x, y), with
      or without auto-half, and then requesting (-x, -y) restores the batch. */
  lemma OffsetWrapRoundTrip(t: Tensor, xRequested: int, yRequested: int, autoHalfWidth: bool, autoHalfHeight: bool,
                            fillR: real, fillG: real, fillB: real)
    requires t.Valid() && t.shape.c == 3
    ensures var yy, xx := ResolveShift(autoHalfHeight, t.shape.h, yRequested), ResolveShift(autoHalfWidth, t.shape.w, xRequested);
      var r := OffsetSpec(Rank4(t), xRequested, yRequested, autoHalfWidth, autoHalfHeight, "wrap", fillR, fillG, fillB);
      r.Ok? && r.value.Valid() &&
      OffsetSpec(Rank4(r.value), -xx, -yy, false, false, "wrap", fillR, fillG, fillB) == Ok(t)
  {
    var s := t.shape;
    var yy, xx := ResolveShift(autoHalfHeight, s.h, yRequested), ResolveShift(autoHalfWidth, s.w, xRequested);
    var u := RollAll(t, yy, xx);
    OffsetWrapIsRoll(t, xRequested, yRequested, autoHalfWidth, autoHalfHeight, fillR, fillG, fillB);
    OffsetWrapIsRoll(u, -xx, -yy, false, false, fillR, fillG, fillB);
    var back := RollAll(u, -yy, -xx);
    forall k | 0 <= k < s.b
      ensures back.data[k] == t.data[k]
    {
      RollRoundTrip(t.data[k], s.h, s.w, yy, xx);
    }
    assert back.data == t.data;
  }

  /** Fill modes: every output pixel whose source lies inside the image is
      that source pixel, every other pixel is the fill colour (black unless
      the mode is fill_color); this holds for the zero-shift shortcut too. */
  lemma OffsetFillAt(t: Tensor, xRequested: int, yRequested: int, autoHalfWidth: bool, autoHalfHeight: bool,
                     edgeMode: string, fillR: real, fillG: real, fillB: real, k: int, i: int, j: int)
    requires t.Valid() && t.shape.c == 3 && edgeMode != "wrap"
    requires 0 <= k < t.shape.b && 0 <= i < t.shape.h && 0 <= j < t.shape.w
    ensures var (dy, dx) := Shifts(t.shape, xRequested, yRequested, autoHalfWidth, autoHalfHeight);
      var r := OffsetSpec(Rank4(t), xRequested, yRequested, autoHalfWidth, autoHalfHeight, edgeMode, fillR, fillG, fillB);
      r.Ok? &&
      r.value.data[k][i][j] ==
        if SourceInside(i, dy, t.shape.h) && SourceInside(j, dx, t.shape.w) then t.data[k][i - dy][j - dx]
        else FillPixel(edgeMode, fillR, fillG, fillB)
  {
  }

  /** A resolved shift of a whole number of periods on both axes returns the
      input itself, in every mode. Under auto-half the resolved shift is
      dim / 2, whatever was requested. */
  lemma OffsetWholePeriods(t: Tensor, xRequested: int, yRequested: int, autoHalfWidth: bool, autoHalfHeight: bool,
                           edgeMode: string, fillR: real, fillG: real, fillB: real)
    requires t.Valid() && t.shape.c == 3
    requires var xx := ResolveShift(autoHalfWidth, t.shape.w, xRequested);
      if t.shape.w == 0 then xx == 0 else xx % t.shape.w == 0
    requires var yy := ResolveShift(autoHalfHeight, t.shape.h, yRequested);
      if t.shape.h == 0 then yy == 0 else yy % t.shape.h == 0
    ensures OffsetSpec(Rank4(t), xRequested, yRequested, autoHalfWidth, autoHalfHeight, edgeMode, fillR, fillG, fillB) == Ok(t)
  {
    NormalizeZero(ResolveShift(autoHalfWidth, t.shape.w, xRequested), t.shape.w);
    NormalizeZero(ResolveShift(autoHalfHeight, t.shape.h, yRequested), t.shape.h);
  }
}
