/**
 * The geometry of Image::Blit, one axis at a time: which destination
 * columns (or rows) it writes, and which source texture coordinate it
 * samples for each of them. Coordinates are exact reals; the source uses
 * floats.
 */
module BlitGeometry {
  import opened Util
  import opened Sampling

  /**
   * One clipped axis of a Blit: destination coordinates lo <= X < hi are
   * written, the first of them sampling at start, each next one step further.
   */
  datatype Axis = Axis(lo: int, hi: int, start: real, step: real)

  /** Whether destination coordinate X is one the axis writes. */
  predicate Covers(a: Axis, X: int) {
    a.lo <= X < a.hi
  }

  /** The texture coordinate sampled at destination coordinate X: the walk from start by step. */
  function SampleAt(a: Axis, X: int): real {
    a.start + (X - a.lo) as real * a.step
  }

  /**
   * The texture coordinate of source column (or row) s on an axis of n
   * pixels: s / (n - 1). With n == 1 the source divides by zero; the model
   * takes 0, where every coordinate picks the only pixel.
   */
  function Uv(s: int, n: int): (t: real)
    ensures n > 1 && 0 <= s <= n - 1 ==> 0.0 <= t <= 1.0
    ensures n > 1 && s == 0 ==> t == 0.0
    ensures n > 1 && s == n - 1 ==> t == 1.0
  {
    if n > 1 then s as real / (n - 1) as real else 0.0
  }

  /**
   * The change of texture coordinate per destination pixel,
   * (t2 - t1) / (d2 - d1). When d1 == d2 the float division gives an
   * infinity or NaN that no written pixel uses; the model takes 0.
   */
  function Step(t1: real, t2: real, d1: int, d2: int): (step: real)
    ensures d1 == d2 ==> step == 0.0
    ensures d1 != d2 ==> t1 + (d2 - d1) as real * step == t2
  {
    if d1 == d2 then 0.0
    else
      MulDivReal(t2 - t1, (d2 - d1) as real);
      (t2 - t1) / (d2 - d1) as real
  }

  /**
   * One axis of the clipping in Blit as the source writes it. A reversed
   * range d2 < d1 is swapped together with t1 and t2, so the walk starts at
   * t2; a start below 0 is moved to 0 and the walk advanced to match; the
   * end is clamped to the image size dim.
   */
  function ClipAxisAsWritten(t1: real, t2: real, d1: int, d2: int, dim: int): (a: Axis)
    ensures a.lo == Max(0, Min(d1, d2)) && a.hi == Min(dim, Max(d1, d2))
    ensures a.step == Step(t1, t2, d1, d2)
  {
    var step := Step(t1, t2, d1, d2);
    if d2 < d1 then
      if d2 < 0 then Axis(0, Min(dim, d1), t2 - step * d2 as real, step)
      else Axis(d2, Min(dim, d1), t2, step)
    else if d1 < 0 then Axis(0, Min(dim, d2), t1 + step * (-d1) as real, step)
    else Axis(d1, Min(dim, d2), t1, step)
  }

  /**
   * The clipping with a reversed range walking the same samples as the
   * forward range in the opposite order: the swapped walk starts one step
   * from t2 towards t1, at the last sample the forward walk takes.
   */
  function ClipAxis(t1: real, t2: real, d1: int, d2: int, dim: int): (a: Axis)
    ensures a.lo == Max(0, Min(d1, d2)) && a.hi == Min(dim, Max(d1, d2))
    ensures a.step == Step(t1, t2, d1, d2)
  {
    var step := Step(t1, t2, d1, d2);
    if d2 < d1 then
      var base := t2 + step;
      if d2 < 0 then Axis(0, Min(dim, d1), base - step * d2 as real, step)
      else Axis(d2, Min(dim, d1), base, step)
    else if d1 < 0 then Axis(0, Min(dim, d2), t1 + step * (-d1) as real, step)
    else Axis(d1, Min(dim, d2), t1, step)
  }

  /** On a forward range the corrected clipping is the clipping as written. */
  lemma ClipAxisForward(t1: real, t2: real, d1: int, d2: int, dim: int)
    requires d1 <= d2
    ensures ClipAxis(t1, t2, d1, d2, dim) == ClipAxisAsWritten(t1, t2, d1, d2, dim)
  {
  }

  /**
   * The written coordinates are exactly those in
   * [Max(0, Min(d1, d2)), Min(dim, Max(d1, d2))): inside the image, and
   * none at all when the two ends coincide.
   */
  lemma ClipAxisCovers(t1: real, t2: real, d1: int, d2: int, dim: int, X: int)
    ensures Covers(ClipAxis(t1, t2, d1, d2, dim), X) <==>
      Max(0, Min(d1, d2)) <= X < Min(dim, Max(d1, d2))
    ensures Covers(ClipAxis(t1, t2, d1, d2, dim), X) ==> 0 <= X < dim
    ensures d1 == d2 ==> !Covers(ClipAxis(t1, t2, d1, d2, dim), X)
  {
  }

  /**
   * Moving a negative start to 0 keeps the walk on the same line: in both
   * branches the sample at X is the unclipped start plus (X - start) steps.
   */
  lemma ClipAxisAsWrittenLine(t1: real, t2: real, d1: int, d2: int, dim: int, X: int)
    ensures SampleAt(ClipAxisAsWritten(t1, t2, d1, d2, dim), X) ==
      if d2 < d1 then t2 + (X - d2) as real * Step(t1, t2, d1, d2)
      else t1 + (X - d1) as real * Step(t1, t2, d1, d2)
  {
    var step := Step(t1, t2, d1, d2);
    if d2 < d1 && d2 < 0 {
      assert (X - 0) as real * step - step * d2 as real == (X - d2) as real * step;
    } else if d2 >= d1 && d1 < 0 {
      assert step * (-d1) as real + (X - 0) as real * step == (X - d1) as real * step;
    }
  }

  /** The same for the corrected clipping, whose reversed walk starts one step on from t2. */
  lemma ClipAxisLine(t1: real, t2: real, d1: int, d2: int, dim: int, X: int)
    ensures SampleAt(ClipAxis(t1, t2, d1, d2, dim), X) ==
      if d2 < d1 then t2 + (X - d2 + 1) as real * Step(t1, t2, d1, d2)
      else t1 + (X - d1) as real * Step(t1, t2, d1, d2)
  {
    var step := Step(t1, t2, d1, d2);
    if d2 < d1 && d2 < 0 {
      assert step + (X - 0) as real * step - step * d2 as real == (X - d2 + 1) as real * step;
    } else if d2 < d1 {
      assert step + (X - d2) as real * step == (X - d2 + 1) as real * step;
    } else if d1 < 0 {
      assert step * (-d1) as real + (X - 0) as real * step == (X - d1) as real * step;
    }
  }

  /**
   * As written, reversing the destination range is the same as keeping it
   * and exchanging t1 and t2: the same coordinates, walked from t2 to t1.
   */
  lemma MirrorAsWrittenSwapsEnds(t1: real, t2: real, d1: int, d2: int, dim: int)
    requires d1 < d2
    ensures ClipAxisAsWritten(t1, t2, d2, d1, dim) == ClipAxisAsWritten(t2, t1, d1, d2, dim)
  {
    assert Step(t1, t2, d2, d1) == Step(t2, t1, d1, d2) by {
      assert (t2 - t1) / (d1 - d2) as real == (t1 - t2) / (d2 - d1) as real;
    }
  }

  /**
   * As written, the reversed walk at X is the forward walk at d1 + d2 - X,
   * one pixel off the mirror image d1 + d2 - 1 - X of X in [d1, d2).
   */
  lemma MirrorAsWrittenOffByOne(t1: real, t2: real, d1: int, d2: int, dim: int, dim': int, X: int)
    requires d1 < d2
    ensures SampleAt(ClipAxisAsWritten(t1, t2, d2, d1, dim), X) ==
            SampleAt(ClipAxisAsWritten(t1, t2, d1, d2, dim'), d1 + d2 - X)
  {
    ClipAxisAsWrittenLine(t1, t2, d2, d1, dim, X);
    ClipAxisAsWrittenLine(t1, t2, d1, d2, dim', d1 + d2 - X);
    StepReversed(t1, t2, d1, d2);
  }

  /** The corrected reversed walk at X is the forward walk at the mirror image d1 + d2 - 1 - X. */
  lemma MirrorReverses(t1: real, t2: real, d1: int, d2: int, dim: int, dim': int, X: int)
    requires d1 < d2
    ensures SampleAt(ClipAxis(t1, t2, d2, d1, dim), X) ==
            SampleAt(ClipAxis(t1, t2, d1, d2, dim'), d1 + d2 - 1 - X)
  {
    ClipAxisLine(t1, t2, d2, d1, dim, X);
    ClipAxisLine(t1, t2, d1, d2, dim', d1 + d2 - 1 - X);
    StepReversed(t1, t2, d1, d2);
  }

  /** The step of a reversed range is the negated forward step, and d2 - d1 forward steps lead from t1 to t2. */
  lemma StepReversed(t1: real, t2: real, d1: int, d2: int)
    requires d1 < d2
    ensures Step(t1, t2, d2, d1) == -Step(t1, t2, d1, d2)
    ensures t1 + (d2 - d1) as real * Step(t1, t2, d1, d2) == t2
  {
    var n := (d2 - d1) as real;
    MulDivReal(t2 - t1, n);
    assert (t2 - t1) / (d1 - d2) as real == -((t2 - t1) / n);
  }

  /**
   * Blitting a whole w-pixel-wide source onto w destination pixels from 0
   * takes column X from source column X: the forward walk samples X / (w - 1).
   */
  lemma IdentityColumn(w: int, dim: int, X: int)
    requires w >= 2 && 0 <= X < w
    ensures NearestIndex(w, SampleAt(ClipAxisAsWritten(Uv(0, w), Uv(w, w), 0, w, dim), X)) == X
  {
    var a := ClipAxisAsWritten(Uv(0, w), Uv(w, w), 0, w, dim);
    var n := (w - 1) as real;
    assert a.start == 0.0;
    StepReversed(Uv(0, w), Uv(w, w), 0, w);
    WholeRowStep(w);
    ScaledColumn(w, X as real);
  }

  /** On a whole w-pixel row the step is 1 / (w - 1): one source pixel per destination pixel. */
  lemma WholeRowStep(w: int)
    requires w >= 2
    ensures Step(Uv(0, w), Uv(w, w), 0, w) == 1.0 / (w - 1) as real
    ensures Step(Uv(0, w), Uv(w, w), w, 0) == -(1.0 / (w - 1) as real)
  {
    var n := (w - 1) as real;
    assert Uv(w, w) == w as real / n;
    assert Uv(0, w) == 0.0;
    DivRealUnique(w as real / n, w as real, 1.0 / n);
    StepReversed(Uv(0, w), Uv(w, w), 0, w);
  }

  /** A coordinate of k / (w - 1) picks index k of w when k is a whole number in range. */
  lemma ScaledColumn(w: int, k: real)
    requires w >= 2 && 0.0 <= k && k.Floor as real == k && k < w as real
    ensures NearestIndex(w, k * (1.0 / (w - 1) as real)) == k.Floor
  {
    var n := (w - 1) as real;
    assert n * (k * (1.0 / n)) == k;
    NearestIndexInCell(w, k * (1.0 / n), k.Floor);
  }

  /**
   * As written, mirroring a whole w-pixel row onto [0, w) makes the first
   * destination column sample source column w, one past the end of the row.
   */
  lemma MirrorAsWrittenReadsPastRow(w: int, dim: int)
    requires w >= 2
    ensures NearestIndex(w, SampleAt(ClipAxisAsWritten(Uv(0, w), Uv(w, w), w, 0, dim), 0)) == w
  {
    var a := ClipAxisAsWritten(Uv(0, w), Uv(w, w), w, 0, dim);
    var n := (w - 1) as real;
    assert a.lo == 0 && a.start == Uv(w, w) == w as real / n;
    assert SampleAt(a, 0) == w as real / n;
    MulDivReal(w as real, n);
    TruncInCell(n * (w as real / n), w);
  }

  /**
   * Corrected, mirroring a whole w-pixel row onto [0, w) takes destination
   * column X from source column w - 1 - X.
   */
  lemma MirrorColumn(w: int, dim: int, X: int)
    requires w >= 2 && 0 <= X < w
    ensures NearestIndex(w, SampleAt(ClipAxis(Uv(0, w), Uv(w, w), w, 0, dim), X)) == w - 1 - X
  {
    MirrorReverses(Uv(0, w), Uv(w, w), 0, w, dim, dim, X);
    ClipAxisForward(Uv(0, w), Uv(w, w), 0, w, dim);
    IdentityColumn(w, dim, w - 1 - X);
  }
}
