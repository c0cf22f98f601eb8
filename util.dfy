/** Small shared definitions: an optional value and integer helpers. */
module Util {

  datatype Option<T> = None | Some(value: T)

  function Min(a: int, b: int): int {
    if a < b then a else b
  }

  function Max(a: int, b: int): int {
    if a < b then b else a
  }

  function Abs(a: int): nat {
    if a < 0 then -a else a
  }

  /** A float converted to Sint32: truncation towards zero. */
  function Trunc(x: real): int {
    if x >= 0.0 then x.Floor else -((-x).Floor)
  }

  /** On a non-negative value truncation is the floor, so it stays below any bound above the value. */
  lemma TruncNonNegative(x: real, bound: int)
    requires 0.0 <= x < bound as real
    ensures 0 <= Trunc(x) < bound
    ensures Trunc(x) as real <= x < Trunc(x) as real + 1.0
  {
  }

  /** A value in [c, c + 1) with c >= 0 truncates to c. */
  lemma TruncInCell(x: real, c: int)
    requires 0 <= c && c as real <= x < c as real + 1.0
    ensures Trunc(x) == c
  {
  }

  /** Multiplying a quotient by its divisor gives back the dividend. */
  lemma MulDivReal(a: real, b: real)
    requires b != 0.0
    ensures b * (a / b) == a
  {
  }

  /** The quotient x / d is the one q with q * d == x. */
  lemma DivRealUnique(x: real, d: real, q: real)
    requires d != 0.0 && q * d == x
    ensures x / d == q
  {
  }

  /** Scaling a non-negative value by a factor in [0, 1] keeps it in [0, d]. */
  lemma MulUnitReal(d: real, t: real)
    requires 0.0 <= d && 0.0 <= t <= 1.0
    ensures 0.0 <= d * t <= d
  {
    assert d * (1.0 - t) >= 0.0;
  }

  /** A whole number converts to itself. */
  lemma TruncOfInt(n: int)
    ensures Trunc(n as real) == n
  {
  }

  /** Integer division truncating towards zero, as C++ divides Sint32 values. */
  function TruncDiv(a: int, b: int): int
    requires b != 0
  {
    var q := Abs(a) / Abs(b);
    if (a < 0) != (b < 0) then -q else q
  }

  /** Multiplying by a non-negative factor keeps an order. */
  lemma {:induction false} MulMono(a: int, b: int, w: nat)
    requires a <= b
    ensures a * w <= b * w
  {
    if w > 0 {
      MulMono(a, b, w - 1);
      assert a * w == a * (w - 1) + a;
      assert b * w == b * (w - 1) + b;
    }
  }

  /** A product of two positive numbers is at least either of them. */
  lemma MulPositive(a: int, b: int)
    requires 0 < a && 0 < b
    ensures a <= a * b && b <= a * b
  {
    MulMono(1, b, a);
    MulMono(1, a, b);
  }

  /** Division by w recovers q and r from q * w + r when 0 <= r < w. */
  lemma DivModUnique(n: int, q: int, r: int, w: int)
    requires 0 < w && 0 <= r < w && n == q * w + r
    ensures n / w == q && n % w == r
  {
    var q' := n / w;
    var r' := n % w;
    assert n == q' * w + r';
    assert (q - q') * w == r' - r;
    if q - q' >= 1 {
      MulMono(1, q - q', w);
      assert false;
    } else if q - q' <= -1 {
      MulMono(q - q', -1, w);
      assert false;
    }
  }

  /**
   * The flat index y * w + x of a pixel inside a w x h row-major buffer lies
   * in the buffer, and column and row are recovered from it.
   */
  lemma FlatIndex(x: int, y: int, w: int, h: int)
    requires 0 <= x < w && 0 <= y < h
    ensures 0 <= y * w + x < w * h
    ensures (y * w + x) % w == x && (y * w + x) / w == y
  {
    MulMono(0, y, w);
    MulMono(y + 1, h, w);
    assert (y + 1) * w == y * w + w;
    assert h * w == w * h;
    DivModUnique(y * w + x, y, x, w);
  }

  /** An index has column x and row y exactly when it is the flat index y * w + x. */
  lemma SameCell(i: int, x: int, y: int, w: int)
    requires 0 <= i && 0 <= x < w && 0 <= y
    ensures (i % w == x && i / w == y) <==> i == y * w + x
  {
    if i == y * w + x {
      DivModUnique(i, y, x, w);
    }
  }

  /** Every index of a w-wide buffer is its row times w plus its column. */
  lemma RowColumn(i: int, w: int)
    requires 0 <= i && 0 < w
    ensures i == (i / w) * w + i % w && 0 <= i % w < w && 0 <= i / w
  {
  }
}
