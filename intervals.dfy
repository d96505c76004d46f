/**
 * Index intervals.  `Interval` is the finite `[origin, origin + size)` interval
 * given by an input origin and shape; `HalfOpen` is an interval of output
 * values whose bounds may be infinite (an irregular grid's outermost cells).
 */
module Intervals {
  import opened Options

  /** The finite interval `[origin, origin + size)`. */
  datatype Interval = Interval(origin: int, size: nat) {
    function Hi(): int { origin + size }
    predicate Contains(x: int) { origin <= x < origin + size }
  }

  /** `[lower, upper)`, where an absent bound means unbounded on that side. */
  datatype HalfOpen = HalfOpen(lower: Option<int>, upper: Option<int>) {
    predicate Contains(x: int) {
      (lower.None? || lower.value <= x) && (upper.None? || x < upper.value)
    }
  }

  const Everything: HalfOpen := HalfOpen(None, None)
  const Nothing: HalfOpen := HalfOpen(Some(0), Some(0))

  function Intersect(a: HalfOpen, b: HalfOpen): (r: HalfOpen)
    ensures forall x :: r.Contains(x) <==> a.Contains(x) && b.Contains(x)
  {
    var lo :=
      if a.lower.None? then b.lower
      else if b.lower.None? then a.lower
      else Some(if a.lower.value < b.lower.value then b.lower.value else a.lower.value);
    var hi :=
      if a.upper.None? then b.upper
      else if b.upper.None? then a.upper
      else Some(if a.upper.value < b.upper.value then a.upper.value else b.upper.value);
    HalfOpen(lo, hi)
  }

  /** The part of `r` inside the finite interval `domain`, as a finite interval. */
  function Clip(domain: Interval, r: HalfOpen): (i: Interval)
    ensures forall x :: i.Contains(x) <==> domain.Contains(x) && r.Contains(x)
    ensures domain.size > 0 || i.size == 0
  {
    var lo := if r.lower.Some? && r.lower.value > domain.origin then r.lower.value else domain.origin;
    var hi := if r.upper.Some? && r.upper.value < domain.Hi() then r.upper.value else domain.Hi();
    Interval(lo, if hi < lo then 0 else hi - lo)
  }

  /** Multiplication by a non-negative factor is monotone. */
  lemma MulMonotone(a: int, x: int, y: int)
    requires a >= 0 && x <= y
    ensures a * x <= a * y
  {
    var d := y - x;
    assert a * y == a * x + a * d;
  }

  /** Dafny's `/` by a positive divisor is floor division: `x <= b / a` exactly when `a * x <= b`. */
  lemma FloorDivLe(a: int, b: int, x: int)
    requires a > 0
    ensures x <= b / a <==> a * x <= b
  {
    var q := b / a;
    assert b == a * q + b % a && 0 <= b % a < a;
    if x <= q {
      MulMonotone(a, x, q);
    } else {
      MulMonotone(a, q + 1, x);
      assert a * (q + 1) == a * q + a;
    }
  }

  /** The solutions `x` of the linear inequality `a * x <= b`. */
  function SolveLe(a: int, b: int): HalfOpen
  {
    if a > 0 then HalfOpen(None, Some(b / a + 1))
    else if a < 0 then HalfOpen(Some(-(b / -a)), None)
    else if 0 <= b then Everything
    else Nothing
  }

  lemma SolveLeExact(a: int, b: int, x: int)
    ensures SolveLe(a, b).Contains(x) <==> a * x <= b
  {
    if a > 0 {
      FloorDivLe(a, b, x);
    } else if a < 0 {
      FloorDivLe(-a, b, -x);
      assert (-a) * (-x) == a * x;
    }
  }

  /** The inputs `x` for which `offset + stride * x` lies in `r`. */
  function AffinePreimage(offset: int, stride: int, r: HalfOpen): HalfOpen
  {
    var fromLower := if r.lower.None? then Everything else SolveLe(-stride, offset - r.lower.value);
    var fromUpper := if r.upper.None? then Everything else SolveLe(stride, r.upper.value - 1 - offset);
    Intersect(fromLower, fromUpper)
  }

  lemma AffinePreimageExact(offset: int, stride: int, r: HalfOpen, x: int)
    ensures AffinePreimage(offset, stride, r).Contains(x) <==> r.Contains(offset + stride * x)
  {
    if r.lower.Some? {
      SolveLeExact(-stride, offset - r.lower.value, x);
      assert (-stride) * x == -(stride * x);
    }
    if r.upper.Some? {
      SolveLeExact(stride, r.upper.value - 1 - offset, x);
    }
  }
}
