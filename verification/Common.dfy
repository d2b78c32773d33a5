/** Nullable values and the number rounding that the modelled program relies on. */
module Common {
  datatype Option<+T> = None | Some(value: T)

  /** The nullish coalescing operator `a ?? b` between two nullable values. */
  function OrElse<T>(a: Option<T>, b: Option<T>): Option<T> {
    if a.Some? then a else b
  }

  /** `Math.round`: the nearest integer, ties upwards. */
  function Round(x: real): int {
    (x + 0.5).Floor
  }

  function Min(a: int, b: int): int {
    if a <= b then a else b
  }

  function Max(a: int, b: int): int {
    if a <= b then b else a
  }

  function Bit(b: bool): nat {
    if b then 1 else 0
  }

  function MinReal(a: real, b: real): real {
    if a <= b then a else b
  }

  function MaxReal(a: real, b: real): real {
    if a <= b then b else a
  }

  /** Rounds and clamps to 0..100; shared by job progress, matching scores and the rule engine. */
  function ClampScore(x: real): int {
    Max(0, Min(100, Round(x)))
  }

  /** Rounding moves a value across an integer bound exactly at the half below it. */
  lemma RoundBelow(x: real, n: int)
    ensures Round(x) < n <==> x < n as real - 0.5
  {
    var f := (x + 0.5).Floor;
    assert f as real <= x + 0.5 < f as real + 1.0;
    if f < n {
      assert f + 1 <= n;
      assert (f + 1) as real <= n as real;
    } else {
      assert n as real <= f as real;
    }
  }

  lemma RoundMonotone(x: real, y: real)
    requires x <= y
    ensures Round(x) <= Round(y)
  {
    RoundBelow(y, Round(x));
    RoundBelow(x, Round(x));
  }

  lemma RoundOfInt(n: int)
    ensures Round(n as real) == n
  {
    RoundBelow(n as real, n);
    RoundBelow(n as real, n + 1);
  }

  /** `n` is the nearest integer to `x`, ties upwards. */
  predicate IsNearest(n: int, x: real) {
    n as real - 0.5 <= x < n as real + 0.5
  }

  lemma RoundIsNearest(x: real)
    ensures IsNearest(Round(x), x)
  {
    RoundBelow(x, Round(x));
    RoundBelow(x, Round(x) + 1);
  }

  /** The same, held within 0..100. */
  predicate IsPercent(n: int, x: real) {
    && 0 <= n <= 100
    && (x < n as real - 0.5 ==> n == 0)
    && (x >= n as real + 0.5 ==> n == 100)
  }

  lemma ClampScoreIsPercent(x: real)
    ensures IsPercent(ClampScore(x), x)
    ensures forall n :: IsPercent(n, x) ==> n == ClampScore(x)
  {
    forall n | IsPercent(n, x) ensures n == ClampScore(x) {
      RoundBelow(x, n);
      RoundBelow(x, n + 1);
    }
    RoundBelow(x, Round(x));
    RoundBelow(x, Round(x) + 1);
  }

  lemma DivideMonotone(a: real, b: real, t: real)
    requires t > 0.0 && a <= b
    ensures a / t <= b / t
  {
  }

  /** How a quotient of at most 1 compares to 0 and 1. */
  lemma QuotientCompares(x: real, y: real)
    requires 0.0 <= x <= y && y > 0.0
    ensures 0.0 <= x / y <= 1.0
    ensures x / y == 1.0 <==> x == y
    ensures x / y == 0.0 <==> x == 0.0
  {
    SelfQuotient(y);
    if x < y {
      DivideStrict(x, y, y);
    }
    if x > 0.0 {
      DivideStrict(0.0, x, y);
    }
  }

  lemma SelfQuotient(t: real)
    requires t > 0.0
    ensures t / t == 1.0 && 0.0 / t == 0.0
  {
  }

  lemma DivideStrict(a: real, b: real, t: real)
    requires t > 0.0 && a < b
    ensures a / t < b / t
  {
  }

  lemma DivideSum(a: real, b: real, t: real)
    requires t > 0.0
    ensures a / t + b / t == (a + b) / t
  {
  }
}
