/** Structural similarity of two grey planes (ssim.compare.ts), over exact reals. */
module Ssim {
  import opened Common
  import opened RealSums

  const WINDOW := 8
  const PIXELS := 64
  const STEP := 4
  const C1 := 6.5025
  const C2 := 58.5225

  // ----- The index of two equally long lists of pixels -----

  function Product(x: real, y: real): real {
    x * y
  }

  /** The sum of the products of the deviations from `mx` and `my`. */
  function Spread(xs: seq<real>, ys: seq<real>, mx: real, my: real): real
    requires |xs| == |ys|
  {
    if xs == [] then 0.0
    else
      var k := |xs| - 1;
      Spread(xs[..k], ys[..k], mx, my) + Product(xs[k] - mx, ys[k] - my)
  }

  /** The final formula; its guard never fails, as `ScoreInRange` shows. */
  function Score(ma: real, mb: real, va: real, vb: real, cov: real): real {
    var numerator := Product(2.0 * Product(ma, mb) + C1, 2.0 * cov + C2);
    var denominator := Product(Product(ma, ma) + Product(mb, mb) + C1, va + vb + C2);
    if denominator > 0.0 then numerator / denominator else 0.0
  }

  function Index(xs: seq<real>, ys: seq<real>): real
    requires |xs| == |ys| >= 2
  {
    var n := |xs| as real;
    var ma, mb := Sum(xs) / n, Sum(ys) / n;
    Score(ma, mb, Spread(xs, xs, ma, ma) / (n - 1.0), Spread(ys, ys, mb, mb) / (n - 1.0), Spread(xs, ys, ma, mb) / (n - 1.0))
  }

  // ----- Range, symmetry, and when the index is 1 -----

  lemma SameSign(x: real, y: real)
    requires (x < 0.0 && y < 0.0) || (x > 0.0 && y > 0.0)
    ensures Product(x, y) > 0.0
  {
  }

  lemma SquareNonnegative(x: real)
    ensures Product(x, x) >= 0.0
    ensures x < 0.0 || x > 0.0 ==> Product(x, x) > 0.0
  {
    if x < 0.0 || x > 0.0 {
      SameSign(x, x);
    }
  }

  lemma Expand(x: real, y: real, d: real, s: real)
    requires d == x - y && s == x + y
    ensures Product(d, d) == Product(x, x) + Product(y, y) - 2.0 * Product(x, y)
    ensures Product(s, s) == Product(x, x) + Product(y, y) + 2.0 * Product(x, y)
  {
  }

  /** Twice a product lies between minus and plus the sum of the squares. */
  lemma PairBounds(x: real, y: real)
    ensures BoundsHold(Product(x, x), Product(y, y), Product(x, y), x == y)
  {
    SquareNonnegative(x);
    SquareNonnegative(y);
    SquareNonnegative(x - y);
    SquareNonnegative(x + y);
    Expand(x, y, x - y, x + y);
    assert x - y < 0.0 || x - y > 0.0 || x == y;
    assert x == y ==> Product(x, y) == Product(x, x) == Product(y, y);
  }

  predicate SameDeviations(xs: seq<real>, ys: seq<real>, mx: real, my: real)
    requires |xs| == |ys|
  {
    forall i | 0 <= i < |xs| :: xs[i] - mx == ys[i] - my
  }

  /** Twice the covariance lies between minus and plus the sum of the variances. */
  lemma {:induction false} SpreadBounds(xs: seq<real>, ys: seq<real>, mx: real, my: real)
    requires |xs| == |ys|
    ensures BoundsHold(Spread(xs, xs, mx, mx), Spread(ys, ys, my, my), Spread(xs, ys, mx, my), SameDeviations(xs, ys, mx, my))
  {
    if xs == [] {
    } else {
      var k := |xs| - 1;
      var x, y := xs[k] - mx, ys[k] - my;
      SpreadBounds(xs[..k], ys[..k], mx, my);
      PairBounds(x, y);
      DeviationsSplit(xs, ys, mx, my);
      BoundsAdd(Spread(xs[..k], xs[..k], mx, mx), Spread(ys[..k], ys[..k], my, my), Spread(xs[..k], ys[..k], mx, my),
        SameDeviations(xs[..k], ys[..k], mx, my), Product(x, x), Product(y, y), Product(x, y), x == y);
    }
  }

  predicate BoundsHold(sa: real, sb: real, sc: real, same: bool) {
    && sa >= 0.0 && sb >= 0.0
    && -(sa + sb) <= 2.0 * sc <= sa + sb
    && (2.0 * sc == sa + sb <==> same)
  }

  lemma BoundsAdd(sa: real, sb: real, sc: real, same: bool, ta: real, tb: real, tc: real, same': bool)
    requires BoundsHold(sa, sb, sc, same) && BoundsHold(ta, tb, tc, same')
    ensures BoundsHold(sa + ta, sb + tb, sc + tc, same && same')
  {
  }

  lemma DeviationsSplit(xs: seq<real>, ys: seq<real>, mx: real, my: real)
    requires |xs| == |ys| > 0
    ensures var k := |xs| - 1;
      SameDeviations(xs, ys, mx, my) <==> SameDeviations(xs[..k], ys[..k], mx, my) && xs[k] - mx == ys[k] - my
  {
    var k := |xs| - 1;
    if SameDeviations(xs[..k], ys[..k], mx, my) && xs[k] - mx == ys[k] - my {
      forall i | 0 <= i < |xs| ensures xs[i] - mx == ys[i] - my {
        assert i < k ==> xs[..k][i] - mx == ys[..k][i] - my;
      }
    }
  }

  lemma Monotone(x: real, y: real, z: real)
    requires x <= y && z >= 0.0
    ensures x * z <= y * z
    ensures x < y && z > 0.0 ==> x * z < y * z
  {
  }

  lemma UpperBound(p: real, q: real, r: real, s: real)
    requires s > 0.0 && 0.0 <= p <= r && q <= s
    ensures p * q <= r * s
    ensures p * q == r * s && r > 0.0 ==> p == r && q == s
  {
    Monotone(q, s, p);
    Monotone(p, r, s);
    assert q * p == p * q && s * p == p * s;
  }

  /** A product of two bounded factors, the first never at its lower bound. */
  lemma ProductInRange(p: real, q: real, r: real, s: real)
    requires s > 0.0 && -r < p <= r && -s <= q <= s
    ensures -(r * s) <= p * q <= r * s
    ensures p * q == r * s <==> p == r && q == s
  {
    if p >= 0.0 {
      UpperBound(p, q, r, s);
      UpperBound(p, -q, r, s);
      assert p * -q == -(p * q);
    } else {
      UpperBound(-p, -q, r, s);
      UpperBound(-p, q, r, s);
      assert -p * -q == p * q;
      assert -p * q == -(p * q);
    }
  }

  lemma QuotientInRange(n: real, d: real)
    requires d > 0.0 && -d <= n <= d
    ensures -1.0 <= n / d <= 1.0
    ensures n / d == 1.0 <==> n == d
  {
  }

  /** The score is defined, lies in [-1, 1], and is 1 exactly for equal means and full covariance. */
  lemma ScoreInRange(ma: real, mb: real, va: real, vb: real, cov: real)
    requires va >= 0.0 && vb >= 0.0 && -(va + vb) <= 2.0 * cov <= va + vb
    ensures Product(Product(ma, ma) + Product(mb, mb) + C1, va + vb + C2) > 0.0
    ensures -1.0 <= Score(ma, mb, va, vb, cov) <= 1.0
    ensures Score(ma, mb, va, vb, cov) == 1.0 <==> ma == mb && 2.0 * cov == va + vb
  {
    PairBounds(ma, mb);
    QuotientOfProducts(2.0 * Product(ma, mb) + C1, 2.0 * cov + C2, Product(ma, ma) + Product(mb, mb) + C1, va + vb + C2);
  }

  lemma QuotientOfProducts(p: real, q: real, r: real, s: real)
    requires r > 0.0 && s > 0.0 && -r < p <= r && -s <= q <= s
    ensures Product(r, s) > 0.0 && -1.0 <= Product(p, q) / Product(r, s) <= 1.0
    ensures Product(p, q) / Product(r, s) == 1.0 <==> p == r && q == s
  {
    Monotone(0.0, r, s);
    ProductInRange(p, q, r, s);
    QuotientInRange(p * q, r * s);
  }

  /** The index lies in [-1, 1] and is 1 exactly on identical pixels. */
  lemma IndexInRange(xs: seq<real>, ys: seq<real>)
    requires |xs| == |ys| >= 2
    ensures -1.0 <= Index(xs, ys) <= 1.0
    ensures Index(xs, ys) == 1.0 <==> xs == ys
  {
    var n := |xs| as real;
    var ma, mb := Sum(xs) / n, Sum(ys) / n;
    var d := n - 1.0;
    var sa, sb, sc := Spread(xs, xs, ma, ma), Spread(ys, ys, mb, mb), Spread(xs, ys, ma, mb);
    SpreadBounds(xs, ys, ma, mb);
    ScaledBounds(sa, sb, sc, d);
    ScoreInRange(ma, mb, sa / d, sb / d, sc / d);
    if Index(xs, ys) == 1.0 {
      forall i | 0 <= i < |xs| ensures xs[i] == ys[i] {
        assert xs[i] - ma == ys[i] - mb;
      }
    }
    if xs == ys {
      assert SameDeviations(xs, ys, ma, mb);
    }
  }

  lemma ScaledBounds(sa: real, sb: real, sc: real, d: real)
    requires d > 0.0 && sa >= 0.0 && sb >= 0.0 && -(sa + sb) <= 2.0 * sc <= sa + sb
    ensures sa / d >= 0.0 && sb / d >= 0.0 && -(sa / d + sb / d) <= 2.0 * (sc / d) <= sa / d + sb / d
    ensures 2.0 * (sc / d) == sa / d + sb / d <==> 2.0 * sc == sa + sb
  {
    DivideSum(sa, sb, d);
    DivideSum(sc, sc, d);
    DivideMonotone(2.0 * sc, sa + sb, d);
    DivideMonotone(-(sa + sb), 2.0 * sc, d);
    assert (-(sa + sb)) / d == -((sa + sb) / d);
    assert (2.0 * sc) / d * d == 2.0 * sc && (sa + sb) / d * d == sa + sb;
  }

  lemma {:induction false} SpreadSymmetric(xs: seq<real>, ys: seq<real>, mx: real, my: real)
    requires |xs| == |ys|
    ensures Spread(xs, ys, mx, my) == Spread(ys, xs, my, mx)
  {
    if xs == [] {
    } else {
      var k := |xs| - 1;
      SpreadSymmetric(xs[..k], ys[..k], mx, my);
    }
  }

  lemma ScoreSymmetric(ma: real, mb: real, va: real, vb: real, cov: real)
    ensures Score(ma, mb, va, vb, cov) == Score(mb, ma, vb, va, cov)
  {
  }

  lemma IndexSymmetric(xs: seq<real>, ys: seq<real>)
    requires |xs| == |ys| >= 2
    ensures Index(xs, ys) == Index(ys, xs)
  {
    var n := |xs| as real;
    var ma, mb := Sum(xs) / n, Sum(ys) / n;
    SpreadSymmetric(xs, ys, ma, mb);
    ScoreSymmetric(ma, mb, Spread(xs, xs, ma, ma) / (n - 1.0), Spread(ys, ys, mb, mb) / (n - 1.0), Spread(xs, ys, ma, mb) / (n - 1.0));
  }

  // ----- Windows of a plane -----

  predicate IsPlane(a: seq<real>, width: nat, height: nat) {
    |a| == width * height
  }

  lemma InPlane(width: nat, height: nat, x: nat, y: nat)
    requires x < width && y < height
    ensures 0 <= y * width + x < width * height
  {
    assert (y + 1) * width <= height * width;
  }

  predicate Fits(width: nat, height: nat, ox: nat, oy: nat) {
    ox + WINDOW <= width && oy + WINDOW <= height
  }

  /** The 64 pixels of the window at (ox, oy), row by row. */
  function Window(a: seq<real>, width: nat, height: nat, ox: nat, oy: nat): (w: seq<real>)
    requires IsPlane(a, width, height) && Fits(width, height, ox, oy)
    ensures |w| == PIXELS
  {
    seq(PIXELS, k requires 0 <= k < PIXELS =>
      InPlane(width, height, ox + k % WINDOW, oy + k / WINDOW);
      a[(oy + k / WINDOW) * width + (ox + k % WINDOW)])
  }

  function WindowIndex(a: seq<real>, b: seq<real>, width: nat, height: nat, ox: nat, oy: nat): real
    requires IsPlane(a, width, height) && IsPlane(b, width, height) && Fits(width, height, ox, oy)
  {
    Index(Window(a, width, height, ox, oy), Window(b, width, height, ox, oy))
  }

  lemma SpreadSnoc(xs: seq<real>, ys: seq<real>, mx: real, my: real, k: nat)
    requires |xs| == |ys| && k < |xs|
    ensures Spread(xs[..k + 1], ys[..k + 1], mx, my) == Spread(xs[..k], ys[..k], mx, my) + Product(xs[k] - mx, ys[k] - my)
  {
    assert xs[..k + 1][..k] == xs[..k] && ys[..k + 1][..k] == ys[..k];
  }

  /** The pixel loops of one window stay inside the plane and compute the index of its pixels. */
  method WindowSsim(a: array<real>, b: array<real>, width: nat, height: nat, ox: nat, oy: nat) returns (r: real)
    requires IsPlane(a[..], width, height) && IsPlane(b[..], width, height) && Fits(width, height, ox, oy)
    ensures r == WindowIndex(a[..], b[..], width, height, ox, oy)
    ensures -1.0 <= r <= 1.0
  {
    ghost var xs, ys := Window(a[..], width, height, ox, oy), Window(b[..], width, height, ox, oy);
    var sumA, sumB := WindowSums(a, b, width, height, ox, oy);
    var n := PIXELS as real;
    var meanA, meanB := sumA / n, sumB / n;
    var varA, varB, cov := WindowSpreads(a, b, width, height, ox, oy, meanA, meanB);
    varA, varB, cov := varA / (n - 1.0), varB / (n - 1.0), cov / (n - 1.0);
    r := Score(meanA, meanB, varA, varB, cov);
    IndexInRange(xs, ys);
  }

  method WindowSums(a: array<real>, b: array<real>, width: nat, height: nat, ox: nat, oy: nat) returns (sumA: real, sumB: real)
    requires IsPlane(a[..], width, height) && IsPlane(b[..], width, height) && Fits(width, height, ox, oy)
    ensures sumA == Sum(Window(a[..], width, height, ox, oy)) && sumB == Sum(Window(b[..], width, height, ox, oy))
  {
    ghost var xs, ys := Window(a[..], width, height, ox, oy), Window(b[..], width, height, ox, oy);
    sumA, sumB := 0.0, 0.0;
    for wy := 0 to WINDOW
      invariant sumA == Sum(xs[..WINDOW * wy]) && sumB == Sum(ys[..WINDOW * wy])
    {
      var row := (oy + wy) * width + ox;
      for wx := 0 to WINDOW
        invariant sumA == Sum(xs[..WINDOW * wy + wx]) && sumB == Sum(ys[..WINDOW * wy + wx])
      {
        var i := row + wx;
        InPlane(width, height, ox + wx, oy + wy);
        WindowPixel(a[..], width, height, ox, oy, wx, wy);
        WindowPixel(b[..], width, height, ox, oy, wx, wy);
        SumSnoc(xs, WINDOW * wy + wx);
        SumSnoc(ys, WINDOW * wy + wx);
        sumA := sumA + a[i];
        sumB := sumB + b[i];
      }
    }
    assert xs[..PIXELS] == xs && ys[..PIXELS] == ys;
  }

  lemma WindowPixel(a: seq<real>, width: nat, height: nat, ox: nat, oy: nat, wx: nat, wy: nat)
    requires IsPlane(a, width, height) && Fits(width, height, ox, oy) && wx < WINDOW && wy < WINDOW
    ensures 0 <= (oy + wy) * width + ox + wx < |a|
    ensures Window(a, width, height, ox, oy)[WINDOW * wy + wx] == a[(oy + wy) * width + ox + wx]
  {
    InPlane(width, height, ox + wx, oy + wy);
    var k := WINDOW * wy + wx;
    assert k / WINDOW == wy && k % WINDOW == wx;
  }

  method WindowSpreads(a: array<real>, b: array<real>, width: nat, height: nat, ox: nat, oy: nat, meanA: real, meanB: real)
    returns (varA: real, varB: real, cov: real)
    requires IsPlane(a[..], width, height) && IsPlane(b[..], width, height) && Fits(width, height, ox, oy)
    ensures var xs, ys := Window(a[..], width, height, ox, oy), Window(b[..], width, height, ox, oy);
      varA == Spread(xs, xs, meanA, meanA) && varB == Spread(ys, ys, meanB, meanB) && cov == Spread(xs, ys, meanA, meanB)
  {
    ghost var xs, ys := Window(a[..], width, height, ox, oy), Window(b[..], width, height, ox, oy);
    varA, varB, cov := 0.0, 0.0, 0.0;
    for wy := 0 to WINDOW
      invariant SpreadsSoFar(xs, ys, meanA, meanB, WINDOW * wy, varA, varB, cov)
    {
      var row := (oy + wy) * width + ox;
      for wx := 0 to WINDOW
        invariant SpreadsSoFar(xs, ys, meanA, meanB, WINDOW * wy + wx, varA, varB, cov)
      {
        var i := row + wx;
        WindowPixel(a[..], width, height, ox, oy, wx, wy);
        WindowPixel(b[..], width, height, ox, oy, wx, wy);
        var da, db := a[i] - meanA, b[i] - meanB;
        SpreadsGrow(xs, ys, meanA, meanB, WINDOW * wy + wx, varA, varB, cov, da, db);
        varA := varA + Product(da, da);
        varB := varB + Product(db, db);
        cov := cov + Product(da, db);
      }
    }
    assert xs[..PIXELS] == xs && ys[..PIXELS] == ys;
  }

  predicate SpreadsSoFar(xs: seq<real>, ys: seq<real>, mx: real, my: real, k: nat, va: real, vb: real, cov: real) {
    && k <= |xs| == |ys|
    && va == Spread(xs[..k], xs[..k], mx, mx) && vb == Spread(ys[..k], ys[..k], my, my)
    && cov == Spread(xs[..k], ys[..k], mx, my)
  }

  lemma SpreadsGrow(
      xs: seq<real>, ys: seq<real>, mx: real, my: real, k: nat, va: real, vb: real, cov: real, da: real, db: real)
    requires SpreadsSoFar(xs, ys, mx, my, k, va, vb, cov) && k < |xs|
    requires da == xs[k] - mx && db == ys[k] - my
    ensures SpreadsSoFar(xs, ys, mx, my, k + 1, va + Product(da, da), vb + Product(db, db), cov + Product(da, db))
  {
    SpreadSnoc(xs, xs, mx, mx, k);
    SpreadSnoc(ys, ys, my, my, k);
    SpreadSnoc(xs, ys, mx, my, k);
  }

  // ----- The whole plane -----

  /** The indices of the windows from (x, y) on, row by row, four pixels apart. */
  function WindowIndices(a: seq<real>, b: seq<real>, width: nat, height: nat, x: nat, y: nat): seq<real>
    requires IsPlane(a, width, height) && IsPlane(b, width, height)
    decreases if y <= height then height - y else 0, if x <= width then width - x else 0
  {
    if y + WINDOW > height then []
    else if x + WINDOW > width then WindowIndices(a, b, width, height, 0, y + STEP)
    else [WindowIndex(a, b, width, height, x, y)] + WindowIndices(a, b, width, height, x + STEP, y)
  }

  /** Planes of at most one window's width or height are compared whole. */
  predicate Sliding(width: nat, height: nat) {
    width > WINDOW && height > WINDOW
  }

  /** With a single pixel the variance is 0/0 and the guard on the denominator yields 0. */
  function GlobalIndex(a: seq<real>, b: seq<real>): real
    requires |a| == |b|
  {
    if |a| < 2 then 0.0 else Index(a, b)
  }

  function Average(s: seq<real>): real {
    if s == [] then 0.0 else Sum(s) / |s| as real
  }

  function MeanIndex(a: seq<real>, b: seq<real>, width: nat, height: nat): real
    requires IsPlane(a, width, height) && IsPlane(b, width, height)
  {
    if Sliding(width, height) then Average(WindowIndices(a, b, width, height, 0, 0)) else GlobalIndex(a, b)
  }

  method GlobalSsim(a: array<real>, b: array<real>) returns (r: real)
    requires a.Length == b.Length
    ensures r == GlobalIndex(a[..], b[..])
  {
    var n := a.Length;
    if n == 0 {
      return 0.0;
    }
    ghost var xs, ys := a[..], b[..];
    var sumA, sumB := 0.0, 0.0;
    for i := 0 to n
      invariant sumA == Sum(xs[..i]) && sumB == Sum(ys[..i])
    {
      SumSnoc(xs, i);
      SumSnoc(ys, i);
      sumA := sumA + a[i];
      sumB := sumB + b[i];
    }
    assert xs[..n] == xs && ys[..n] == ys;
    var meanA, meanB := sumA / n as real, sumB / n as real;
    var varA, varB, cov := 0.0, 0.0, 0.0;
    for i := 0 to n
      invariant SpreadsSoFar(xs, ys, meanA, meanB, i, varA, varB, cov)
    {
      var da, db := a[i] - meanA, b[i] - meanB;
      SpreadsGrow(xs, ys, meanA, meanB, i, varA, varB, cov, da, db);
      varA := varA + Product(da, da);
      varB := varB + Product(db, db);
      cov := cov + Product(da, db);
    }
    if n == 1 {
      return 0.0;
    }
    var d := n as real - 1.0;
    r := Score(meanA, meanB, varA / d, varB / d, cov / d);
  }

  method MeanSsim(a: array<real>, b: array<real>, width: nat, height: nat) returns (r: real)
    requires IsPlane(a[..], width, height) && IsPlane(b[..], width, height)
    ensures r == MeanIndex(a[..], b[..], width, height)
    ensures -1.0 <= r <= 1.0
  {
    var maxX, maxY := width - WINDOW, height - WINDOW;
    MeanInRange(a[..], b[..], width, height);
    if maxX <= 0 || maxY <= 0 {
      r := GlobalSsim(a, b);
      return;
    }
    ghost var all := WindowIndices(a[..], b[..], width, height, 0, 0);
    var sum, count := 0.0, 0;
    var y := 0;
    while y <= maxY
      invariant 0 <= y
      invariant Pending(all, WindowIndices(a[..], b[..], width, height, 0, y), sum, count)
      decreases maxY - y
    {
      sum, count := AddRow(a, b, width, height, y, sum, count, all);
      y := y + STEP;
    }
    assert all[..count] == all;
    r := if count > 0 then sum / count as real else 0.0;
  }

  /** The windows of one row of the grid. */
  method AddRow(a: array<real>, b: array<real>, width: nat, height: nat, y: nat, sum0: real, count0: int, ghost all: seq<real>)
    returns (sum: real, count: int)
    requires IsPlane(a[..], width, height) && IsPlane(b[..], width, height) && width >= WINDOW && y + WINDOW <= height
    requires Pending(all, WindowIndices(a[..], b[..], width, height, 0, y), sum0, count0)
    ensures Pending(all, WindowIndices(a[..], b[..], width, height, 0, y + STEP), sum, count)
  {
    sum, count := sum0, count0;
    var x := 0;
    while x + WINDOW <= width
      invariant 0 <= x
      invariant Pending(all, WindowIndices(a[..], b[..], width, height, x, y), sum, count)
      decreases width - x
    {
      var s := WindowSsim(a, b, width, height, x, y);
      PendingStep(all, WindowIndices(a[..], b[..], width, height, x, y), sum, count);
      sum := sum + s;
      count := count + 1;
      x := x + STEP;
    }
  }

  /** `count` values are summed already and `rest` is to come. */
  predicate Pending(all: seq<real>, rest: seq<real>, sum: real, count: int) {
    0 <= count <= |all| && rest == all[count..] && sum == Sum(all[..count])
  }

  lemma PendingStep(all: seq<real>, rest: seq<real>, sum: real, count: int)
    requires Pending(all, rest, sum, count) && rest != []
    ensures Pending(all, rest[1..], sum + rest[0], count + 1)
  {
    SumSnoc(all, count);
  }

  // ----- Properties of the mean -----

  predicate Bounded(s: seq<real>) {
    forall i | 0 <= i < |s| :: -1.0 <= s[i] <= 1.0
  }

  predicate Ones(s: seq<real>) {
    forall i | 0 <= i < |s| :: s[i] == 1.0
  }

  lemma {:induction false} SumInRange(s: seq<real>)
    requires Bounded(s)
    ensures -(|s| as real) <= Sum(s) <= |s| as real
    ensures Sum(s) == |s| as real <==> Ones(s)
  {
    if s == [] {
    } else {
      var k := |s| - 1;
      SumInRange(s[..k]);
      assert |s| as real == k as real + 1.0;
      if Ones(s[..k]) && s[k] == 1.0 {
        forall i | 0 <= i < |s| ensures s[i] == 1.0 {
          assert i < k ==> s[..k][i] == 1.0;
        }
      }
    }
  }

  lemma AverageInRange(s: seq<real>)
    requires Bounded(s)
    ensures -1.0 <= Average(s) <= 1.0
    ensures Average(s) == 1.0 <==> s != [] && Ones(s)
  {
    SumInRange(s);
    if s != [] {
      QuotientInRange(Sum(s), |s| as real);
    }
  }

  /** The window at (x, y) of both planes holds the same pixels. */
  predicate SameWindow(a: seq<real>, b: seq<real>, width: nat, height: nat, x: nat, y: nat)
    requires IsPlane(a, width, height) && IsPlane(b, width, height)
  {
    Fits(width, height, x, y) ==> Window(a, width, height, x, y) == Window(b, width, height, x, y)
  }

  /** The windows visited from (x, y) on agree. */
  predicate SameFrom(a: seq<real>, b: seq<real>, width: nat, height: nat, x: nat, y: nat)
    requires IsPlane(a, width, height) && IsPlane(b, width, height)
    decreases if y <= height then height - y else 0, if x <= width then width - x else 0
  {
    if y + WINDOW > height then true
    else if x + WINDOW > width then SameFrom(a, b, width, height, 0, y + STEP)
    else SameWindow(a, b, width, height, x, y) && SameFrom(a, b, width, height, x + STEP, y)
  }

  lemma {:induction false} IndicesInRange(a: seq<real>, b: seq<real>, width: nat, height: nat, x: nat, y: nat)
    requires IsPlane(a, width, height) && IsPlane(b, width, height)
    ensures Bounded(WindowIndices(a, b, width, height, x, y))
    ensures Ones(WindowIndices(a, b, width, height, x, y)) <==> SameFrom(a, b, width, height, x, y)
    decreases if y <= height then height - y else 0, if x <= width then width - x else 0
  {
    if y + WINDOW > height {
    } else if x + WINDOW > width {
      IndicesInRange(a, b, width, height, 0, y + STEP);
    } else {
      IndicesInRange(a, b, width, height, x + STEP, y);
      IndexInRange(Window(a, width, height, x, y), Window(b, width, height, x, y));
      ConsBounded(WindowIndex(a, b, width, height, x, y), WindowIndices(a, b, width, height, x + STEP, y));
    }
  }

  lemma ConsBounded(first: real, rest: seq<real>)
    requires -1.0 <= first <= 1.0 && Bounded(rest)
    ensures Bounded([first] + rest)
    ensures Ones([first] + rest) <==> first == 1.0 && Ones(rest)
  {
    var all := [first] + rest;
    if Ones(all) {
      assert all[0] == 1.0;
      forall i | 0 <= i < |rest| ensures rest[i] == 1.0 {
        assert all[i + 1] == 1.0;
      }
    }
  }

  /** Every pair of planes of the same size scores within [-1, 1]. */
  lemma MeanInRange(a: seq<real>, b: seq<real>, width: nat, height: nat)
    requires IsPlane(a, width, height) && IsPlane(b, width, height)
    ensures -1.0 <= MeanIndex(a, b, width, height) <= 1.0
  {
    if Sliding(width, height) {
      IndicesInRange(a, b, width, height, 0, 0);
      AverageInRange(WindowIndices(a, b, width, height, 0, 0));
    } else if |a| >= 2 {
      IndexInRange(a, b);
    }
  }

  /**
   * The score is 1 exactly when all visited windows agree; for planes compared whole, exactly on
   * identical planes of at least two pixels (a single pixel scores 0 even against itself).
   */
  lemma MeanIsOneIff(a: seq<real>, b: seq<real>, width: nat, height: nat)
    requires IsPlane(a, width, height) && IsPlane(b, width, height)
    ensures MeanIndex(a, b, width, height) == 1.0 <==>
      if Sliding(width, height) then SameFrom(a, b, width, height, 0, 0) else |a| >= 2 && a == b
  {
    if Sliding(width, height) {
      IndicesInRange(a, b, width, height, 0, 0);
      AverageInRange(WindowIndices(a, b, width, height, 0, 0));
    } else if |a| >= 2 {
      IndexInRange(a, b);
    }
  }

  lemma {:induction false} IndicesSymmetric(a: seq<real>, b: seq<real>, width: nat, height: nat, x: nat, y: nat)
    requires IsPlane(a, width, height) && IsPlane(b, width, height)
    ensures WindowIndices(a, b, width, height, x, y) == WindowIndices(b, a, width, height, x, y)
    decreases if y <= height then height - y else 0, if x <= width then width - x else 0
  {
    if y + WINDOW > height {
    } else if x + WINDOW > width {
      IndicesSymmetric(a, b, width, height, 0, y + STEP);
    } else {
      IndicesSymmetric(a, b, width, height, x + STEP, y);
      IndexSymmetric(Window(a, width, height, x, y), Window(b, width, height, x, y));
    }
  }

  lemma MeanSymmetric(a: seq<real>, b: seq<real>, width: nat, height: nat)
    requires IsPlane(a, width, height) && IsPlane(b, width, height)
    ensures MeanIndex(a, b, width, height) == MeanIndex(b, a, width, height)
  {
    if Sliding(width, height) {
      IndicesSymmetric(a, b, width, height, 0, 0);
    } else if |a| >= 2 {
      IndexSymmetric(a, b);
    }
  }

  // ----- Which pixels count -----

  /** The window grid reaches the last column and the last row. */
  predicate Aligned(size: nat) {
    size >= WINDOW && (size - WINDOW) % STEP == 0
  }

  lemma {:induction false} SameFromVisits(a: seq<real>, b: seq<real>, width: nat, height: nat, x: nat, y: nat, ox: nat, oy: nat)
    requires IsPlane(a, width, height) && IsPlane(b, width, height) && Fits(width, height, ox, oy)
    requires SameFrom(a, b, width, height, x, y)
    requires x % STEP == 0 && y % STEP == 0 && ox % STEP == 0 && oy % STEP == 0
    requires oy > y || (oy == y && ox >= x)
    ensures SameWindow(a, b, width, height, ox, oy)
    decreases if y <= height then height - y else 0, if x <= width then width - x else 0
  {
    if x + WINDOW > width {
      NextOnGrid(y, oy);
      SameFromVisits(a, b, width, height, 0, y + STEP, ox, oy);
    } else if ox != x || oy != y {
      NextOnGrid(x, ox);
      SameFromVisits(a, b, width, height, x + STEP, y, ox, oy);
    }
  }

  lemma NextOnGrid(v: nat, w: nat)
    requires v % STEP == 0 && w % STEP == 0
    ensures v < w ==> v + STEP <= w
    ensures (v + STEP) % STEP == 0
  {
  }

  /** The grid start whose window covers coordinate `v`. */
  function Cover(v: nat, size: nat): (o: nat)
    requires Aligned(size) && v < size
    ensures o % STEP == 0 && o <= v < o + WINDOW && o + WINDOW <= size
  {
    if v < size - WINDOW then v / STEP * STEP else size - WINDOW
  }

  lemma PixelSame(a: seq<real>, b: seq<real>, width: nat, height: nat, x: nat, y: nat)
    requires IsPlane(a, width, height) && IsPlane(b, width, height) && Aligned(width) && Aligned(height)
    requires x < width && y < height && SameFrom(a, b, width, height, 0, 0)
    ensures 0 <= y * width + x < |a| && a[y * width + x] == b[y * width + x]
  {
    var ox, oy := Cover(x, width), Cover(y, height);
    InPlane(width, height, x, y);
    SameFromVisits(a, b, width, height, 0, 0, ox, oy);
    var wx, wy := x - ox, y - oy;
    WindowPixel(a, width, height, ox, oy, wx, wy);
    WindowPixel(b, width, height, ox, oy, wx, wy);
    assert (oy + wy) * width + ox + wx == y * width + x;
  }

  lemma {:induction false} SameEverywhere(a: seq<real>, width: nat, height: nat, x: nat, y: nat)
    requires IsPlane(a, width, height)
    ensures SameFrom(a, a, width, height, x, y)
    decreases if y <= height then height - y else 0, if x <= width then width - x else 0
  {
    if y + WINDOW > height {
    } else if x + WINDOW > width {
      SameEverywhere(a, width, height, 0, y + STEP);
    } else {
      SameEverywhere(a, width, height, x + STEP, y);
    }
  }

  lemma RowAndColumn(width: nat, height: nat, i: nat) returns (x: nat, y: nat)
    requires i < width * height
    ensures x < width && y < height && i == y * width + x
  {
    assert width > 0;
    x, y := i % width, i / width;
    assert y * width <= i < height * width;
  }

  /** On aligned planes, such as the 128 by 128 ones in use, a score of 1 means identical planes. */
  lemma OneMeansIdentical(a: seq<real>, b: seq<real>, width: nat, height: nat)
    requires IsPlane(a, width, height) && IsPlane(b, width, height)
    requires Sliding(width, height) && Aligned(width) && Aligned(height)
    ensures MeanIndex(a, b, width, height) == 1.0 <==> a == b
  {
    MeanIsOneIff(a, b, width, height);
    if SameFrom(a, b, width, height, 0, 0) {
      forall i | 0 <= i < |a| ensures a[i] == b[i] {
        var x, y := RowAndColumn(width, height, i);
        PixelSame(a, b, width, height, x, y);
      }
    }
    if a == b {
      SameEverywhere(a, width, height, 0, 0);
    }
  }

  const SSIM_SIZE := 128

  /** The reported similarity: clamped to [0, 1], as a percentage with one decimal. */
  function Reported(mssim: real): real {
    Round(MaxReal(0.0, MinReal(1.0, mssim)) * 1000.0) as real / 10.0
  }

  lemma SizeIsAligned()
    ensures Sliding(SSIM_SIZE, SSIM_SIZE) && Aligned(SSIM_SIZE)
  {
  }

  /** Identical images report 100 and everything reports 0 to 100. */
  lemma ReportedInRange(a: seq<real>, b: seq<real>)
    requires IsPlane(a, SSIM_SIZE, SSIM_SIZE) && IsPlane(b, SSIM_SIZE, SSIM_SIZE)
    ensures 0.0 <= Reported(MeanIndex(a, b, SSIM_SIZE, SSIM_SIZE)) <= 100.0
    ensures a == b ==> Reported(MeanIndex(a, b, SSIM_SIZE, SSIM_SIZE)) == 100.0
  {
    var m := MaxReal(0.0, MinReal(1.0, MeanIndex(a, b, SSIM_SIZE, SSIM_SIZE)));
    SizeIsAligned();
    OneMeansIdentical(a, b, SSIM_SIZE, SSIM_SIZE);
    RoundBelow(m * 1000.0, 0);
    RoundBelow(m * 1000.0, 1001);
    RoundOfInt(1000);
  }

  // ----- Exact values -----

  lemma {:induction false} FlatSums(x: real, n: nat)
    ensures Sum(seq(n, _ => x)) == n as real * x
  {
    if n > 0 {
      assert seq(n, _ => x)[..n - 1] == seq(n - 1, _ => x);
      FlatSums(x, n - 1);
    } else {
      assert seq(0, _ => x) == [];
    }
  }

  lemma {:induction false} FlatSpread(x: real, y: real, n: nat)
    ensures Spread(seq(n, _ => x), seq(n, _ => y), x, y) == 0.0
  {
    if n > 0 {
      assert seq(n, _ => x)[..n - 1] == seq(n - 1, _ => x) && seq(n, _ => y)[..n - 1] == seq(n - 1, _ => y);
      FlatSpread(x, y, n - 1);
    }
  }

  lemma FlatMean(x: real, n: nat)
    requires n > 0
    ensures Sum(seq(n, _ => x)) / n as real == x
  {
    FlatSums(x, n);
    assert n as real * x / n as real == x;
  }

  /** `q` is `x` over `y`. */
  predicate IsRatio(q: real, x: real, y: real) {
    y > 0.0 && q * y == x
  }

  lemma RatioCancels(f: real, x: real, y: real)
    requires f > 0.0 && y > 0.0
    ensures Product(f, y) > 0.0 && IsRatio(Product(f, x) / Product(f, y), x, y)
  {
    assert f * y > 0.0;
    var q := f * x / (f * y);
    assert q * (f * y) == f * x;
    assert f * (q * y - x) == 0.0;
  }

  lemma FlatScore(x: real, y: real, n: nat)
    requires n >= 2
    ensures Index(seq(n, _ => x), seq(n, _ => y)) == Score(x, y, 0.0, 0.0, 0.0)
  {
    FlatMean(x, n);
    FlatMean(y, n);
    FlatSpread(x, x, n);
    FlatSpread(y, y, n);
    FlatSpread(x, y, n);
    ZeroOver(n as real - 1.0);
  }

  lemma ZeroOver(d: real)
    requires d > 0.0
    ensures 0.0 / d == 0.0
  {
  }

  /** Two flat windows differ in brightness only: the index compares their levels. */
  lemma FlatIndex(x: real, y: real, n: nat)
    requires n >= 2
    ensures IsRatio(Index(seq(n, _ => x), seq(n, _ => y)), 2.0 * Product(x, y) + 6.5025, Product(x, x) + Product(y, y) + 6.5025)
  {
    FlatScore(x, y, n);
    SquareIsPositive(x);
    SquareIsPositive(y);
    ScoreOfFlat(x, y);
  }

  lemma SquareIsPositive(x: real)
    ensures Product(x, x) >= 0.0
  {
  }

  lemma ScoreOfFlat(x: real, y: real)
    ensures Product(x, x) + Product(y, y) >= 0.0 ==>
      IsRatio(Score(x, y, 0.0, 0.0, 0.0), 2.0 * Product(x, y) + 6.5025, Product(x, x) + Product(y, y) + 6.5025)
  {
    if Product(x, x) + Product(y, y) >= 0.0 {
      var top, bottom := 2.0 * Product(x, y) + C1, Product(x, x) + Product(y, y) + C1;
      RatioCancels(C2, top, bottom);
      Commutes(top, C2);
      Commutes(bottom, C2);
    }
  }

  lemma Commutes(x: real, y: real)
    ensures Product(x, y) == Product(y, x)
  {
  }

  /** Two windows of one mean differ in contrast only: the index compares their deviations. */
  lemma ContrastIndex(m: real, d: real, e: real)
    ensures IsRatio(Index([m + d, m - d], [m + e, m - e]), 4.0 * Product(d, e) + 58.5225,
      2.0 * Product(d, d) + 2.0 * Product(e, e) + 58.5225)
  {
    var xs, ys := [m + d, m - d], [m + e, m - e];
    PairMean(m, d);
    PairMean(m, e);
    PairSpread(m, d, d);
    PairSpread(m, e, e);
    PairSpread(m, d, e);
    SquareIsPositive(m);
    SquareIsPositive(d);
    SquareIsPositive(e);
    RatioCancels(2.0 * Product(m, m) + C1, 4.0 * Product(d, e) + C2, 2.0 * Product(d, d) + 2.0 * Product(e, e) + C2);
  }

  lemma PairMean(m: real, d: real)
    ensures Sum([m + d, m - d]) / 2.0 == m
  {
    var s := [m + d, m - d];
    assert s[..1] == [m + d] && [m + d][..0] == [];
    assert Sum([m + d]) == m + d;
  }

  lemma PairSpread(m: real, d: real, e: real)
    ensures Spread([m + d, m - d], [m + e, m - e], m, m) == 2.0 * Product(d, e)
  {
    var xs, ys := [m + d, m - d], [m + e, m - e];
    assert xs[..1] == [m + d] && ys[..1] == [m + e];
    assert [m + d][..0] == [] && [m + e][..0] == [];
    assert Spread([m + d], [m + e], m, m) == Product(d, e);
    assert Product(-d, -e) == Product(d, e);
  }

  // ----- The grid -----

  /** How many windows start at `x`, `x + 4`, ... in a row. */
  function Starts(size: nat, x: nat): nat {
    if x + 8 > size then 0 else (size - 8 - x) / 4 + 1
  }

  lemma {:induction false} RowAt(a: seq<real>, b: seq<real>, width: nat, height: nat, x: nat, y: nat, j: nat)
    requires IsPlane(a, width, height) && IsPlane(b, width, height) && Fits(width, height, x + 4 * j, y)
    ensures |WindowIndices(a, b, width, height, x, y)| > j
    ensures WindowIndices(a, b, width, height, x, y)[j] == WindowIndex(a, b, width, height, x + 4 * j, y)
    decreases j
  {
    if j > 0 {
      RowAt(a, b, width, height, x + 4, y, j - 1);
    }
  }

  lemma {:induction false} RowEnds(a: seq<real>, b: seq<real>, width: nat, height: nat, x: nat, y: nat)
    requires IsPlane(a, width, height) && IsPlane(b, width, height) && y + 8 <= height
    ensures var all, rest, n := WindowIndices(a, b, width, height, x, y), WindowIndices(a, b, width, height, 0, y + 4), Starts(width, x);
      n <= |all| && all[n..] == rest
    decreases if x <= width then width - x else 0
  {
    if x + 8 <= width {
      RowEnds(a, b, width, height, x + 4, y);
      var all := WindowIndices(a, b, width, height, x, y);
      assert all[1..] == WindowIndices(a, b, width, height, x + 4, y);
      assert Starts(width, x) == 1 + Starts(width, x + 4);
      assert all[1..][Starts(width, x + 4)..] == all[Starts(width, x)..];
    }
  }

  /**
   * The windows of a row start at every fourth column as long as they fit, and the windows of the
   * row four pixels below follow them; below the last row that fits there are none.
   */
  lemma RowIsExact(a: seq<real>, b: seq<real>, width: nat, height: nat, y: nat)
    requires IsPlane(a, width, height) && IsPlane(b, width, height)
    ensures y + 8 > height ==> WindowIndices(a, b, width, height, 0, y) == []
    ensures y + 8 <= height ==>
      var all, n := WindowIndices(a, b, width, height, 0, y), Starts(width, 0);
      && n <= |all| && all[n..] == WindowIndices(a, b, width, height, 0, y + 4)
      && forall j | 0 <= j < n :: Fits(width, height, 4 * j, y) && all[j] == WindowIndex(a, b, width, height, 4 * j, y)
  {
    if y + 8 <= height {
      RowEnds(a, b, width, height, 0, y);
      forall j: nat | j < Starts(width, 0)
        ensures Fits(width, height, 4 * j, y)
        ensures WindowIndices(a, b, width, height, 0, y)[j] == WindowIndex(a, b, width, height, 4 * j, y)
      {
        RowAt(a, b, width, height, 0, y, j);
      }
    }
  }

  /** Planes of at most one window's width or height are compared whole, and count 0 with less than two pixels. */
  lemma SmallPlanesAreWhole(a: seq<real>, b: seq<real>, width: nat, height: nat)
    requires IsPlane(a, width, height) && IsPlane(b, width, height) && (width <= 8 || height <= 8)
    ensures |a| < 2 ==> MeanIndex(a, b, width, height) == 0.0
    ensures |a| >= 2 ==> MeanIndex(a, b, width, height) == Index(a, b)
  {
  }

  /** Above one window's size the mean is over all these windows. */
  lemma MeanIsOverGrid(a: seq<real>, b: seq<real>, width: nat, height: nat)
    requires IsPlane(a, width, height) && IsPlane(b, width, height) && width > 8 && height > 8
    ensures var all := WindowIndices(a, b, width, height, 0, 0);
      all != [] && IsRatio(MeanIndex(a, b, width, height), Sum(all), |all| as real)
  {
    var all := WindowIndices(a, b, width, height, 0, 0);
    assert |all| > 0;
    DividedIsRatio(Sum(all), |all| as real);
  }

  lemma DividedIsRatio(x: real, y: real)
    requires y > 0.0
    ensures IsRatio(x / y, x, y)
  {
  }

  /** The reported value is the mean, held within 0..1, in percent with one decimal. */
  lemma ReportedIsExact(mssim: real)
    ensures var tenths := (10.0 * Reported(mssim)).Floor;
      && 10.0 * Reported(mssim) == tenths as real && 0 <= tenths <= 1000
      && (mssim <= 0.0 ==> tenths == 0) && (mssim >= 1.0 ==> tenths == 1000)
      && (0.0 < mssim < 1.0 ==> IsNearest(tenths, 1000.0 * mssim))
  {
    var m := MaxReal(0.0, MinReal(1.0, mssim));
    RoundIsNearest(m * 1000.0);
    RoundOfInt(0);
    RoundOfInt(1000);
    RoundMonotone(0.0, m * 1000.0);
    RoundMonotone(m * 1000.0, 1000.0);
  }
}
