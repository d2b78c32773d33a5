/** Median hash bits over transform coefficients and their distance (phash.compare.ts). */
module PHash {
  import opened Common
  import opened Sorting

  const DCT_SIZE := 32
  const HASH_SIZE := 8
  const HASH_BITS := 64

  // ----- The median -----

  function AtMost(): (real, real) -> bool {
    (x: real, y: real) => x <= y
  }

  function MedianOf(values: seq<real>): real {
    SortPermutes(values, AtMost());
    var sorted := Sort(values, AtMost());
    var mid := |sorted| / 2;
    if |sorted| == 0 then 0.0
    else if |sorted| % 2 == 0 then (sorted[mid - 1] + sorted[mid]) / 2.0
    else sorted[mid]
  }

  function CountAbove(s: seq<real>, m: real): nat {
    if s == [] then 0 else Bit(s[0] > m) + CountAbove(s[1..], m)
  }

  function CountBelow(s: seq<real>, m: real): nat {
    if s == [] then 0 else Bit(s[0] < m) + CountBelow(s[1..], m)
  }

  lemma {:induction false} CountInsert(x: real, xs: seq<real>, m: real)
    ensures CountAbove(Insert(x, xs, AtMost()), m) == CountAbove(xs, m) + Bit(x > m)
    ensures CountBelow(Insert(x, xs, AtMost()), m) == CountBelow(xs, m) + Bit(x < m)
  {
    if xs == [] || AtMost()(x, xs[0]) {
      assert ([x] + xs)[1..] == xs;
    } else {
      CountInsert(x, xs[1..], m);
      assert ([xs[0]] + Insert(x, xs[1..], AtMost()))[1..] == Insert(x, xs[1..], AtMost());
    }
  }

  lemma {:induction false} CountSorted(xs: seq<real>, m: real)
    ensures CountAbove(Sort(xs, AtMost()), m) == CountAbove(xs, m)
    ensures CountBelow(Sort(xs, AtMost()), m) == CountBelow(xs, m)
  {
    if xs == [] {
    } else {
      CountSorted(xs[1..], m);
      CountInsert(xs[0], Sort(xs[1..], AtMost()), m);
    }
  }

  lemma {:induction false} CountAfter(s: seq<real>, m: real, k: nat)
    requires k <= |s| && forall i | 0 <= i < k :: s[i] <= m
    ensures CountAbove(s, m) <= |s| - k
    ensures CountAbove(s, m) == |s| - k <==> forall i | k <= i < |s| :: s[i] > m
    decreases |s|
  {
    if s == [] {
    } else {
      CountAfter(s[1..], m, if k == 0 then 0 else k - 1);
    }
  }

  lemma {:induction false} CountBefore(s: seq<real>, m: real, k: nat)
    requires k <= |s| && forall i | k <= i < |s| :: s[i] >= m
    ensures CountBelow(s, m) <= k
    decreases |s|
  {
    if s == [] {
    } else {
      CountBefore(s[1..], m, if k == 0 then 0 else k - 1);
    }
  }

  lemma SortedOrder(values: seq<real>)
    ensures var s := Sort(values, AtMost());
      |s| == |values| && multiset(s) == multiset(values) && forall i, j | 0 <= i <= j < |s| :: s[i] <= s[j]
  {
    SortPermutes(values, AtMost());
    SortSorts(values, AtMost());
    var s := Sort(values, AtMost());
    forall i, j | 0 <= i <= j < |s| ensures s[i] <= s[j] {
      assert i < j ==> AtMost()(s[i], s[j]);
    }
  }

  /** At most half of the values lie strictly above the median, and at most half strictly below. */
  lemma MedianSplits(values: seq<real>)
    ensures 2 * CountAbove(values, MedianOf(values)) <= |values|
    ensures 2 * CountBelow(values, MedianOf(values)) <= |values|
  {
    var m := MedianOf(values);
    var s := Sort(values, AtMost());
    SortedOrder(values);
    CountSorted(values, m);
    var mid := |s| / 2;
    if s != [] {
      CountAfter(s, m, if |s| % 2 == 0 then mid else mid + 1);
      CountBefore(s, m, mid);
    }
  }

  // ----- The hash -----

  predicate IsTransform(dct: seq<real>) {
    |dct| == DCT_SIZE * DCT_SIZE
  }

  /** The position of hash bit `k` among the coefficients. */
  function CoefficientIndex(k: nat): (i: nat)
    requires k < HASH_BITS
    ensures i < DCT_SIZE * DCT_SIZE
  {
    k / HASH_SIZE * DCT_SIZE + k % HASH_SIZE
  }

  /** The low-frequency coefficients, without the constant one. */
  function Coefficients(dct: seq<real>): (s: seq<real>)
    requires IsTransform(dct)
    ensures |s| == HASH_BITS - 1
  {
    seq(HASH_BITS - 1, k requires 0 <= k < HASH_BITS - 1 => dct[CoefficientIndex(k + 1)])
  }

  function HashBits(dct: seq<real>): (bits: seq<nat>)
    requires IsTransform(dct)
    ensures |bits| == HASH_BITS
  {
    var median := MedianOf(Coefficients(dct));
    seq(HASH_BITS, k requires 0 <= k < HASH_BITS => if k == 0 then 0 else Bit(dct[CoefficientIndex(k)] > median))
  }

  function Ones(bits: seq<nat>): nat {
    if bits == [] then 0 else Bit(bits[0] != 0) + Ones(bits[1..])
  }

  lemma {:induction false} OnesAreAbove(bits: seq<nat>, values: seq<real>, m: real)
    requires |bits| == |values| && forall i | 0 <= i < |bits| :: bits[i] == Bit(values[i] > m)
    ensures Ones(bits) == CountAbove(values, m)
  {
    if bits == [] {
    } else {
      OnesAreAbove(bits[1..], values[1..], m);
    }
  }

  lemma OnesOfHash(dct: seq<real>)
    requires IsTransform(dct)
    ensures Ones(HashBits(dct)) == CountAbove(Coefficients(dct), MedianOf(Coefficients(dct)))
  {
    var bits := HashBits(dct);
    OnesAreAbove(bits[1..], Coefficients(dct), MedianOf(Coefficients(dct)));
  }

  predicate Distinct(values: seq<real>) {
    forall i, j | 0 <= i < j < |values| :: values[i] != values[j]
  }

  /**
   * At most 31 of the 64 bits are set, whatever the coefficients; exactly 31 when the two middle
   * ones differ.
   */
  lemma AtMost31Bits(dct: seq<real>)
    requires IsTransform(dct)
    ensures Ones(HashBits(dct)) <= 31
    ensures var s := Sort(Coefficients(dct), AtMost());
      |s| == 63 && (Ones(HashBits(dct)) == 31 <==> s[32] > s[31])
  {
    var c := Coefficients(dct);
    var s, m := Sort(c, AtMost()), MedianOf(c);
    OnesOfHash(dct);
    SortedOrder(c);
    CountSorted(c, m);
    CountAfter(s, m, 32);
    if s[32] > s[31] {
      forall i | 32 <= i < |s| ensures s[i] > m {
        assert s[32] <= s[i];
      }
    }
  }

  // ----- The distance -----

  function Distance(a: seq<nat>, b: seq<nat>): nat {
    if a == [] || b == [] then 0 else Bit(a[0] != b[0]) + Distance(a[1..], b[1..])
  }

  lemma {:induction false} DistanceSnoc(a: seq<nat>, b: seq<nat>, k: nat)
    requires k < |a| && k < |b|
    ensures Distance(a[..k + 1], b[..k + 1]) == Distance(a[..k], b[..k]) + Bit(a[k] != b[k])
    decreases k
  {
    if k > 0 {
      assert a[..k + 1][1..] == a[1..][..k] && b[..k + 1][1..] == b[1..][..k];
      assert a[..k][1..] == a[1..][..k - 1] && b[..k][1..] == b[1..][..k - 1];
      DistanceSnoc(a[1..], b[1..], k - 1);
    } else {
      assert a[..1][1..] == [] && a[..0] == [];
    }
  }

  lemma {:induction false} DistanceOfCommon(a: seq<nat>, b: seq<nat>)
    ensures var n := Min(|a|, |b|); Distance(a, b) == Distance(a[..n], b[..n])
  {
    var n := Min(|a|, |b|);
    if n > 0 {
      DistanceOfCommon(a[1..], b[1..]);
      assert a[..n][1..] == a[1..][..n - 1] && b[..n][1..] == b[1..][..n - 1];
    }
  }

  /** The counting loop, over the common length. */
  method HammingDistance(a: array<nat>, b: array<nat>) returns (d: nat)
    ensures d == Distance(a[..], b[..])
  {
    d := 0;
    var n := Min(a.Length, b.Length);
    for i := 0 to n
      invariant d == Distance(a[..i], b[..i])
    {
      assert a[..][..i] == a[..i] && b[..][..i] == b[..i];
      assert a[..][..i + 1] == a[..i + 1] && b[..][..i + 1] == b[..i + 1];
      DistanceSnoc(a[..], b[..], i);
      if a[i] != b[i] {
        d := d + 1;
      }
    }
    assert a[..][..n] == a[..n] && b[..][..n] == b[..n];
    DistanceOfCommon(a[..], b[..]);
  }

  /** A metric on hashes of one length. */
  lemma {:induction false} DistanceIsMetric(a: seq<nat>, b: seq<nat>, c: seq<nat>)
    requires |a| == |b| == |c|
    ensures Distance(a, b) == Distance(b, a)
    ensures Distance(a, b) == 0 <==> a == b
    ensures Distance(a, c) <= Distance(a, b) + Distance(b, c)
    ensures Distance(a, b) <= |a|
  {
    if a == [] {
    } else {
      DistanceIsMetric(a[1..], b[1..], c[1..]);
      assert a == [a[0]] + a[1..] && b == [b[0]] + b[1..];
    }
  }

  predicate IsBits(bits: seq<nat>) {
    forall i | 0 <= i < |bits| :: bits[i] <= 1
  }

  lemma {:induction false} DistanceByOnes(a: seq<nat>, b: seq<nat>)
    requires IsBits(a) && IsBits(b)
    ensures Distance(a, b) <= Ones(a) + Ones(b)
  {
    if a == [] || b == [] {
    } else {
      DistanceByOnes(a[1..], b[1..]);
    }
  }

  /** Two median hashes never differ in more than 62 of their 64 bits. */
  lemma HashesDifferInAtMost62(x: seq<real>, y: seq<real>)
    requires IsTransform(x) && IsTransform(y)
    ensures Distance(HashBits(x), HashBits(y)) <= 62
  {
    AtMost31Bits(x);
    AtMost31Bits(y);
    DistanceByOnes(HashBits(x), HashBits(y));
  }

  function Similarity(distance: nat): real {
    Round((HASH_BITS - distance) as real / HASH_BITS as real * 1000.0) as real / 10.0
  }

  /** So no two images score below 3.1, and 100 means equal hashes. */
  lemma SimilarityInRange(x: seq<real>, y: seq<real>)
    requires IsTransform(x) && IsTransform(y)
    ensures var s := Similarity(Distance(HashBits(x), HashBits(y)));
      3.1 <= s <= 100.0 && (s == 100.0 <==> HashBits(x) == HashBits(y))
  {
    HashesDifferInAtMost62(x, y);
    DistanceIsMetric(HashBits(x), HashBits(y), HashBits(y));
    var d := Distance(HashBits(x), HashBits(y));
    var v := (HASH_BITS - d) as real / HASH_BITS as real * 1000.0;
    assert v == (HASH_BITS - d) as real * 15.625;
    RoundBelow(v, 31);
    RoundBelow(v, 1001);
    RoundBelow(v, 1000);
  }

  /** Row `y` of the low-frequency corner, without the constant coefficient. */
  method CollectRow(dct: array<real>, y: nat, coeffs: seq<real>) returns (more: seq<real>)
    requires IsTransform(dct[..]) && y < HASH_SIZE
    requires coeffs == Coefficients(dct[..])[..Max(0, HASH_SIZE * y - 1)]
    ensures more == Coefficients(dct[..])[..HASH_SIZE * y + HASH_SIZE - 1]
  {
    ghost var all := Coefficients(dct[..]);
    more := coeffs;
    for x := 0 to HASH_SIZE
      invariant more == all[..Max(0, HASH_SIZE * y + x - 1)]
    {
      if x == 0 && y == 0 {
        continue;
      }
      RowIndex(y, x);
      TakeOneMore(all, HASH_SIZE * y + x - 1);
      more := more + [dct[y * DCT_SIZE + x]];
    }
  }

  lemma RowIndex(y: nat, x: nat)
    requires y < HASH_SIZE && x < HASH_SIZE
    ensures HASH_SIZE * y + x < HASH_BITS && CoefficientIndex(HASH_SIZE * y + x) == y * DCT_SIZE + x
  {
  }

  lemma TakeOneMore<T>(s: seq<T>, k: nat)
    requires k < |s|
    ensures s[..k + 1] == s[..k] + [s[k]]
  {
  }

  method CollectCoefficients(dct: array<real>) returns (coeffs: seq<real>)
    requires IsTransform(dct[..])
    ensures coeffs == Coefficients(dct[..])
  {
    coeffs := [];
    for y := 0 to HASH_SIZE
      invariant coeffs == Coefficients(dct[..])[..Max(0, HASH_SIZE * y - 1)]
    {
      coeffs := CollectRow(dct, y, coeffs);
    }
  }

  /** Fills the hash bit by bit from the transformed pixels. */
  method ComputePHashBits(dct: array<real>) returns (bits: array<nat>)
    requires IsTransform(dct[..])
    ensures fresh(bits) && bits[..] == HashBits(dct[..])
  {
    var coeffs := CollectCoefficients(dct);
    var median := MedianOf(coeffs);
    bits := new nat[HASH_BITS];
    ghost var hash := HashBits(dct[..]);
    for y := 0 to HASH_SIZE
      invariant FilledTo(bits[..], hash, HASH_SIZE * y)
    {
      FillRow(dct, median, bits, y);
    }
  }

  predicate FilledTo(bits: seq<nat>, hash: seq<nat>, n: nat) {
    |bits| == |hash| && n <= |hash| && forall k | 0 <= k < n :: bits[k] == hash[k]
  }

  method FillRow(dct: array<real>, median: real, bits: array<nat>, y: nat)
    requires IsTransform(dct[..]) && median == MedianOf(Coefficients(dct[..])) && y < HASH_SIZE
    requires FilledTo(bits[..], HashBits(dct[..]), HASH_SIZE * y)
    modifies bits
    ensures FilledTo(bits[..], HashBits(dct[..]), HASH_SIZE * y + HASH_SIZE)
  {
    ghost var hash := HashBits(dct[..]);
    var bit := HASH_SIZE * y;
    for x := 0 to HASH_SIZE
      invariant bit == HASH_SIZE * y + x
      invariant FilledTo(bits[..], hash, bit)
    {
      RowIndex(y, x);
      bits[bit] := if x == 0 && y == 0 then 0 else Bit(dct[y * DCT_SIZE + x] > median);
      bit := bit + 1;
    }
  }

  // ----- Exact values -----

  predicate Ordered(s: seq<real>) {
    forall i, j | 0 <= i <= j < |s| :: s[i] <= s[j]
  }

  lemma HeadsAgree(s: seq<real>, t: seq<real>)
    requires Ordered(s) && Ordered(t) && multiset(s) == multiset(t) && s != []
    ensures t != [] && s[0] == t[0]
  {
    SameLength(s, t);
    assert s[0] in multiset(t) && t[0] in multiset(s);
    var i :| 0 <= i < |t| && t[i] == s[0];
    var j :| 0 <= j < |s| && s[j] == t[0];
    assert s[0] <= s[j] && t[0] <= t[i];
  }

  lemma TailBag(s: seq<real>)
    requires s != []
    ensures multiset(s[1..]) == multiset(s) - multiset{s[0]}
  {
    assert s == [s[0]] + s[1..];
  }

  lemma {:induction false} SortedIsUnique(s: seq<real>, t: seq<real>)
    requires Ordered(s) && Ordered(t) && multiset(s) == multiset(t)
    ensures s == t
  {
    SameLength(s, t);
    if s != [] {
      HeadsAgree(s, t);
      TailBag(s);
      TailBag(t);
      SortedIsUnique(s[1..], t[1..]);
      assert s == [s[0]] + s[1..] && t == [t[0]] + t[1..];
    }
  }

  lemma SameLength(s: seq<real>, t: seq<real>)
    requires multiset(s) == multiset(t)
    ensures |s| == |t|
  {
    assert |multiset(s)| == |s| && |multiset(t)| == |t|;
  }

  /** The middle of the values in order, the mean of the two middle ones for an even number, 0 for none. */
  lemma MedianIsMiddle(values: seq<real>, s: seq<real>)
    requires Ordered(s) && multiset(s) == multiset(values)
    ensures var m := MedianOf(values); var n := |s|;
      && (n == 0 ==> m == 0.0)
      && (n % 2 == 1 ==> m == s[n / 2])
      && (n % 2 == 0 && n > 0 ==> 2.0 * m == s[n / 2 - 1] + s[n / 2])
  {
    SortedOrder(values);
    SortedIsUnique(s, Sort(values, AtMost()));
  }

  /** Bit `8 y + x` tells whether coefficient (x, y) of the corner exceeds the median of the 63; bit 0 is 0. */
  lemma HashBitIsExact(dct: seq<real>, x: nat, y: nat)
    requires IsTransform(dct) && x < 8 && y < 8
    ensures var k, median := 8 * y + x, MedianOf(Coefficients(dct));
      && |Coefficients(dct)| == 63 && |HashBits(dct)| == 64
      && (k > 0 ==> Coefficients(dct)[k - 1] == dct[32 * y + x])
      && HashBits(dct)[k] == (if k > 0 && dct[32 * y + x] > median then 1 else 0)
  {
    assert (8 * y + x) / 8 == y && (8 * y + x) % 8 == x;
  }

  /** The positions up to the shorter length where the bits differ. */
  function Differing(a: seq<nat>, b: seq<nat>): set<int> {
    set i | 0 <= i < |a| && i < |b| && a[i] != b[i]
  }

  lemma DifferingGrows(a: seq<nat>, b: seq<nat>, n: nat)
    requires 0 < n <= |a| && n <= |b|
    ensures |Differing(a[..n], b[..n])| == |Differing(a[..n - 1], b[..n - 1])| + Bit(a[n - 1] != b[n - 1])
  {
    var before := Differing(a[..n - 1], b[..n - 1]);
    assert Differing(a[..n], b[..n]) == if a[n - 1] != b[n - 1] then before + {n - 1} else before;
  }

  lemma {:induction false} DistanceIsCount(a: seq<nat>, b: seq<nat>, n: nat)
    requires n <= |a| && n <= |b|
    ensures Distance(a[..n], b[..n]) == |Differing(a[..n], b[..n])|
    decreases n
  {
    if n == 0 {
      assert Differing(a[..n], b[..n]) == {};
    } else {
      DistanceIsCount(a, b, n - 1);
      DistanceSnoc(a, b, n - 1);
      DifferingGrows(a, b, n);
    }
  }

  /** The loop's result is the number of differing positions. */
  lemma DistanceCountsPositions(a: seq<nat>, b: seq<nat>)
    ensures Distance(a, b) == |Differing(a, b)|
  {
    var n := Min(|a|, |b|);
    DistanceOfCommon(a, b);
    DistanceIsCount(a, b, n);
    assert Differing(a[..n], b[..n]) == Differing(a, b);
  }

  /** The similarity is the share of equal bits in percent, with one decimal. */
  lemma SimilarityIsExact(distance: nat)
    requires distance <= 64
    ensures var tenths := (10.0 * Similarity(distance)).Floor;
      10.0 * Similarity(distance) == tenths as real && IsNearest(tenths, 15.625 * (64 - distance) as real)
  {
    RoundIsNearest(15.625 * (64 - distance) as real);
    assert (64 - distance) as real / 64.0 * 1000.0 == 15.625 * (64 - distance) as real;
  }
}
