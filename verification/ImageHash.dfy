/** Average hashes as hex text and their bit distance (image-hash.util.ts). */
module ImageHash {
  import opened Common
  import opened Text

  // ----- Numbers as bits -----

  /** `x ^ y`. */
  function Xor(x: nat, y: nat): nat
    decreases x + y
  {
    if x == 0 && y == 0 then 0 else 2 * Xor(x / 2, y / 2) + Bit(x % 2 != y % 2)
  }

  function Popcount(n: nat): nat {
    if n == 0 then 0 else n % 2 + Popcount(n / 2)
  }

  function Power2(w: nat): nat {
    if w == 0 then 1 else 2 * Power2(w - 1)
  }

  /** How many of the lowest `w` bits differ. */
  function DifferingBits(x: nat, y: nat, w: nat): nat {
    if w == 0 then 0 else Bit(x % 2 != y % 2) + DifferingBits(x / 2, y / 2, w - 1)
  }

  lemma XorStep(x: nat, y: nat)
    ensures Popcount(Xor(x, y)) == Bit(x % 2 != y % 2) + Popcount(Xor(x / 2, y / 2))
  {
    var v := Xor(x, y);
    if x != 0 || y != 0 {
      assert v / 2 == Xor(x / 2, y / 2) && v % 2 == Bit(x % 2 != y % 2);
    }
  }

  /** The population count of the exclusive or is the number of differing bits. */
  lemma {:induction false} XorCountsDifferences(x: nat, y: nat, w: nat)
    requires x < Power2(w) && y < Power2(w)
    ensures Popcount(Xor(x, y)) == DifferingBits(x, y, w)
  {
    if w == 0 {
    } else {
      XorStep(x, y);
      XorCountsDifferences(x / 2, y / 2, w - 1);
    }
  }

  lemma {:induction false} FitsWidth(x: nat)
    ensures x < Power2(x)
  {
    if x == 0 {
    } else {
      FitsWidth(x - 1);
    }
  }

  lemma {:induction false} WiderFits(w: nat, v: nat)
    requires w <= v
    ensures Power2(w) <= Power2(v)
  {
    if w == v {
    } else {
      WiderFits(w, v - 1);
    }
  }

  function Hamming(x: nat, y: nat): nat {
    Popcount(Xor(x, y))
  }

  lemma {:induction false} DifferingIsMetric(x: nat, y: nat, z: nat, w: nat)
    requires x < Power2(w) && y < Power2(w) && z < Power2(w)
    ensures DifferingBits(x, y, w) == DifferingBits(y, x, w)
    ensures DifferingBits(x, y, w) == 0 <==> x == y
    ensures DifferingBits(x, z, w) <= DifferingBits(x, y, w) + DifferingBits(y, z, w)
    ensures DifferingBits(x, y, w) <= w
  {
    if w == 0 {
    } else {
      DifferingIsMetric(x / 2, y / 2, z / 2, w - 1);
      assert x == 2 * (x / 2) + x % 2 && y == 2 * (y / 2) + y % 2;
    }
  }

  /** A metric on numbers, at most as large as the wider one has bits. */
  lemma HammingIsMetric(x: nat, y: nat, z: nat)
    ensures Hamming(x, y) == Hamming(y, x)
    ensures Hamming(x, y) == 0 <==> x == y
    ensures Hamming(x, z) <= Hamming(x, y) + Hamming(y, z)
  {
    var w := x + y + z;
    FitsWidth(x);
    FitsWidth(y);
    FitsWidth(z);
    WiderFits(x, w);
    WiderFits(y, w);
    WiderFits(z, w);
    XorCountsDifferences(x, y, w);
    XorCountsDifferences(y, x, w);
    XorCountsDifferences(y, z, w);
    XorCountsDifferences(x, z, w);
    DifferingIsMetric(x, y, z, w);
  }

  lemma HammingAtMost(x: nat, y: nat, w: nat)
    requires x < Power2(w) && y < Power2(w)
    ensures Hamming(x, y) <= w
  {
    XorCountsDifferences(x, y, w);
    DifferingIsMetric(x, y, x, w);
  }

  // ----- Hex text -----

  function HexDigit(c: char): Option<nat> {
    if '0' <= c <= '9' then Some((c - '0') as nat)
    else if 'a' <= c <= 'f' then Some((c - 'a') as nat + 10)
    else if 'A' <= c <= 'F' then Some((c - 'A') as nat + 10)
    else None
  }

  predicate IsHex(s: string) {
    forall i | 0 <= i < |s| :: HexDigit(s[i]).Some?
  }

  function HexValue(s: string): nat
    requires IsHex(s)
  {
    if s == [] then 0 else 16 * HexValue(s[..|s| - 1]) + HexDigit(s[|s| - 1]).value
  }

  /** `BigInt("0x" + s)`: blanks at the end are ignored; None stands for the syntax error. */
  function ParseHex(s: string): Option<nat> {
    var t := TrimEnd(s);
    if t == "" || !IsHex(t) then None else Some(HexValue(t))
  }

  lemma {:induction false} HexValueFits(s: string)
    requires IsHex(s)
    ensures HexValue(s) < Power2(4 * |s|)
  {
    if s == [] {
    } else {
      HexValueFits(s[..|s| - 1]);
      Power2Step(4 * (|s| - 1));
    }
  }

  lemma Power2Step(w: nat)
    ensures Power2(w + 4) == 16 * Power2(w)
  {
    assert Power2(w + 1) == 2 * Power2(w);
    assert Power2(w + 2) == 2 * Power2(w + 1);
    assert Power2(w + 3) == 2 * Power2(w + 2);
  }

  lemma {:induction false} TrimEndShortens(s: string)
    ensures |TrimEnd(s)| <= |s|
  {
    if s == [] || !IsSpace(s[|s| - 1]) {
    } else {
      TrimEndShortens(s[..|s| - 1]);
    }
  }

  function Distance(a: string, b: string): Option<nat> {
    var x, y := ParseHex(a), ParseHex(b);
    if x.Some? && y.Some? then Some(Hamming(x.value, y.value)) else None
  }

  /** The xor-and-shift loop: the number of differing bits, for every pair of texts that parse. */
  method HammingDistance(a: string, b: string) returns (r: Option<nat>)
    ensures r == Distance(a, b)
  {
    var left, right := ParseHex(a), ParseHex(b);
    if left.None? || right.None? {
      return None;
    }
    var xor := Xor(left.value, right.value);
    var distance := 0;
    while xor > 0
      invariant distance + Popcount(xor) == Hamming(left.value, right.value)
    {
      distance := distance + xor % 2;
      xor := xor / 2;
    }
    r := Some(distance);
  }

  /** Texts that both parse never differ in more bits than four per character of the longer one. */
  lemma DistanceBound(a: string, b: string)
    requires Distance(a, b).Some?
    ensures 0 < Max(|a|, |b|) && Distance(a, b).value <= 4 * Max(|a|, |b|)
  {
    var s, t, w := TrimEnd(a), TrimEnd(b), 4 * Max(|a|, |b|);
    TrimEndShortens(a);
    TrimEndShortens(b);
    HexValueFits(s);
    HexValueFits(t);
    WiderFits(4 * |s|, w);
    WiderFits(4 * |t|, w);
    HammingAtMost(HexValue(s), HexValue(t), w);
  }

  function Similarity(a: string, b: string): Option<real> {
    var d := Distance(a, b);
    if d.None? then None
    else
      DistanceBound(a, b);
      Some(MaxReal(0.0, 1.0 - d.value as real / (4 * Max(|a|, |b|)) as real))
  }

  /** The lower clamp is never active, and 1 means the same number (not always the same text). */
  lemma SimilarityInRange(a: string, b: string)
    requires Similarity(a, b).Some?
    ensures var bits := (4 * Max(|a|, |b|)) as real; var d := Distance(a, b).value as real;
      bits > 0.0 && Similarity(a, b).value == 1.0 - d / bits && 0.0 <= Similarity(a, b).value <= 1.0
    ensures Similarity(a, b).value == 1.0 <==> ParseHex(a) == ParseHex(b)
    ensures Similarity(b, a) == Similarity(a, b)
  {
    DistanceBound(a, b);
    QuotientCompares(Distance(a, b).value as real, (4 * Max(|a|, |b|)) as real);
    HammingIsMetric(ParseHex(a).value, ParseHex(b).value, 0);
  }

  lemma SameNumberDifferentText()
    ensures Similarity("0F", "f") == Some(1.0)
  {
    assert TrimEnd("0F") == "0F" && TrimEnd("f") == "f";
    assert IsHex("0F") && IsHex("f");
    assert "0F"[..1] == "0" && "0"[..0] == "" && "f"[..0] == "";
    assert HexValue("0") == 0;
    assert HexValue("0F") == 15 && HexValue("f") == 15;
    SimilarityInRange("0F", "f");
  }

  // ----- Average hashes -----

  function BinaryValue(bits: seq<bool>): nat {
    if bits == [] then 0 else 2 * BinaryValue(bits[..|bits| - 1]) + Bit(bits[|bits| - 1])
  }

  const HEX := "0123456789abcdef"

  /** `n.toString(16)`. */
  function HexText(n: nat): string {
    if n < 16 then [HEX[n]] else HexText(n / 16) + [HEX[n % 16]]
  }

  function HashText(bits: seq<bool>): string {
    PadStart(HexText(BinaryValue(bits)), 16)
  }

  lemma DigitRoundTrip(n: nat)
    requires n < 16
    ensures HexDigit(HEX[n]) == Some(n) && !IsSpace(HEX[n])
  {
  }

  lemma {:induction false} TextRoundTrip(n: nat)
    ensures HexText(n) != [] && IsHex(HexText(n)) && HexValue(HexText(n)) == n
    ensures forall i | 0 <= i < |HexText(n)| :: !IsSpace(HexText(n)[i])
  {
    var s := HexText(n);
    if n < 16 {
      DigitRoundTrip(n);
      assert s[..0] == [];
    } else {
      TextRoundTrip(n / 16);
      DigitRoundTrip(n % 16);
      assert s[..|s| - 1] == HexText(n / 16);
    }
  }

  lemma {:induction false} ZeroInFront(s: string)
    requires IsHex(s)
    ensures IsHex(['0'] + s) && HexValue(['0'] + s) == HexValue(s)
  {
    var t := ['0'] + s;
    assert HexDigit('0') == Some(0);
    if s == [] {
      assert t[..0] == [];
    } else {
      assert t[..|t| - 1] == ['0'] + s[..|s| - 1] && t[|t| - 1] == s[|s| - 1];
      ZeroInFront(s[..|s| - 1]);
    }
  }

  predicate NoBlanks(s: string) {
    forall i | 0 <= i < |s| :: !IsSpace(s[i])
  }

  lemma {:induction false} PaddedValue(s: string, width: nat)
    requires s != [] && IsHex(s) && NoBlanks(s)
    ensures var t := PadStart(s, width); t != [] && IsHex(t) && NoBlanks(t) && HexValue(t) == HexValue(s)
    decreases width - |s|
  {
    if |s| >= width {
    } else {
      ZeroInFront(s);
      assert !IsSpace('0');
      PaddedValue(['0'] + s, width);
    }
  }

  /** Parsing a printed hash gives back the number that its bits spell. */
  lemma HashRoundTrip(bits: seq<bool>)
    ensures ParseHex(HashText(bits)) == Some(BinaryValue(bits))
  {
    TextRoundTrip(BinaryValue(bits));
    PaddedValue(HexText(BinaryValue(bits)), 16);
    var t := HashText(bits);
    assert !IsSpace(t[|t| - 1]);
  }

  function CountDiffer(a: seq<bool>, b: seq<bool>): nat
    requires |a| == |b|
  {
    if a == [] then 0 else CountDiffer(a[..|a| - 1], b[..|b| - 1]) + Bit(a[|a| - 1] != b[|b| - 1])
  }

  lemma {:induction false} HammingOfBits(a: seq<bool>, b: seq<bool>)
    requires |a| == |b|
    ensures Hamming(BinaryValue(a), BinaryValue(b)) == CountDiffer(a, b)
  {
    if a == [] {
    } else {
      HammingOfBits(a[..|a| - 1], b[..|b| - 1]);
      XorStep(BinaryValue(a), BinaryValue(b));
    }
  }

  /** Through print and parse, the distance of two hashes is the number of pixels that disagree. */
  lemma HashDistanceCountsPixels(a: seq<bool>, b: seq<bool>)
    requires |a| == |b|
    ensures Distance(HashText(a), HashText(b)) == Some(CountDiffer(a, b))
  {
    HashRoundTrip(a);
    HashRoundTrip(b);
    HammingOfBits(a, b);
  }

  function Total(raw: seq<nat>): nat {
    if raw == [] then 0 else Total(raw[..|raw| - 1]) + raw[|raw| - 1]
  }

  function Average(raw: seq<nat>): real {
    Total(raw) as real / Max(|raw|, 1) as real
  }

  /** Which pixels are at least as bright as the average. */
  function AverageBits(raw: seq<nat>): (bits: seq<bool>)
    ensures |bits| == |raw|
  {
    seq(|raw|, i requires 0 <= i < |raw| => raw[i] as real >= Average(raw))
  }

  method ComputeAverageHash(raw: seq<nat>) returns (hash: string)
    requires raw != []
    ensures hash == HashText(AverageBits(raw))
  {
    var total := 0;
    for i := 0 to |raw|
      invariant total == Total(raw[..i])
    {
      assert raw[..i + 1][..i] == raw[..i];
      total := total + raw[i];
    }
    assert raw[..|raw|] == raw;
    var average := total as real / Max(|raw|, 1) as real;
    assert average == Average(raw);
    var bits: seq<bool> := [];
    for i := 0 to |raw|
      invariant bits == AverageBits(raw)[..i]
    {
      assert AverageBits(raw)[..i + 1] == AverageBits(raw)[..i] + [AverageBits(raw)[i]];
      bits := bits + [raw[i] as real >= average];
    }
    assert AverageBits(raw)[..|raw|] == AverageBits(raw);
    hash := HashText(bits);
  }

  lemma {:induction false} AllBelowTotal(raw: seq<nat>, bound: real)
    requires raw != [] && forall i | 0 <= i < |raw| :: (raw[i] as real) < bound
    ensures Total(raw) as real < bound * |raw| as real
  {
    var k := |raw| - 1;
    assert bound * |raw| as real == bound * k as real + bound;
    if k > 0 {
      AllBelowTotal(raw[..k], bound);
    }
  }

  /** Some pixel is at least average, so no image hashes to zero. */
  lemma HashIsNotZero(raw: seq<nat>)
    requires raw != []
    ensures exists i :: 0 <= i < |raw| && AverageBits(raw)[i]
  {
    var n := |raw| as real;
    assert Average(raw) * n == Total(raw) as real;
    if forall i | 0 <= i < |raw| :: (raw[i] as real) < Average(raw) {
      AllBelowTotal(raw, Average(raw));
    }
    var i :| 0 <= i < |raw| && !((raw[i] as real) < Average(raw));
    assert AverageBits(raw)[i];
  }

  // ----- Exact values -----

  /** The similarity is what the share of differing bits leaves, of four bits for each character of the longer text. */
  lemma SimilarityIsExact(a: string, b: string)
    requires Similarity(a, b).Some?
    ensures var w := 4 * Max(|a|, |b|); var x, y := ParseHex(a).value, ParseHex(b).value;
      && x < Power2(w) && y < Power2(w)
      && Similarity(a, b).value == 1.0 - DifferingBits(x, y, w) as real / w as real
  {
    var s, t, w := TrimEnd(a), TrimEnd(b), 4 * Max(|a|, |b|);
    SimilarityInRange(a, b);
    TrimEndShortens(a);
    TrimEndShortens(b);
    HexValueFits(s);
    HexValueFits(t);
    WiderFits(4 * |s|, w);
    WiderFits(4 * |t|, w);
    XorCountsDifferences(HexValue(s), HexValue(t), w);
  }

  /** Digits have the values 0 to 15, letters in either case; other characters have none. */
  lemma HexDigitIsExact(c: char)
    ensures var n := c as int; var d := HexDigit(c);
      && (48 <= n <= 57 ==> d == Some(n - 48))
      && (97 <= n <= 102 ==> d == Some(n - 87))
      && (65 <= n <= 70 ==> d == Some(n - 55))
      && (!(48 <= n <= 57 || 97 <= n <= 102 || 65 <= n <= 70) ==> d.None?)
  {
  }

  predicate TimesReaches(x: real, n: real, t: real) {
    x * n >= t
  }

  /** A bit is set iff the pixel, times the number of pixels, reaches the sum of all pixels. */
  lemma AverageBitIff(raw: seq<nat>, i: nat)
    requires i < |raw|
    ensures AverageBits(raw)[i] <==> TimesReaches(raw[i] as real, |raw| as real, Total(raw) as real)
  {
    assert Max(|raw|, 1) == |raw|;
    assert AverageBits(raw)[i] <==> raw[i] as real >= Average(raw);
    AtLeastQuotient(raw[i] as real, Total(raw) as real, |raw| as real);
  }

  lemma AtLeastQuotient(x: real, t: real, n: real)
    requires n > 0.0
    ensures x >= t / n <==> TimesReaches(x, n, t)
  {
    assert t / n * n == t;
    if x >= t / n {
      assert (x - t / n) * n >= 0.0;
    } else {
      assert (t / n - x) * n > 0.0;
    }
  }

  // ----- The printed hash -----

  lemma HalfOfDouble(f: nat, l: nat, p: nat)
    requires p > 0 && l <= 1
    ensures (2 * f + l) / (2 * p) == f / p
  {
    var q, r := f / p, f % p;
    assert f == p * q + r;
    assert 2 * f + l == 2 * p * q + (2 * r + l);
    QuotientIs(2 * f + l, 2 * p, q, 2 * r + l);
  }

  lemma QuotientIs(n: nat, d: nat, q: nat, r: nat)
    requires d > 0 && r < d && n == d * q + r
    ensures n / d == q
  {
    var k := q - n / d;
    SmallMultiple(d, k);
    assert n == d * (n / d) + n % d;
    assert d * k == d * q - d * (n / d);
  }

  lemma SmallMultiple(d: int, k: int)
    requires d > 0
    ensures -d < d * k < d ==> k == 0
  {
    if k > 0 {
      AtLeastOnce(d, k);
    } else if k < 0 {
      AtLeastOnce(d, -k);
      assert d * -k == -(d * k);
    }
  }

  lemma {:induction false} AtLeastOnce(d: int, k: nat)
    requires d > 0 && k > 0
    ensures d * k >= d
  {
    if k > 1 {
      AtLeastOnce(d, k - 1);
      assert d * k == d * (k - 1) + d;
    }
  }

  /** The binary digit of weight `p`. */
  function Digit(n: nat, p: nat): nat
    requires p > 0
  {
    n / p % 2
  }

  lemma DigitMovesUp(f: nat, l: nat, p: nat)
    requires p > 0 && l <= 1
    ensures Digit(2 * f + l, 2 * p) == Digit(f, p)
  {
    HalfOfDouble(f, l, p);
  }

  lemma BinarySnoc(front: seq<bool>, last: bool)
    ensures BinaryValue(front + [last]) == 2 * BinaryValue(front) + Bit(last)
  {
    assert (front + [last])[..|front|] == front;
  }

  /** Binary digit `i` from the top, of as many as there are bits, is bit `i`. */
  predicate Spells(n: nat, bits: seq<bool>, i: nat) {
    i < |bits| && Power2(|bits| - 1 - i) > 0 && Digit(n, Power2(|bits| - 1 - i)) == Bit(bits[i])
  }

  lemma LastBitSpelled(front: seq<bool>, last: bool)
    ensures Spells(BinaryValue(front + [last]), front + [last], |front|)
  {
    BinarySnoc(front, last);
    LowestDigit(BinaryValue(front), Bit(last));
    assert Power2(0) == 1;
  }

  lemma LowestDigit(f: nat, l: nat)
    requires l <= 1
    ensures Digit(2 * f + l, 1) == l
  {
    QuotientIs(2 * f + l, 1, 2 * f + l, 0);
    assert (2 * f + l) % 2 == l;
  }

  lemma FrontBitSpelled(front: seq<bool>, last: bool, i: nat)
    requires i < |front| && Spells(BinaryValue(front), front, i)
    ensures Spells(BinaryValue(front + [last]), front + [last], i)
  {
    var p := Power2(|front| - 1 - i);
    BinarySnoc(front, last);
    DigitMovesUp(BinaryValue(front), Bit(last), p);
    assert Power2(|front| - i) == 2 * p;
  }

  lemma {:induction false} BinaryFits(bits: seq<bool>)
    ensures BinaryValue(bits) < Power2(|bits|)
  {
    if bits != [] {
      BinaryFits(bits[..|bits| - 1]);
    }
  }

  /** The number's binary digits are the bits, the first one highest. */
  lemma {:induction false} SpelledBits(bits: seq<bool>, i: nat)
    requires i < |bits|
    ensures Spells(BinaryValue(bits), bits, i)
  {
    var front, last := bits[..|bits| - 1], bits[|bits| - 1];
    assert bits == front + [last];
    if i < |front| {
      SpelledBits(front, i);
      FrontBitSpelled(front, last, i);
    } else {
      LastBitSpelled(front, last);
    }
  }

  lemma {:induction false} HexTextLength(n: nat, k: nat)
    requires k > 0 && n < Power2(4 * k)
    ensures |HexText(n)| <= k
  {
    if n >= 16 {
      assert Power2(4 * k) == 16 * Power2(4 * (k - 1)) by {
        assert Power2(4 * k) == 2 * Power2(4 * k - 1) && Power2(4 * k - 1) == 2 * Power2(4 * k - 2);
        assert Power2(4 * k - 2) == 2 * Power2(4 * k - 3) && Power2(4 * k - 3) == 2 * Power2(4 * k - 4);
      }
      assert k > 1 by {
        assert Power2(0) == 1;
      }
      HexTextLength(n / 16, k - 1);
    }
  }

  lemma {:induction false} PadLength(s: string, width: nat)
    ensures |PadStart(s, width)| == Max(|s|, width)
    decreases width - |s|
  {
    if |s| < width {
      PadLength(['0'] + s, width);
    }
  }

  /** The hash of up to 64 pixels has 16 hex digits, and its number has the pixels' bits as binary digits. */
  lemma HashIsExact(bits: seq<bool>)
    requires 0 < |bits| <= 64
    ensures |HashText(bits)| == 16 && ParseHex(HashText(bits)).Some?
    ensures var n := ParseHex(HashText(bits)).value;
      && n < Power2(|bits|)
      && forall i: nat | i < |bits| :: Spells(n, bits, i)
  {
    HashRoundTrip(bits);
    forall i: nat | i < |bits| ensures Spells(BinaryValue(bits), bits, i) {
      SpelledBits(bits, i);
    }
    BinaryFits(bits);
    WiderFits(|bits|, 64);
    HexTextLength(BinaryValue(bits), 16);
    PadLength(HexText(BinaryValue(bits)), 16);
  }
}
