/** Case numbers: zero-padded print, textual maximum, next number (investigation.service.ts). */
module CaseNumber {
  import opened Common
  import opened Text

  function Digit(d: nat): char
    requires d < 10
  {
    '0' + d as char
  }

  /** `String(n)`. */
  function Decimal(n: nat): (s: string)
    ensures s != []
  {
    if n < 10 then [Digit(n)] else Decimal(n / 10) + [Digit(n % 10)]
  }

  const WIDTH := 6
  const LIMIT := 1000000

  function Print(n: nat): string {
    PadStart(Decimal(n), WIDTH)
  }

  predicate IsDigit(c: char) {
    '0' <= c <= '9'
  }

  function DigitRun(s: string): string {
    if s != [] && IsDigit(s[0]) then [s[0]] + DigitRun(s[1..]) else []
  }

  function ValueOf(s: string): nat
    requires forall c | c in s :: IsDigit(c)
  {
    if s == [] then 0
    else
      assert IsDigit(s[|s| - 1]);
      ValueOf(s[..|s| - 1]) * 10 + (s[|s| - 1] - '0') as nat
  }

  lemma {:induction false} DigitRunDigits(s: string)
    ensures forall c | c in DigitRun(s) :: IsDigit(c)
    ensures (forall c | c in s :: IsDigit(c)) ==> DigitRun(s) == s
  {
    if s == [] {
    } else {
      DigitRunDigits(s[1..]);
      assert forall c | c in s[1..] :: c in s;
    }
  }

  /** `parseInt(s, 10)` for text without sign or blanks; None stands for NaN. */
  function ParseInt(s: string): Option<nat> {
    DigitRunDigits(s);
    if DigitRun(s) == [] then None else Some(ValueOf(DigitRun(s)))
  }

  /** The database's text order. */
  predicate TextLess(a: string, b: string) {
    b != [] && (a == [] || a[0] < b[0] || (a[0] == b[0] && TextLess(a[1..], b[1..])))
  }

  /** The first row of `ORDER BY caseNo DESC`. */
  function TextMax(s: seq<string>): (m: string)
    requires s != []
    ensures m in s
  {
    if |s| == 1 then s[0]
    else
      var m := TextMax(s[1..]);
      if TextLess(s[0], m) then m else s[0]
  }

  /** The number after the textually greatest one of the day. */
  function NextNumber(existing: seq<string>): string {
    if existing == [] then Print(1)
    else
      var n := ParseInt(TextMax(existing));
      Print(if n.Some? then n.value + 1 else 1)
  }

  // ----- Print and parse -----

  lemma {:induction false} PadValue(s: string, width: nat)
    requires forall c | c in s :: IsDigit(c)
    ensures forall c | c in PadStart(s, width) :: IsDigit(c)
    ensures ValueOf(PadStart(s, width)) == ValueOf(s)
    decreases width - |s|
  {
    if |s| >= width {
    } else {
      PadValue(['0'] + s, width);
      ZeroInFront(s);
    }
  }

  lemma {:induction false} ZeroInFront(s: string)
    requires forall c | c in s :: IsDigit(c)
    ensures ValueOf(['0'] + s) == ValueOf(s)
  {
    var t := ['0'] + s;
    if s == [] {
      assert t[..0] == [];
    } else {
      assert t[..|t| - 1] == ['0'] + s[..|s| - 1];
      assert t[|t| - 1] == s[|s| - 1];
      ZeroInFront(s[..|s| - 1]);
    }
  }

  lemma {:induction false} DecimalValue(n: nat)
    ensures forall c | c in Decimal(n) :: IsDigit(c)
    ensures ValueOf(Decimal(n)) == n
  {
    var s := Decimal(n);
    if n < 10 {
      assert s[..0] == [];
    } else {
      DecimalValue(n / 10);
      assert s[..|s| - 1] == Decimal(n / 10);
    }
  }

  /** Reading back a printed number gives the number, whatever its length. */
  lemma PrintParses(n: nat)
    ensures ParseInt(Print(n)) == Some(n)
  {
    DecimalValue(n);
    PadValue(Decimal(n), WIDTH);
    DigitRunDigits(Print(n));
    PadNotEmpty(Decimal(n), WIDTH);
  }

  /** Different numbers print differently. */
  lemma PrintInjective(a: nat, b: nat)
    requires Print(a) == Print(b)
    ensures a == b
  {
    PrintParses(a);
    PrintParses(b);
  }

  // ----- Text order and numeric order -----

  /** The last `width` digits, zero-padded. */
  function Fixed(n: nat, width: nat): (s: string)
    ensures |s| == width
  {
    if width == 0 then [] else Fixed(n / 10, width - 1) + [Digit(n % 10)]
  }

  function Power10(k: nat): nat {
    if k == 0 then 1 else 10 * Power10(k - 1)
  }

  lemma {:induction false} PadAppend(s: string, c: char, width: nat)
    ensures PadStart(s + [c], width + 1) == PadStart(s, width) + [c]
    decreases width - |s|
  {
    if |s| >= width {
    } else {
      assert ['0'] + (s + [c]) == (['0'] + s) + [c];
      PadAppend(['0'] + s, c, width);
    }
  }

  lemma {:induction false} FixedZero(width: nat)
    ensures PadStart("", width) == Fixed(0, width)
  {
    if width == 0 {
    } else {
      FixedZero(width - 1);
      PadAppend("", '0', width - 1);
      assert PadStart("", width) == PadStart(['0'] + "", width);
      assert ['0'] + "" == "" + ['0'];
    }
  }

  lemma {:induction false} PadIsFixed(n: nat, width: nat)
    requires 0 < width && n < Power10(width)
    ensures PadStart(Decimal(n), width) == Fixed(n, width)
  {
    if n < 10 {
      PadAppend("", Digit(n), width - 1);
      FixedZero(width - 1);
      assert "" + [Digit(n)] == [Digit(n)];
    } else {
      assert width > 1 by { assert Power10(1) == 10; }
      PadIsFixed(n / 10, width - 1);
      PadAppend(Decimal(n / 10), Digit(n % 10), width - 1);
    }
  }

  lemma PrintIsFixed(n: nat)
    requires n < LIMIT
    ensures Print(n) == Fixed(n, WIDTH)
  {
    assert Power10(3) == 1000;
    assert Power10(6) == 1000 * Power10(3);
    PadIsFixed(n, WIDTH);
  }

  lemma {:induction false} LessOfAppend(a: string, b: string, x: string, y: string)
    requires |a| == |b|
    ensures TextLess(a + x, b + y) <==> TextLess(a, b) || (a == b && TextLess(x, y))
  {
    if a == [] {
      assert a + x == x && b + y == y;
    } else {
      assert (a + x)[1..] == a[1..] + x && (b + y)[1..] == b[1..] + y;
      LessOfAppend(a[1..], b[1..], x, y);
    }
  }

  lemma {:induction false} FixedOrder(a: nat, b: nat, width: nat)
    requires a < Power10(width) && b < Power10(width)
    ensures TextLess(Fixed(a, width), Fixed(b, width)) <==> a < b
    ensures Fixed(a, width) == Fixed(b, width) <==> a == b
  {
    if width == 0 {
    } else {
      FixedOrder(a / 10, b / 10, width - 1);
      var x, y := [Digit(a % 10)], [Digit(b % 10)];
      LessOfAppend(Fixed(a / 10, width - 1), Fixed(b / 10, width - 1), x, y);
      assert TextLess(x, y) <==> a % 10 < b % 10;
      if Fixed(a, width) == Fixed(b, width) {
        assert Fixed(a, width)[..width - 1] == Fixed(a / 10, width - 1);
        assert Fixed(b, width)[..width - 1] == Fixed(b / 10, width - 1);
        assert Fixed(a, width)[width - 1] == Fixed(b, width)[width - 1];
      }
    }
  }

  /** Where a number of up to LIMIT stands in the text order: LIMIT itself comes right after 100000. */
  function Rank(n: nat): nat {
    if n == LIMIT then 2 * (LIMIT / 10) + 1 else 2 * n
  }

  lemma LimitText()
    ensures Print(LIMIT) == Fixed(LIMIT / 10, WIDTH) + ['0']
  {
    PrintIsFixed(LIMIT / 10);
    assert Decimal(LIMIT) == Decimal(LIMIT / 10) + ['0'];
    PadAppend(Decimal(LIMIT / 10), '0', WIDTH);
    assert |Fixed(LIMIT / 10, WIDTH) + ['0']| == WIDTH + 1;
    LongEnough(Decimal(LIMIT), LIMIT / 10);
  }

  lemma LongEnough(s: string, n: nat)
    requires s == Decimal(n) + ['0'] && PadStart(Decimal(n), WIDTH) == Fixed(n, WIDTH) && n == 100000
    ensures PadStart(s, WIDTH) == PadStart(Decimal(n), WIDTH) + ['0']
  {
    assert |Decimal(n)| == 6 by {
      assert Decimal(100) == Decimal(10) + [Digit(0)];
      assert |Decimal(100)| == 3;
      assert |Decimal(10000)| == 5;
    }
  }

  /** Text order agrees with numeric order below LIMIT, and only LIMIT itself is out of place. */
  lemma TextOrder(a: nat, b: nat)
    requires a <= LIMIT && b <= LIMIT
    ensures TextLess(Print(a), Print(b)) <==> Rank(a) < Rank(b)
  {
    var tenth := LIMIT / 10;
    assert Power10(3) == 1000;
    assert Power10(6) == 1000 * Power10(3);
    LimitText();
    if a < LIMIT { PrintIsFixed(a); }
    if b < LIMIT { PrintIsFixed(b); }
    if a < LIMIT && b < LIMIT {
      FixedOrder(a, b, WIDTH);
    } else if a < LIMIT {
      FixedOrder(a, tenth, WIDTH);
      LessOfAppend(Fixed(a, WIDTH), Fixed(tenth, WIDTH), [], ['0']);
      assert Fixed(a, WIDTH) + [] == Fixed(a, WIDTH);
    } else if b < LIMIT {
      FixedOrder(tenth, b, WIDTH);
      LessOfAppend(Fixed(tenth, WIDTH), Fixed(b, WIDTH), ['0'], []);
      assert Fixed(b, WIDTH) + [] == Fixed(b, WIDTH);
    } else {
      LessOfAppend(Print(LIMIT), Print(LIMIT), [], []);
      assert Print(LIMIT) + [] == Print(LIMIT);
      Irreflexive(Print(LIMIT));
    }
  }

  lemma {:induction false} Irreflexive(s: string)
    ensures !TextLess(s, s)
  {
    if s == [] {
    } else {
      Irreflexive(s[1..]);
    }
  }

  // ----- The next number of a day -----

  function PrintAll(ns: seq<nat>): seq<string> {
    if ns == [] then [] else [Print(ns[0])] + PrintAll(ns[1..])
  }

  lemma {:induction false} PrintAllMembers(ns: seq<nat>)
    ensures |PrintAll(ns)| == |ns|
    ensures forall i | 0 <= i < |ns| :: PrintAll(ns)[i] == Print(ns[i])
  {
    if ns == [] {
    } else {
      PrintAllMembers(ns[1..]);
    }
  }

  /** The number whose text comes last. */
  function Latest(ns: seq<nat>): (m: nat)
    requires ns != []
    ensures m in ns && forall n | n in ns :: Rank(n) <= Rank(m)
  {
    if |ns| == 1 then ns[0]
    else
      var m := Latest(ns[1..]);
      assert ns == [ns[0]] + ns[1..];
      if Rank(ns[0]) < Rank(m) then m else ns[0]
  }

  lemma {:induction false} TextMaxIsLatest(ns: seq<nat>)
    requires ns != [] && forall n | n in ns :: n <= LIMIT
    ensures PrintAll(ns) != [] && TextMax(PrintAll(ns)) == Print(Latest(ns))
  {
    if |ns| > 1 {
      var m := Latest(ns[1..]);
      assert ns[0] in ns && m in ns[1..] && m in ns;
      TextMaxIsLatest(ns[1..]);
      TextOrder(ns[0], m);
      PrintAllMembers(ns);
      PrintAllMembers(ns[1..]);
      assert PrintAll(ns)[1..] == PrintAll(ns[1..]);
    } else {
      PrintAllMembers(ns);
    }
  }

  lemma NextOfLatest(ns: seq<nat>)
    requires forall n | n in ns :: n <= LIMIT
    ensures NextNumber(PrintAll(ns)) == Print(if ns == [] then 1 else Latest(ns) + 1)
  {
    if ns != [] {
      TextMaxIsLatest(ns);
      PrintParses(Latest(ns));
    }
  }

  /**
   * While all numbers of the day stay below 1,000,000, the next one is greater than each of them,
   * as a number and (up to 999,999) as text, so it is new.
   */
  lemma NextIsNew(ns: seq<nat>)
    requires forall n | n in ns :: n < LIMIT
    ensures var next := if ns == [] then 1 else Latest(ns) + 1;
      && NextNumber(PrintAll(ns)) == Print(next)
      && (forall n | n in ns :: n < next)
      && (next < LIMIT ==> forall n | n in ns :: TextLess(Print(n), Print(next)))
      && NextNumber(PrintAll(ns)) !in PrintAll(ns)
  {
    NextOfLatest(ns);
    PrintAllMembers(ns);
    var next := if ns == [] then 1 else Latest(ns) + 1;
    if next < LIMIT {
      forall n | n in ns ensures TextLess(Print(n), Print(next)) {
        assert Rank(n) <= Rank(Latest(ns));
        TextOrder(n, next);
      }
    }
    if Print(next) in PrintAll(ns) {
      var i :| 0 <= i < |ns| && PrintAll(ns)[i] == Print(next);
      assert ns[i] in ns;
      PrintInjective(ns[i], next);
    }
  }

  /** The numbers 1 to n, as a day hands them out. */
  function FirstNumbers(n: nat): (ns: seq<nat>)
    ensures |ns| == n && forall i | 0 <= i < n :: ns[i] == i + 1
  {
    if n == 0 then [] else FirstNumbers(n - 1) + [n]
  }

  lemma LatestOfFirst(n: nat)
    requires 0 < n <= LIMIT
    ensures Latest(FirstNumbers(n)) == Min(n, LIMIT - 1)
  {
    LatestAmong(FirstNumbers(n), n);
  }

  lemma LatestAmong(ns: seq<nat>, n: nat)
    requires 0 < n <= LIMIT && |ns| == n && forall i | 0 <= i < n :: ns[i] == i + 1
    ensures Latest(ns) == Min(n, LIMIT - 1)
  {
    var top := Min(n, LIMIT - 1);
    assert ns[top - 1] == top && top in ns;
    var found := Latest(ns);
    assert 1 <= found <= n && Rank(top) <= Rank(found);
  }

  lemma UsedByFirst(n: nat, k: nat)
    requires 1 <= k
    ensures Print(k) in PrintAll(FirstNumbers(n)) <==> k <= n
  {
    var ns := FirstNumbers(n);
    PrintAllMembers(ns);
    if Print(k) in PrintAll(ns) {
      var i :| 0 <= i < n && PrintAll(ns)[i] == Print(k);
      PrintInjective(ns[i], k);
    }
    if k <= n {
      assert PrintAll(ns)[k - 1] == Print(k);
    }
  }

  /**
   * A day that has handed out 1 to n hands out n + 1 next, and this works for the first million
   * cases; from then on every attempt repeats number 1,000,000.
   */
  lemma DayIsFullIff(n: nat)
    requires n <= LIMIT
    ensures var used := PrintAll(FirstNumbers(n));
      && NextNumber(used) == Print(Min(n + 1, LIMIT))
      && (NextNumber(used) in used <==> n == LIMIT)
  {
    NextOfLatest(FirstNumbers(n));
    UsedByFirst(n, Min(n + 1, LIMIT));
    if n > 0 {
      LatestOfFirst(n);
    }
  }

  // ----- Any set of printed numbers -----

  /** The text is the print of a number. */
  predicate IsPrinted(s: string) {
    ParseInt(s).Some? && s == Print(ParseInt(s).value)
  }

  /** The next number is a print too, whatever numbers there are. */
  lemma NextIsPrinted(used: seq<string>)
    ensures IsPrinted(NextNumber(used))
  {
    PrintParses(1);
    if used != [] && ParseInt(TextMax(used)).Some? {
      PrintParses(ParseInt(TextMax(used)).value + 1);
    }
  }

  predicate AllPrinted(used: seq<string>) {
    forall s | s in used :: IsPrinted(s)
  }

  // ----- Text order on any texts -----

  lemma {:induction false} TextTotal(a: string, b: string)
    ensures TextLess(a, b) || a == b || TextLess(b, a)
    ensures !(TextLess(a, b) && TextLess(b, a))
  {
    if a == [] || b == [] {
    } else {
      TextTotal(a[1..], b[1..]);
      assert a == [a[0]] + a[1..] && b == [b[0]] + b[1..];
    }
  }

  lemma {:induction false} TextTransitive(a: string, b: string, c: string)
    requires TextLess(a, b) && TextLess(b, c)
    ensures TextLess(a, c)
  {
    if a == [] || a[0] != b[0] || b[0] != c[0] {
    } else {
      TextTransitive(a[1..], b[1..], c[1..]);
    }
  }

  /** No text of the day comes after the maximum. */
  lemma {:induction false} TextMaxIsMax(used: seq<string>, s: string)
    requires s in used
    ensures !TextLess(TextMax(used), s)
  {
    Irreflexive(s);
    if |used| == 1 {
    } else {
      var m := TextMax(used[1..]);
      assert used == [used[0]] + used[1..];
      TextTotal(used[0], m);
      if s in used[1..] {
        TextMaxIsMax(used[1..], s);
        if TextLess(used[0], s) && !TextLess(used[0], m) {
          if m != used[0] {
            TextTransitive(m, used[0], s);
          }
        }
      }
    }
  }

  lemma TextMaxUnique(used: seq<string>, top: string)
    requires top in used && forall s | s in used :: !TextLess(top, s)
    ensures TextMax(used) == top
  {
    TextMaxIsMax(used, top);
    TextTotal(TextMax(used), top);
  }

  // ----- A number and the next one as texts -----

  function Width(n: nat): nat {
    if |Decimal(n)| < WIDTH then WIDTH else |Decimal(n)|
  }

  lemma {:induction false} DecimalIsFixed(n: nat)
    ensures Decimal(n) == Fixed(n, |Decimal(n)|) && n < Power10(|Decimal(n)|)
    ensures n > 0 ==> Power10(|Decimal(n)| - 1) <= n
  {
    if n < 10 {
      assert Power10(1) == 10 && Power10(0) == 1;
      assert Fixed(n / 10, 0) == [];
    } else {
      DecimalIsFixed(n / 10);
      assert |Decimal(n)| == |Decimal(n / 10)| + 1;
    }
  }

  lemma {:induction false} PowersGrow(a: nat, b: nat)
    requires a <= b
    ensures 0 < Power10(a) <= Power10(b)
    decreases b
  {
    if a == b {
      if a > 0 { PowersGrow(a - 1, a - 1); }
    } else {
      PowersGrow(a, b - 1);
    }
  }

  lemma PrintShape(n: nat)
    ensures Print(n) == Fixed(n, Width(n)) && n < Power10(Width(n))
    ensures Width(n) > WIDTH ==> Power10(Width(n) - 1) <= n
  {
    DecimalIsFixed(n);
    PowersGrow(|Decimal(n)|, Width(n));
    if |Decimal(n)| < WIDTH {
      PadIsFixed(n, WIDTH);
    } else {
      PowersGrow(0, |Decimal(n)| - 1);
    }
  }

  lemma {:induction false} FirstDigits(w: nat)
    requires w > 0
    ensures Fixed(Power10(w), w + 1)[0] == '1'
    ensures Power10(w) > 0 && Fixed(Power10(w) - 1, w)[0] == '9'
  {
    PowersGrow(0, w);
    if w == 1 {
      assert Power10(1) == 10 && Power10(0) == 1;
      assert Fixed(10, 2) == Fixed(1, 1) + [Digit(0)] && Fixed(1, 1) == Fixed(0, 0) + [Digit(1)];
      assert Fixed(9, 1) == Fixed(0, 0) + [Digit(9)];
    } else {
      var p := Power10(w - 1);
      PowersGrow(0, w - 1);
      FirstDigits(w - 1);
      assert Power10(w) == 10 * p && (10 * p) / 10 == p && (10 * p - 1) / 10 == p - 1;
    }
  }

  /**
   * The next number comes later in text order too, unless it is a power of ten with more than
   * six digits: that one gains a digit and starts with 1 where the number before it has nines.
   */
  lemma SuccessorText(m: nat)
    ensures if Width(m + 1) == Width(m) then TextLess(Print(m), Print(m + 1))
            else Width(m) >= WIDTH && m + 1 == Power10(Width(m)) && TextLess(Print(m + 1), Print(m))
  {
    var w := Width(m);
    PrintShape(m);
    PrintShape(m + 1);
    if Width(m + 1) == w {
      FixedOrder(m, m + 1, w);
    } else {
      if Width(m + 1) < w {
        PowersGrow(Width(m + 1), w - 1);
        assert false;
      }
      PowersGrow(w, Width(m + 1) - 1);
      assert m + 1 == Power10(w);
      PowersGrow(0, w);
      if Width(m + 1) > w + 1 {
        PowersGrow(w + 1, Width(m + 1) - 1);
        assert false;
      }
      FirstDigits(w);
    }
  }

  /** The number 99...9 with `k` digits, as text. */
  function Nines(k: nat): string {
    if k == 0 then [] else Nines(k - 1) + ['9']
  }

  lemma {:induction false} NinesPrint(k: nat)
    requires k >= WIDTH
    ensures Power10(k) > 0 && Print(Power10(k) - 1) == Nines(k)
    ensures Width(Power10(k) - 1) == k
  {
    var n := Power10(k) - 1;
    PowersGrow(0, k);
    NinesFixed(k);
    PrintShape(n);
    DecimalIsFixed(n);
    PowersGrow(0, k - 1);
    if |Decimal(n)| < k {
      PowersGrow(|Decimal(n)|, k - 1);
    } else if |Decimal(n)| > k {
      PowersGrow(k, |Decimal(n)| - 1);
    }
  }

  lemma {:induction false} NinesFixed(k: nat)
    ensures Power10(k) > 0 && Fixed(Power10(k) - 1, k) == Nines(k)
  {
    if k == 0 {
    } else {
      var p := Power10(k - 1);
      NinesFixed(k - 1);
      assert (10 * p - 1) / 10 == p - 1 && (10 * p - 1) % 10 == 9;
    }
  }

  /** Only digits after the nines come after nines. */
  lemma {:induction false} AfterNines(k: nat, s: string)
    requires forall c | c in s :: IsDigit(c)
    ensures TextLess(Nines(k), s) <==> k < |s| && s[..k] == Nines(k)
  {
    if k == 0 {
    } else {
      NinesFront(k);
      if s != [] && s[0] == '9' {
        AfterNines(k - 1, s[1..]);
        assert k < |s| ==> s[..k] == [s[0]] + s[1..][..k - 1];
        assert forall c | c in s[1..] :: c in s;
      } else if s != [] {
        assert IsDigit(s[0]);
        assert k < |s| ==> s[..k][0] == s[0];
      }
    }
  }

  lemma {:induction false} NinesFront(k: nat)
    requires k > 0
    ensures |Nines(k)| == k && Nines(k) == ['9'] + Nines(k - 1) && Nines(k)[0] == '9' && Nines(k)[1..] == Nines(k - 1)
  {
    if k == 1 {
      assert Nines(1) == [] + ['9'];
    } else {
      NinesFront(k - 1);
      assert Nines(k) == (['9'] + Nines(k - 2)) + ['9'];
      assert Nines(k) == ['9'] + (Nines(k - 2) + ['9']);
    }
  }

  // ----- When the next number is taken -----

  /** 99...9 and the power of ten after it are in use, and nothing goes on after those nines. */
  predicate BlockFull(used: seq<string>, k: nat) {
    && Nines(k) in used && Print(Power10(k)) in used
    && forall s | s in used :: !(k < |s| && s[..k] == Nines(k))
  }

  ghost predicate DayIsFull(used: seq<string>) {
    exists k :: k >= WIDTH && BlockFull(used, k)
  }

  lemma PrintedDigits(s: string)
    requires IsPrinted(s)
    ensures forall c | c in s :: IsDigit(c)
  {
    var n := ParseInt(s).value;
    DecimalValue(n);
    PadValue(Decimal(n), WIDTH);
  }

  /**
   * For any numbers in use, with whatever holes: the next number is taken already exactly when
   * some 99...9 of at least six digits and the power of ten after it are both in use, and no
   * number in use starts with those nines and goes on.
   */
  lemma NextIsTakenIff(used: seq<string>)
    requires AllPrinted(used)
    ensures NextNumber(used) in used <==> DayIsFull(used)
  {
    if used == [] {
    } else {
      var top := TextMax(used);
      var m := ParseInt(top).value;
      assert NextNumber(used) == Print(m + 1);
      SuccessorText(m);
      if NextNumber(used) in used {
        TextMaxIsMax(used, Print(m + 1));
        TakenMeansFull(used, Width(m));
      }
      if DayIsFull(used) {
        var k :| k >= WIDTH && BlockFull(used, k);
        FullMeansTaken(used, k);
      }
    }
  }

  lemma TakenMeansFull(used: seq<string>, k: nat)
    requires AllPrinted(used) && used != [] && k >= WIDTH
    requires Power10(k) > 0 && TextMax(used) == Print(Power10(k) - 1) && Print(Power10(k)) in used
    ensures BlockFull(used, k)
  {
    NinesPrint(k);
    forall s | s in used ensures !(k < |s| && s[..k] == Nines(k)) {
      TextMaxIsMax(used, s);
      PrintedDigits(s);
      AfterNines(k, s);
    }
  }

  lemma FullMeansTaken(used: seq<string>, k: nat)
    requires AllPrinted(used) && k >= WIDTH && BlockFull(used, k)
    ensures NextNumber(used) == Print(Power10(k)) && NextNumber(used) in used
  {
    NinesPrint(k);
    forall s | s in used ensures !TextLess(Nines(k), s) {
      PrintedDigits(s);
      AfterNines(k, s);
    }
    TextMaxUnique(used, Nines(k));
    PrintParses(Power10(k) - 1);
  }

  predicate BelowSevenNines(s: string) {
    IsPrinted(s) && ParseInt(s).value < 9999990
  }

  lemma PowersOfTen()
    ensures Power10(6) == LIMIT && Power10(7) == 10 * LIMIT
  {
    assert Power10(3) == 1000;
    assert Power10(6) == 1000 * Power10(3);
  }

  lemma SixNines()
    ensures Nines(6) == Print(LIMIT - 1)
  {
    PowersOfTen();
    NinesPrint(6);
  }

  /** Among such numbers only the six nines can block. */
  lemma OnlySixNines(k: nat)
    requires k >= WIDTH && BelowSevenNines(Nines(k))
    ensures k == 6
  {
    PowersOfTen();
    NinesPrint(k);
    PrintParses(Power10(k) - 1);
    if k > 6 {
      PowersGrow(7, k);
      assert false;
    }
  }

  /** A longer number that starts with six nines is at least 9,999,990. */
  lemma LongNines(s: string)
    requires BelowSevenNines(s)
    ensures !(6 < |s| && s[..6] == Nines(6))
  {
    var n := ParseInt(s).value;
    PrintShape(n);
    PowersOfTen();
    if |s| > 7 {
      PowersGrow(7, |s| - 1);
    } else if |s| == 7 && s[..6] == Nines(6) {
      assert Fixed(n, 7)[..6] == Fixed(n / 10, 6);
      NinesFixed(6);
      FixedOrder(n / 10, 999999, 6);
    }
  }

  /** On a day without numbers of 9,999,990 or more that means 999,999 and 1,000,000 are both in use. */
  lemma NextIsTakenBelow(used: seq<string>)
    requires forall s | s in used :: BelowSevenNines(s)
    ensures NextNumber(used) in used <==> Print(LIMIT - 1) in used && Print(LIMIT) in used
  {
    NextIsTakenIff(used);
    PowersOfTen();
    SixNines();
    if k :| k >= WIDTH && BlockFull(used, k) {
      OnlySixNines(k);
    }
    if Print(LIMIT - 1) in used && Print(LIMIT) in used {
      forall s | s in used ensures !(6 < |s| && s[..6] == Nines(6)) {
        LongNines(s);
      }
      assert BlockFull(used, 6);
    }
  }

  // ----- When a number comes back -----

  /**
   * Among the numbers `rest` that stay in use, number `n` is handed out next exactly when its
   * predecessor is in use and textually last, or when nothing is in use and it is 1.
   */
  lemma NumberReturnsIff(rest: seq<string>, n: nat)
    requires AllPrinted(rest) && n > 0
    ensures NextNumber(rest) == Print(n) <==>
      if rest == [] then n == 1 else Print(n - 1) in rest && forall s | s in rest :: !TextLess(Print(n - 1), s)
  {
    if rest == [] {
      if Print(1) == Print(n) { PrintInjective(1, n); }
    } else {
      var m := ParseInt(TextMax(rest)).value;
      assert TextMax(rest) == Print(m);
      if Print(m + 1) == Print(n) {
        PrintInjective(m + 1, n);
        forall s | s in rest ensures !TextLess(Print(n - 1), s) {
          TextMaxIsMax(rest, s);
        }
      }
      if Print(n - 1) in rest && forall s | s in rest :: !TextLess(Print(n - 1), s) {
        TextMaxUnique(rest, Print(n - 1));
        PrintParses(n - 1);
      }
    }
  }

  /**
   * So on a day of numbers below 1,000,000 the number of a deleted case comes back exactly when
   * it was the greatest and its predecessor is still in use, or it was 1 and the only one.
   */
  lemma DeletedNumberReturnsIff(rest: seq<nat>, n: nat)
    requires 0 < n < LIMIT && n !in rest && forall x | x in rest :: 0 < x < LIMIT
    ensures NextNumber(PrintAll(rest)) == Print(n) <==>
      (forall x | x in rest :: x < n) && (n - 1 in rest || (rest == [] && n == 1))
  {
    NextOfLatest(rest);
    var next := if rest == [] then 1 else Latest(rest) + 1;
    if Print(next) == Print(n) {
      PrintInjective(next, n);
      forall x | x in rest ensures x < n {
        assert Rank(x) <= Rank(Latest(rest));
      }
    }
    if (forall x | x in rest :: x < n) && n - 1 in rest {
      assert Rank(n - 1) <= Rank(Latest(rest));
    }
  }
}
