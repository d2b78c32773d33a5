/** Keyword normalisation, the bigram Dice score and top selection (string.util.ts). */
module TitleSimilarity {
  import opened Common
  import opened Text
  import opened Sorting

  // ----- Normalising -----

  /** Case folding of the Latin letters. */
  function LowerChar(c: char): char {
    if 'A' <= c <= 'Z' then c - 'A' + 'a' else c
  }

  function Lower(s: string): (r: string)
    ensures |r| == |s|
  {
    seq(|s|, i requires 0 <= i < |s| => LowerChar(s[i]))
  }

  /** Every run of blanks becomes one space. */
  function Collapse(s: string): string {
    if s == [] then []
    else if !IsSpace(s[0]) then [s[0]] + Collapse(s[1..])
    else if |s| > 1 && IsSpace(s[1]) then Collapse(s[1..])
    else [' '] + Collapse(s[1..])
  }

  function NormalizeKeyword(s: string): string {
    Lower(Collapse(Trim(s)))
  }

  /** The only blanks are single spaces. */
  predicate SingleSpaced(s: string) {
    && (forall i | 0 <= i < |s| :: IsSpace(s[i]) ==> s[i] == ' ')
    && (forall i | 0 < i < |s| :: !(IsSpace(s[i - 1]) && IsSpace(s[i])))
  }

  lemma {:induction false} CollapseSingles(s: string)
    ensures SingleSpaced(Collapse(s))
    ensures Collapse(s) == [] <==> s == []
    ensures s != [] ==> (IsSpace(Collapse(s)[0]) <==> IsSpace(s[0]))
    ensures s != [] ==> (IsSpace(Collapse(s)[|Collapse(s)| - 1]) <==> IsSpace(s[|s| - 1]))
  {
    if s == [] {
    } else {
      CollapseSingles(s[1..]);
      var r, rest := Collapse(s), Collapse(s[1..]);
      if r != rest {
        assert r[1..] == rest;
        forall i | 0 < i < |r| ensures !(IsSpace(r[i - 1]) && IsSpace(r[i])) {
          assert r[i] == rest[i - 1];
          assert i > 1 ==> r[i - 1] == rest[i - 2];
        }
      }
    }
  }

  lemma {:induction false} CollapseKeeps(s: string)
    requires SingleSpaced(s)
    ensures Collapse(s) == s
  {
    if s == [] {
    } else {
      assert forall i | 0 < i < |s[1..]| :: s[1..][i - 1] == s[i] && s[1..][i] == s[i + 1];
      CollapseKeeps(s[1..]);
      assert |s| > 1 ==> !(IsSpace(s[1 - 1]) && IsSpace(s[1]));
    }
  }

  lemma LowerKeepsSpacing(s: string)
    ensures SingleSpaced(s) ==> SingleSpaced(Lower(s))
    ensures Tight(s) ==> Tight(Lower(s))
  {
    assert forall i | 0 <= i < |s| :: IsSpace(Lower(s)[i]) <==> IsSpace(s[i]);
    assert forall i | 0 <= i < |s| :: IsSpace(s[i]) ==> Lower(s)[i] == s[i];
  }

  lemma LowerTwice(s: string)
    ensures Lower(Lower(s)) == Lower(s)
  {
  }

  lemma CollapseKeepsTight(s: string)
    requires Tight(s)
    ensures Tight(Collapse(s))
  {
    CollapseSingles(s);
  }

  /** Normalised text is a fixed point: trimmed, single-spaced and lower case. */
  lemma NormalizeIsIdempotent(s: string)
    ensures NormalizeKeyword(NormalizeKeyword(s)) == NormalizeKeyword(s)
    ensures Tight(NormalizeKeyword(s)) && SingleSpaced(NormalizeKeyword(s))
  {
    var c, n := Collapse(Trim(s)), NormalizeKeyword(s);
    TrimIsTight(s);
    CollapseSingles(Trim(s));
    CollapseKeepsTight(Trim(s));
    LowerKeepsSpacing(c);
    TrimIsTight(n);
    CollapseKeeps(n);
    LowerTwice(c);
  }

  /** The words of a text; `word` is the one being read. */
  function Words(s: string, word: string): seq<string> {
    if s == [] then if word == "" then [] else [word]
    else if !IsSpace(s[0]) then Words(s[1..], word + [s[0]])
    else (if word == "" then [] else [word]) + Words(s[1..], "")
  }

  function Spaced(words: seq<string>): string {
    if words == [] then "" else if |words| == 1 then words[0] else words[0] + " " + Spaced(words[1..])
  }

  lemma {:induction false} LeadingBlanks(s: string)
    ensures Words(TrimStart(s), "") == Words(s, "")
  {
    if s != [] && IsSpace(s[0]) {
      LeadingBlanks(s[1..]);
    }
  }

  lemma {:induction false} TrailingBlank(s: string, word: string, c: char)
    requires IsSpace(c)
    ensures Words(s + [c], word) == Words(s, word)
  {
    if s == [] {
      assert [] + [c] == [c] && [c][1..] == [];
    } else {
      assert (s + [c])[1..] == s[1..] + [c];
      TrailingBlank(s[1..], if IsSpace(s[0]) then "" else word + [s[0]], c);
    }
  }

  lemma {:induction false} TrailingBlanks(s: string)
    ensures Words(TrimEnd(s), "") == Words(s, "")
  {
    if s != [] && IsSpace(s[|s| - 1]) {
      TrailingBlanks(s[..|s| - 1]);
      TrailingBlank(s[..|s| - 1], "", s[|s| - 1]);
      assert s == s[..|s| - 1] + [s[|s| - 1]];
    }
  }

  /** Behind a word, collapsing spells the words that follow with one space before each. */
  lemma {:induction false} CollapseSpells(s: string, word: string)
    requires word != "" && (s != [] ==> !IsSpace(s[|s| - 1]))
    ensures Words(s, word) != [] && word + Collapse(s) == Spaced(Words(s, word))
  {
    if s == [] {
    } else if !IsSpace(s[0]) {
      CollapseSpells(s[1..], word + [s[0]]);
      assert word + ([s[0]] + Collapse(s[1..])) == (word + [s[0]]) + Collapse(s[1..]);
    } else if IsSpace(s[1]) {
      CollapseSpells(s[1..], word);
      SecondBlank(s, word);
    } else {
      CollapseSpells(s[2..], [s[1]]);
      NextWord(s, word);
    }
  }

  lemma SecondBlank(s: string, word: string)
    requires word != "" && |s| > 1 && IsSpace(s[0]) && IsSpace(s[1])
    ensures Words(s, word) == Words(s[1..], word) && Collapse(s) == Collapse(s[1..])
  {
    assert Words(s[1..], "") == Words(s[1..][1..], "");
    assert Words(s[1..], word) == [word] + Words(s[1..][1..], "");
  }

  lemma NextWord(s: string, word: string)
    requires word != "" && |s| > 1 && IsSpace(s[0]) && !IsSpace(s[1])
    ensures Words(s, word) == [word] + Words(s[2..], [s[1]])
    ensures Words(s[2..], [s[1]]) != [] ==> Spaced(Words(s, word)) == word + (" " + Spaced(Words(s[2..], [s[1]])))
    ensures Collapse(s) == " " + ([s[1]] + Collapse(s[2..]))
  {
    var rest := Words(s[2..], [s[1]]);
    assert s[1..][0] == s[1] && s[1..][1..] == s[2..] && "" + [s[1]] == [s[1]];
    assert Words(s[1..], "") == rest;
    assert ([word] + rest)[1..] == rest;
    assert rest != [] ==> word + " " + Spaced(rest) == word + (" " + Spaced(rest));
  }

  /** A normalised text is the words of the text with single spaces between them, in lower case. */
  lemma NormalizeIsWords(s: string)
    ensures NormalizeKeyword(s) == Lower(Spaced(Words(s, "")))
  {
    var t := Trim(s);
    TrimIsTight(s);
    LeadingBlanks(s);
    TrailingBlanks(TrimStart(s));
    if t != "" {
      CollapseSpells(t[1..], [t[0]]);
      assert "" + [t[0]] == [t[0]];
      assert Collapse(t) == [t[0]] + Collapse(t[1..]);
    }
  }

  /** Lower case moves the capital letters by 32 and no other character. */
  lemma LowerIsExact(s: string, i: nat)
    requires i < |s|
    ensures Lower(s)[i] as int == s[i] as int + if 65 <= s[i] as int <= 90 then 32 else 0
  {
  }

  // ----- Bigrams -----

  function Grams(s: string): seq<string> {
    if |s| < 2 then [] else Grams(s[..|s| - 1]) + [s[|s| - 2..]]
  }

  function Bag(s: string): multiset<string> {
    multiset(Grams(s))
  }

  lemma {:induction false} GramCount(s: string)
    ensures |Grams(s)| == Max(0, |s| - 1)
    ensures |Bag(s)| == Max(0, |s| - 1)
  {
    if |s| < 2 {
    } else {
      GramCount(s[..|s| - 1]);
    }
  }

  /** The number of places where `gram` stands in the first `n` characters. */
  function Places(s: string, gram: string, n: nat): nat
    requires n <= |s|
  {
    if n < 2 then 0 else Places(s, gram, n - 1) + Bit(s[n - 2..n] == gram)
  }

  lemma BagCountSnoc(s: string, gram: string, n: nat)
    requires 2 <= n <= |s|
    ensures Bag(s[..n])[gram] == Bag(s[..n - 1])[gram] + Bit(s[n - 2..n] == gram)
  {
    BagSnoc(s, n - 2);
  }

  /** A bigram is in the bag as often as it stands in the text. */
  lemma {:induction false} BagCountsPlaces(s: string, gram: string, n: nat)
    requires n <= |s|
    ensures Bag(s[..n])[gram] == Places(s, gram, n)
    decreases n
  {
    if n >= 2 {
      BagCountsPlaces(s, gram, n - 1);
      BagCountSnoc(s, gram, n);
    } else {
      assert Grams(s[..n]) == [];
    }
  }

  /** The map holds each element with its multiplicity. */
  ghost predicate Counts(m: map<string, nat>, bag: multiset<string>) {
    forall g :: (g in m <==> g in bag) && (g in m ==> m[g] == bag[g])
  }

  lemma CountsGrow(m: map<string, nat>, bag: multiset<string>, gram: string)
    requires Counts(m, bag)
    ensures Counts(m[gram := (if gram in m then m[gram] else 0) + 1], bag + multiset{gram})
  {
  }

  lemma BagSnoc(s: string, i: nat)
    requires i + 2 <= |s|
    ensures Bag(s[..i + 2]) == Bag(s[..i + 1]) + multiset{s[i..i + 2]}
  {
    var t := s[..i + 2];
    assert t[..|t| - 1] == s[..i + 1] && t[|t| - 2..] == s[i..i + 2];
    assert Grams(t) == Grams(s[..i + 1]) + [s[i..i + 2]];
  }

  method Bigrams(s: string) returns (m: map<string, nat>)
    ensures Counts(m, Bag(s))
  {
    m := map[];
    if |s| == 0 {
      return;
    }
    for i := 0 to |s| - 1
      invariant Counts(m, Bag(s[..i + 1]))
    {
      var gram := s[i..i + 2];
      CountsGrow(m, Bag(s[..i + 1]), gram);
      BagSnoc(s, i);
      m := m[gram := (if gram in m then m[gram] else 0) + 1];
    }
    assert s[..|s| - 1 + 1] == s;
  }

  /** The loop over one map's entries adds up the size of the multiset intersection. */
  method IntersectionSize(a: map<string, nat>, b: map<string, nat>, ghost left: multiset<string>, ghost right: multiset<string>)
    returns (n: nat)
    requires Counts(a, left) && Counts(b, right)
    ensures n == |left * right|
  {
    n := 0;
    var todo := a.Keys;
    ghost var rest := left * right;
    while todo != {}
      invariant todo <= a.Keys
      invariant forall g :: rest[g] == if g in todo then (left * right)[g] else 0
      invariant n + |rest| == |left * right|
      decreases todo
    {
      var gram :| gram in todo;
      var other := if gram in b then b[gram] else 0;
      n := n + Min(a[gram], other);
      assert rest[gram] == Min(a[gram], other);
      rest := rest[gram := 0];
      todo := todo - {gram};
    }
    assert rest == multiset{};
  }

  // ----- The score -----

  function Fraction(n: nat, d: nat): real
    requires d > 0
  {
    n as real / d as real
  }

  /** All bigrams of both texts; one-letter texts have none, and 1 stands in for 0. */
  function TotalBigrams(left: string, right: string): (n: nat)
    requires left != "" && right != ""
    ensures n > 0
  {
    var total := |left| - 1 + (|right| - 1);
    if total == 0 then 1 else total
  }

  /** Twice the shared bigrams over all bigrams. */
  function SharedBigrams(left: string, right: string): real
    requires left != "" && right != ""
  {
    Fraction(2 * |Bag(left) * Bag(right)|, TotalBigrams(left, right))
  }

  function DiceOfNormal(left: string, right: string): real {
    if left == "" || right == "" then 0.0
    else if left == right then 1.0
    else SharedBigrams(left, right)
  }

  function Dice(a: string, b: string): real {
    DiceOfNormal(NormalizeKeyword(a), NormalizeKeyword(b))
  }

  method ComputeTitleSimilarity(a: string, b: string) returns (r: real)
    ensures r == Dice(a, b)
  {
    var left, right := NormalizeKeyword(a), NormalizeKeyword(b);
    if left == "" || right == "" {
      return 0.0;
    }
    if left == right {
      return 1.0;
    }
    var aMap := Bigrams(left);
    var bMap := Bigrams(right);
    var intersection := IntersectionSize(aMap, bMap, Bag(left), Bag(right));
    var total := |left| - 1 + (|right| - 1);
    r := Fraction(2 * intersection, if total == 0 then 1 else total);
  }

  lemma IntersectionBounds(a: multiset<string>, b: multiset<string>)
    ensures a * b == b * a
    ensures 2 * |a * b| <= |a| + |b|
    ensures 2 * |a * b| == |a| + |b| <==> a == b
    ensures |a * b| == 0 <==> a !! b
  {
    assert |a| == |a - a * b| + |a * b| by {
      assert a == (a - a * b) + a * b;
    }
    assert |b| == |b - a * b| + |a * b| by {
      assert b == (b - a * b) + a * b;
    }
    if 2 * |a * b| == |a| + |b| {
      assert a - a * b == multiset{} && b - a * b == multiset{};
      assert a == a * b && b == a * b;
    }
    if a == b {
      assert a * b == a;
    }
    assert |a * b| == 0 <==> a * b == multiset{};
  }

  lemma SharedBigramsSymmetric(l: string, r: string)
    requires l != "" && r != ""
    ensures SharedBigrams(l, r) == SharedBigrams(r, l)
  {
    assert Bag(l) * Bag(r) == Bag(r) * Bag(l);
    assert TotalBigrams(l, r) == TotalBigrams(r, l);
  }

  lemma SharedBigramsInRange(l: string, r: string)
    requires l != "" && r != ""
    ensures 0.0 <= SharedBigrams(l, r) <= 1.0
    ensures SharedBigrams(l, r) == 1.0 <==> |l| + |r| > 2 && Bag(l) == Bag(r)
    ensures SharedBigrams(l, r) == 0.0 <==> Bag(l) !! Bag(r)
  {
    GramCount(l);
    GramCount(r);
    ShareOfBags(Bag(l), Bag(r), TotalBigrams(l, r));
  }

  lemma SameBagSameLength(l: string, r: string)
    requires Bag(l) == Bag(r) && l != "" && r != ""
    ensures |l| == |r|
  {
    GramCount(l);
    GramCount(r);
  }

  /**
   * The score is symmetric and lies in [0, 1]. It is 1 exactly when both texts, normalised, are
   * non-empty and equal or have the same bigrams; and 0 exactly when one is empty or they differ
   * without a bigram in common.
   */
  lemma DiceIsSimilarity(a: string, b: string)
    ensures Dice(a, b) == Dice(b, a)
    ensures 0.0 <= Dice(a, b) <= 1.0
    ensures var l, r := NormalizeKeyword(a), NormalizeKeyword(b);
      && (Dice(a, b) == 1.0 <==> l != "" && r != "" && (l == r || (|l| >= 2 && Bag(l) == Bag(r))))
      && (Dice(a, b) == 0.0 <==> l == "" || r == "" || (l != r && Bag(l) !! Bag(r)))
  {
    DiceOfNormalIsSimilarity(NormalizeKeyword(a), NormalizeKeyword(b));
  }

  /** `x` is `n` over `d`; for `d` = 0 any `x` will do if `n` is 0. */
  predicate IsQuotient(x: real, n: nat, d: nat) {
    x * d as real == n as real
  }

  lemma FractionIsQuotient(n: nat, d: nat)
    requires d > 0
    ensures IsQuotient(Fraction(n, d), n, d)
  {
  }

  /**
   * Between the extremes the score is the Dice quotient: twice the shared bigrams over all
   * bigrams of both texts.
   */
  lemma DiceIsQuotient(a: string, b: string)
    ensures var l, r := NormalizeKeyword(a), NormalizeKeyword(b);
      l != "" && r != "" && l != r ==> IsQuotient(Dice(a, b), 2 * |Bag(l) * Bag(r)|, |l| - 1 + (|r| - 1))
  {
    var l, r := NormalizeKeyword(a), NormalizeKeyword(b);
    if l != "" && r != "" && l != r {
      FractionIsQuotient(2 * |Bag(l) * Bag(r)|, TotalBigrams(l, r));
      if |l| + |r| == 2 {
        OneLetterEach(l, r);
      }
    }
  }

  lemma OneLetterEach(l: string, r: string)
    requires |l| == 1 && |r| == 1
    ensures |Bag(l) * Bag(r)| == 0
  {
    assert Bag(l) == multiset{};
  }

  lemma DiceOfNormalIsSimilarity(l: string, r: string)
    ensures DiceOfNormal(l, r) == DiceOfNormal(r, l)
    ensures 0.0 <= DiceOfNormal(l, r) <= 1.0
    ensures DiceOfNormal(l, r) == 1.0 <==> l != "" && r != "" && (l == r || (|l| >= 2 && Bag(l) == Bag(r)))
    ensures DiceOfNormal(l, r) == 0.0 <==> l == "" || r == "" || (l != r && Bag(l) !! Bag(r))
  {
    if l != "" && r != "" && l != r {
      SharedBigramsInRange(l, r);
      SharedBigramsSymmetric(l, r);
      if Bag(l) == Bag(r) {
        SameBagSameLength(l, r);
      }
    }
  }

  lemma ShareOfBags(a: multiset<string>, b: multiset<string>, total: nat)
    requires total == if |a| + |b| == 0 then 1 else |a| + |b|
    ensures var share := Fraction(2 * |a * b|, total);
      && 0.0 <= share <= 1.0
      && (share == 1.0 <==> |a| + |b| > 0 && a == b)
      && (share == 0.0 <==> a !! b)
  {
    IntersectionBounds(a, b);
    QuotientCompares((2 * |a * b|) as real, total as real);
  }

  /** A score of 1 does not mean equal titles: these two share all their bigrams. */
  lemma OneWithoutEquality()
    ensures NormalizeKeyword("abaca") != NormalizeKeyword("acaba")
    ensures Dice("abaca", "acaba") == 1.0
  {
    AlreadyNormal("abaca");
    AlreadyNormal("acaba");
    SameBigrams();
    DiceIsSimilarity("abaca", "acaba");
    assert "abaca"[1] != "acaba"[1];
  }

  lemma SameBigrams()
    ensures Bag("abaca") == Bag("acaba")
  {
    GramsOfFive('a', 'b', 'a', 'c', 'a');
    GramsOfFive('a', 'c', 'a', 'b', 'a');
    assert "abaca" == ['a', 'b', 'a', 'c', 'a'] && "acaba" == ['a', 'c', 'a', 'b', 'a'];
  }

  lemma AlreadyNormal(s: string)
    requires forall i | 0 <= i < |s| :: 'a' <= s[i] <= 'z'
    ensures NormalizeKeyword(s) == s
  {
    TrimIsTight(s);
    CollapseKeeps(s);
  }

  lemma GramsOfFive(a: char, b: char, c: char, d: char, e: char)
    ensures Grams([a, b, c, d, e]) == [[a, b], [b, c], [c, d], [d, e]]
  {
    var s := [a, b, c, d, e];
    assert s[..4] == [a, b, c, d] && s[..4][..3] == [a, b, c] && [a, b, c][..2] == [a, b] && [a, b][..1] == [a];
    assert Grams([a, b]) == [[a, b]];
    assert Grams([a, b, c]) == [[a, b], [b, c]];
    assert Grams([a, b, c, d]) == [[a, b], [b, c], [c, d]];
  }

  // ----- Selecting the best -----

  datatype Listing = Listing(url: string, title: string, listedAt: Option<int>)

  datatype Row = Row(item: Listing, sim: real, listed: int)

  function RowOf(keyword: string, item: Listing): Row {
    Row(item, Dice(keyword, item.title), if item.listedAt.Some? then item.listedAt.value else 0)
  }

  /** Higher similarity first, then the more recently listed. */
  function RanksBefore(): (Row, Row) -> bool {
    (x: Row, y: Row) => x.sim > y.sim || (x.sim == y.sim && x.listed >= y.listed)
  }

  function Rows(keyword: string, items: seq<Listing>): (r: seq<Row>)
    ensures |r| == |items| && forall i | 0 <= i < |r| :: r[i] == RowOf(keyword, items[i])
  {
    if items == [] then [] else [RowOf(keyword, items[0])] + Rows(keyword, items[1..])
  }

  function Items(rows: seq<Row>): (r: seq<Listing>)
    ensures |r| == |rows| && forall i | 0 <= i < |r| :: r[i] == rows[i].item
  {
    if rows == [] then [] else [rows[0].item] + Items(rows[1..])
  }

  function Ranked(keyword: string, items: seq<Listing>): seq<Listing> {
    Items(Sort(Rows(keyword, items), RanksBefore()))
  }

  function SelectTop(keyword: string, items: seq<Listing>, limit: int): seq<Listing> {
    var ranked := Ranked(keyword, items);
    if limit <= 0 || items == [] then [] else ranked[..Min(limit, |ranked|)]
  }

  lemma {:induction false} ItemsOfInsert(keyword: string, row: Row, rows: seq<Row>)
    ensures multiset(Items(Insert(row, rows, RanksBefore()))) == multiset(Items(rows)) + multiset{row.item}
  {
    var r := Insert(row, rows, RanksBefore());
    if rows == [] || RanksBefore()(row, rows[0]) {
      assert ([row] + rows)[1..] == rows;
      assert Items(r) == [row.item] + Items(rows);
    } else {
      ItemsOfInsert(keyword, row, rows[1..]);
      assert r[1..] == Insert(row, rows[1..], RanksBefore());
      assert Items(r) == [rows[0].item] + Items(r[1..]);
      assert Items(rows) == [rows[0].item] + Items(rows[1..]);
    }
  }

  lemma RankedCons(keyword: string, items: seq<Listing>)
    requires items != []
    ensures multiset(Ranked(keyword, items)) == multiset(Ranked(keyword, items[1..])) + multiset{items[0]}
  {
    var rows := Rows(keyword, items);
    assert rows[1..] == Rows(keyword, items[1..]);
    ItemsOfInsert(keyword, rows[0], Sort(rows[1..], RanksBefore()));
  }

  lemma {:induction false} RankedPermutes(keyword: string, items: seq<Listing>)
    ensures multiset(Ranked(keyword, items)) == multiset(items)
  {
    if items == [] {
    } else {
      RankedCons(keyword, items);
      RankedPermutes(keyword, items[1..]);
      assert multiset(items) == multiset(items[1..]) + multiset{items[0]} by {
        assert items == [items[0]] + items[1..];
      }
    }
  }

  lemma RankedLength(keyword: string, items: seq<Listing>)
    ensures |Ranked(keyword, items)| == |items|
  {
    SortPermutes(Rows(keyword, items), RanksBefore());
  }

  predicate Outranks(keyword: string, x: Listing, y: Listing) {
    RanksBefore()(RowOf(keyword, x), RowOf(keyword, y))
  }

  /** Higher similarity to the keyword first, then the later listing time; none counts as 0. */
  lemma OutranksIff(keyword: string, x: Listing, y: Listing)
    ensures Outranks(keyword, x, y) <==>
      || Dice(keyword, x.title) > Dice(keyword, y.title)
      || (Dice(keyword, x.title) == Dice(keyword, y.title)
          && OrElse(x.listedAt, Some(0)).value >= OrElse(y.listedAt, Some(0)).value)
  {
  }

  lemma RankedSorts(keyword: string, items: seq<Listing>)
    ensures var r := Ranked(keyword, items); forall i, j | 0 <= i < j < |r| :: Outranks(keyword, r[i], r[j])
  {
    var rows := Rows(keyword, items);
    var sorted := Sort(rows, RanksBefore());
    SortSorts(rows, RanksBefore());
    SortKeepsMembers(rows, RanksBefore());
    var r := Ranked(keyword, items);
    forall i, j | 0 <= i < j < |r| ensures Outranks(keyword, r[i], r[j]) {
      assert sorted[i] in rows && sorted[j] in rows;
      assert RanksBefore()(sorted[i], sorted[j]);
    }
  }

  lemma DroppedIsTail(r: seq<Listing>, n: nat)
    requires n <= |r|
    ensures multiset(r) - multiset(r[..n]) == multiset(r[n..]) && multiset(r[..n]) <= multiset(r)
  {
    assert r == r[..n] + r[n..];
  }

  predicate RankedList(keyword: string, r: seq<Listing>) {
    forall i, j | 0 <= i < j < |r| :: Outranks(keyword, r[i], r[j])
  }

  lemma HeadOutranksTail(keyword: string, r: seq<Listing>, n: nat, k: Listing, d: Listing)
    requires n <= |r| && RankedList(keyword, r) && k in r[..n] && d in r[n..]
    ensures Outranks(keyword, k, d)
  {
    var i :| 0 <= i < n && r[..n][i] == k;
    var j :| 0 <= j < |r| - n && r[n..][j] == d;
    assert Outranks(keyword, r[i], r[n + j]);
  }

  /**
   * The selection: as many items as the limit allows, all from the input with multiplicity, in
   * rank order, and no item left out outranks a selected one.
   */
  lemma SelectsTheTop(keyword: string, items: seq<Listing>, limit: int)
    ensures var top := SelectTop(keyword, items, limit); var dropped := multiset(items) - multiset(top);
      && |top| == Max(0, Min(limit, |items|))
      && multiset(top) <= multiset(items)
      && RankedList(keyword, top)
      && (forall k, d | k in top && d in dropped :: Outranks(keyword, k, d))
  {
    var r, top := Ranked(keyword, items), SelectTop(keyword, items, limit);
    RankedPermutes(keyword, items);
    RankedLength(keyword, items);
    RankedSorts(keyword, items);
    assert RankedList(keyword, r);
    if limit > 0 && items != [] {
      var n := Min(limit, |r|);
      DroppedIsTail(r, n);
      forall k, d | k in top && d in multiset(items) - multiset(top) ensures Outranks(keyword, k, d) {
        assert d in multiset(r[n..]) && d in r[n..];
        HeadOutranksTail(keyword, r, n, k, d);
      }
    }
  }

  /** How many candidates a site collects for a final number of results. */
  function CrawlCandidateLimit(maxResults: int): int {
    var keep := Max(1, maxResults);
    Min(300, Max(keep * 5, keep))
  }

  /** Enough candidates to fill the final list exactly while it is no longer than 300. */
  lemma EnoughCandidatesIff(maxResults: int)
    ensures 5 <= CrawlCandidateLimit(maxResults) <= 300
    ensures CrawlCandidateLimit(maxResults) >= maxResults <==> maxResults <= 300
  {
  }

  /** Five times the final number, from 5 up to 300. */
  lemma CandidateLimitIsExact(maxResults: int)
    ensures var n := CrawlCandidateLimit(maxResults);
      && (maxResults <= 1 ==> n == 5)
      && (1 <= maxResults <= 60 ==> n == 5 * maxResults)
      && (maxResults >= 60 ==> n == 300)
  {
  }
}
