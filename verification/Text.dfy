/** Trimming and blank-to-null, as request fields are cleaned. */
module Text {
  import opened Common

  /** White space and line ends that `String.prototype.trim` removes. */
  predicate IsSpace(c: char) {
    var n := c as int;
    || 9 <= n <= 13 || n == 32 || n == 0xA0 || n == 0x1680 || 0x2000 <= n <= 0x200A
    || n == 0x2028 || n == 0x2029 || n == 0x202F || n == 0x205F || n == 0x3000 || n == 0xFEFF
  }

  function TrimStart(s: string): string {
    if s != [] && IsSpace(s[0]) then TrimStart(s[1..]) else s
  }

  function TrimEnd(s: string): string {
    if s != [] && IsSpace(s[|s| - 1]) then TrimEnd(s[..|s| - 1]) else s
  }

  function Trim(s: string): string {
    TrimEnd(TrimStart(s))
  }

  /** `text?.trim() || null`: nothing and blank text both count as nothing. */
  function TrimmedOrNone(s: Option<string>): Option<string> {
    if s.None? || Trim(s.value) == "" then None else Some(Trim(s.value))
  }

  /** `text || null`. */
  function NonEmpty(s: Option<string>): Option<string> {
    if s == Some("") then None else s
  }

  function Prefix(s: string, n: nat): string {
    if |s| <= n then s else s[..n]
  }

  /** `s.padStart(width, '0')`. */
  function PadStart(s: string, width: nat): string
    decreases width - |s|
  {
    if |s| >= width then s else PadStart(['0'] + s, width)
  }

  lemma {:induction false} PadNotEmpty(s: string, width: nat)
    requires s != []
    ensures PadStart(s, width) != []
    decreases width - |s|
  {
    if |s| >= width {
    } else {
      PadNotEmpty(['0'] + s, width);
    }
  }

  /** No blank at either end. */
  predicate Tight(s: string) {
    s != [] ==> !IsSpace(s[0]) && !IsSpace(s[|s| - 1])
  }

  lemma {:induction false} TrimEndTight(s: string)
    requires s != [] ==> !IsSpace(s[0])
    ensures Tight(TrimEnd(s))
  {
    if s == [] || !IsSpace(s[|s| - 1]) {
    } else {
      TrimEndTight(s[..|s| - 1]);
    }
  }

  lemma {:induction false} TrimStartTight(s: string)
    ensures TrimStart(s) != [] ==> !IsSpace(TrimStart(s)[0])
  {
    if s == [] || !IsSpace(s[0]) {
    } else {
      TrimStartTight(s[1..]);
    }
  }

  /** Trimming leaves no blank at either end, and does nothing to text without one. */
  lemma TrimIsTight(s: string)
    ensures Tight(Trim(s))
    ensures Tight(s) ==> Trim(s) == s
    ensures Trim(Trim(s)) == Trim(s)
  {
    TrimStartTight(s);
    TrimEndTight(TrimStart(s));
  }

  /** Nothing but blanks. */
  predicate Blank(s: string) {
    forall i | 0 <= i < |s| :: IsSpace(s[i])
  }

  lemma {:induction false} TrimStartDrops(s: string) returns (i: nat)
    ensures i <= |s| && TrimStart(s) == s[i..] && Blank(s[..i])
  {
    i := 0;
    if s != [] && IsSpace(s[0]) {
      var j := TrimStartDrops(s[1..]);
      i := j + 1;
      assert s[..i] == [s[0]] + s[1..][..j];
    }
  }

  lemma {:induction false} TrimEndDrops(s: string) returns (j: nat)
    ensures j <= |s| && TrimEnd(s) == s[..j] && Blank(s[j..])
  {
    j := |s|;
    if s != [] && IsSpace(s[|s| - 1]) {
      j := TrimEndDrops(s[..|s| - 1]);
      assert s[j..] == s[..|s| - 1][j..] + [s[|s| - 1]];
    }
  }

  /** Trimming takes the blanks off both ends and nothing else. */
  lemma TrimIsExact(s: string) returns (i: nat, j: nat)
    ensures i <= j <= |s| && Trim(s) == s[i..j] && Blank(s[..i]) && Blank(s[j..]) && Tight(Trim(s))
  {
    i := TrimStartDrops(s);
    var t := s[i..];
    var k := TrimEndDrops(t);
    j := i + k;
    assert s[i..j] == t[..k] && s[j..] == t[k..];
    TrimIsTight(s);
  }
}
