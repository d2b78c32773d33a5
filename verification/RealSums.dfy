/** Sums of real numbers, accumulated from the left as the source's loops do. */
module RealSums {
  function Sum(s: seq<real>): real {
    if s == [] then 0.0 else Sum(s[..|s| - 1]) + s[|s| - 1]
  }

  lemma SumSnoc(s: seq<real>, k: nat)
    requires k < |s|
    ensures Sum(s[..k + 1]) == Sum(s[..k]) + s[k]
  {
    assert s[..k + 1][..k] == s[..k];
  }

  /** Changing one element changes the sum by as much. */
  lemma {:induction false} SumUpdate(s: seq<real>, i: nat, v: real)
    requires i < |s|
    ensures Sum(s[i := v]) == Sum(s) - s[i] + v
  {
    var k := |s| - 1;
    if i < k {
      assert s[i := v][..k] == s[..k][i := v];
      SumUpdate(s[..k], i, v);
    } else {
      assert s[i := v][..k] == s[..k];
    }
  }

  predicate AllNonnegative(s: seq<real>) {
    forall i | 0 <= i < |s| :: s[i] >= 0.0
  }

  predicate Below(s: seq<real>, t: seq<real>) {
    |s| == |t| && forall i | 0 <= i < |s| :: s[i] <= t[i]
  }

  lemma {:induction false} SumNonnegative(s: seq<real>)
    requires AllNonnegative(s)
    ensures Sum(s) >= 0.0
  {
    if s == [] {
    } else {
      SumNonnegative(s[..|s| - 1]);
    }
  }

  /** A list below another has the smaller sum, and the same sum only if it is the same list. */
  lemma {:induction false} SumOfBelow(s: seq<real>, t: seq<real>)
    requires Below(s, t)
    ensures Sum(s) <= Sum(t)
    ensures Sum(s) == Sum(t) <==> s == t
  {
    if s == [] {
    } else {
      var k := |s| - 1;
      SumOfBelow(s[..k], t[..k]);
      if Sum(s) == Sum(t) {
        assert s == s[..k] + [s[k]] && t == t[..k] + [t[k]];
      }
    }
  }

  lemma {:induction false} SumAppend(s: seq<real>, t: seq<real>)
    ensures Sum(s + t) == Sum(s) + Sum(t)
  {
    if t == [] {
      assert s + t == s;
    } else {
      var k := |t| - 1;
      assert (s + t)[..|s + t| - 1] == s + t[..k];
      SumAppend(s, t[..k]);
    }
  }
}
