/** Decimal numerals without leading zeros, of any length. */
module Decimals {

  predicate IsDigit(c: char) { '0' <= c <= '9' }

  predicate AllDigits(s: string) { forall i :: 0 <= i < |s| ==> IsDigit(s[i]) }

  /** `0`, or digits that do not start with `0`. */
  predicate IsDecimal(s: string) {
    s != "" && AllDigits(s) && (s[0] == '0' ==> |s| == 1)
  }

  function DecimalValue(s: string): nat
    requires AllDigits(s)
  {
    if s == "" then 0
    else
      var last := s[|s| - 1];
      assert IsDigit(last);
      DecimalValue(s[..|s| - 1]) * 10 + (last as int - '0' as int)
  }

  lemma {:induction false} DecimalIsPositive(s: string)
    requires s != "" && AllDigits(s) && s[0] != '0'
    ensures DecimalValue(s) > 0
  {
    if |s| > 1 {
      DecimalIsPositive(s[..|s| - 1]);
    } else {
      assert IsDigit(s[0]);
    }
  }

  /** Different numerals have different values. */
  lemma {:induction false} DecimalValueIsInjective(s: string, t: string)
    requires IsDecimal(s) && IsDecimal(t) && DecimalValue(s) == DecimalValue(t)
    ensures s == t
    decreases |s|
  {
    var i, j := s[..|s| - 1], t[..|t| - 1];
    assert IsDigit(s[|s| - 1]) && IsDigit(t[|t| - 1]);
    assert DecimalValue(i) == DecimalValue(j);
    if i != "" {
      DecimalIsPositive(i);
    }
    if j != "" {
      DecimalIsPositive(j);
    }
    if i != "" && j != "" {
      DecimalValueIsInjective(i, j);
    }
    assert s == i + [s[|s| - 1]] && t == j + [t[|t| - 1]];
  }

  // ----- order, read off the digits

  /** At the first digit in which they differ, `s` has the smaller one. */
  ghost predicate FirstDifferenceIsLess(s: string, t: string) {
    exists k :: 0 <= k < |s| && k < |t| && s[..k] == t[..k] && s[k] < t[k]
  }

  /** The order of numerals: shorter ones first, then digit by digit. */
  ghost predicate NumeralLess(s: string, t: string) {
    |s| < |t| || (|s| == |t| && FirstDifferenceIsLess(s, t))
  }

  lemma LastDigit(s: string, t: string, x: char, y: char)
    requires |s| == |t|
    ensures FirstDifferenceIsLess(s + [x], t + [y]) <==> FirstDifferenceIsLess(s, t) || (s == t && x < y)
  {
    var s', t' := s + [x], t + [y];
    if FirstDifferenceIsLess(s', t') {
      var k :| 0 <= k < |s'| && k < |t'| && s'[..k] == t'[..k] && s'[k] < t'[k];
      if k < |s| {
        assert s'[..k] == s[..k] && t'[..k] == t[..k];
      } else {
        assert s'[..k] == s && t'[..k] == t;
      }
    }
    if FirstDifferenceIsLess(s, t) {
      var k :| 0 <= k < |s| && k < |t| && s[..k] == t[..k] && s[k] < t[k];
      assert s'[..k] == s[..k] && t'[..k] == t[..k] && s'[k] < t'[k];
    }
    if s == t && x < y {
      assert s'[..|s|] == s && t'[..|s|] == t && s'[|s|] < t'[|s|];
    }
  }

  lemma {:induction false} SameLengthOrder(s: string, t: string)
    requires AllDigits(s) && AllDigits(t) && |s| == |t|
    ensures DecimalValue(s) < DecimalValue(t) <==> FirstDifferenceIsLess(s, t)
    ensures DecimalValue(s) == DecimalValue(t) <==> s == t
  {
    if s != "" {
      var n := |s| - 1;
      assert s == s[..n] + [s[n]] && t == t[..n] + [t[n]];
      assert IsDigit(s[n]) && IsDigit(t[n]);
      SameLengthOrder(s[..n], t[..n]);
      LastDigit(s[..n], t[..n], s[n], t[n]);
    }
  }

  lemma {:induction false} ShorterIsLess(s: string, t: string)
    requires IsDecimal(s) && IsDecimal(t) && |s| < |t|
    ensures DecimalValue(s) < DecimalValue(t)
    decreases |s|
  {
    var i, j := s[..|s| - 1], t[..|t| - 1];
    assert IsDigit(s[|s| - 1]) && IsDigit(t[|t| - 1]);
    if i == "" {
      DecimalIsPositive(j);
    } else {
      ShorterIsLess(i, j);
    }
  }

  /** Comparing values is comparing numerals. */
  lemma ValueOrder(s: string, t: string)
    requires IsDecimal(s) && IsDecimal(t)
    ensures DecimalValue(s) < DecimalValue(t) <==> NumeralLess(s, t)
  {
    hide DecimalValue;
    if |s| == |t| {
      SameLengthOrder(s, t);
    } else if |s| < |t| {
      ShorterIsLess(s, t);
    } else {
      ShorterIsLess(t, s);
    }
  }

  lemma AppendDigit(s: string, c: char)
    requires AllDigits(s) && IsDigit(c)
    ensures AllDigits(s + [c]) && DecimalValue(s + [c]) == DecimalValue(s) * 10 + (c as int - '0' as int)
  {
    assert (s + [c])[..|s|] == s;
  }

  lemma ValueOf32BitMaximum()
    ensures IsDecimal("4294967295") && DecimalValue("4294967295") == 4294967295
  {
    hide DecimalValue, AllDigits;
    assert AllDigits("") && DecimalValue("") == 0 by { NoDigits(); }
    AppendDigit("", '4');
    AppendDigit("" + "4", '2');
    AppendDigit("" + "4" + "2", '9');
    AppendDigit("" + "4" + "2" + "9", '4');
    AppendDigit("" + "4" + "2" + "9" + "4", '9');
    AppendDigit("" + "4" + "2" + "9" + "4" + "9", '6');
    AppendDigit("" + "4" + "2" + "9" + "4" + "9" + "6", '7');
    AppendDigit("" + "4" + "2" + "9" + "4" + "9" + "6" + "7", '2');
    AppendDigit("" + "4" + "2" + "9" + "4" + "9" + "6" + "7" + "2", '9');
    AppendDigit("" + "4" + "2" + "9" + "4" + "9" + "6" + "7" + "2" + "9", '5');
    assert "" + "4" + "2" + "9" + "4" + "9" + "6" + "7" + "2" + "9" + "5" == "4294967295";
  }

  lemma NoDigits()
    ensures AllDigits("") && DecimalValue("") == 0
  {
  }
}
