/**
 * Decimal text as the tile library writes it (std::to_string, operator<< on int) and
 * reads it back (operator>> on int and on std::string with default flags).
 */
module Decimal {
  import opened Wrappers

  predicate IsDigit(c: char) {
    '0' <= c <= '9'
  }

  /** The characters operator>> skips as white space in the classic locale. */
  predicate IsSpace(c: char) {
    c == ' ' || c == '\t' || c == '\n' || c == '\r' || c == '\U{000B}' || c == '\U{000C}'
  }

  function DigitChar(d: nat): (c: char)
    requires d < 10
    ensures IsDigit(c) && DigitValue(c) == d
  {
    (('0' as int) + d) as char
  }

  function DigitValue(c: char): nat
    requires IsDigit(c)
  {
    (c as int) - ('0' as int)
  }

  predicate AllDigits(s: string) {
    forall i :: 0 <= i < |s| ==> IsDigit(s[i])
  }

  /** Decimal digits of n, most significant first, without leading zeros. */
  function NatToString(n: nat): (s: string)
    ensures |s| > 0 && AllDigits(s)
  {
    if n < 10 then [DigitChar(n)] else NatToString(n / 10) + [DigitChar(n % 10)]
  }

  /** std::to_string(int): a minus sign for negative values, then the digits. */
  function IntToString(n: int): (s: string)
    ensures |s| > 0 && (IsDigit(s[0]) || s[0] == '-')
    ensures forall i :: 0 < i < |s| ==> IsDigit(s[i])
  {
    if n < 0 then "-" + NatToString(-n) else NatToString(n)
  }

  /** The value of a run of decimal digits, read left to right. */
  function DigitsValue(s: string): nat
    requires AllDigits(s)
  {
    if s == [] then 0 else DigitsValue(s[..|s| - 1]) * 10 + DigitValue(s[|s| - 1])
  }

  lemma {:induction false} DigitsValueOfNatToString(n: nat)
    ensures DigitsValue(NatToString(n)) == n
  {
    if n >= 10 {
      var s := NatToString(n);
      assert s[..|s| - 1] == NatToString(n / 10);
      DigitsValueOfNatToString(n / 10);
    }
  }

  /** The first index at or after i that is not white space. */
  function SkipSpaces(s: string, i: nat): (j: nat)
    requires i <= |s|
    ensures i <= j <= |s|
    ensures forall k :: i <= k < j ==> IsSpace(s[k])
    ensures j == |s| || !IsSpace(s[j])
    decreases |s| - i
  {
    if i == |s| || !IsSpace(s[i]) then i else SkipSpaces(s, i + 1)
  }

  /** The end of the run of digits that starts at i. */
  function DigitsEnd(s: string, i: nat): (j: nat)
    requires i <= |s|
    ensures i <= j <= |s| && AllDigits(s[i..j])
    ensures j == |s| || !IsDigit(s[j])
    decreases |s| - i
  {
    if i == |s| || !IsDigit(s[i]) then i else DigitsEnd(s, i + 1)
  }

  /** The end of the run of non-space characters that starts at i. */
  function WordEnd(s: string, i: nat): (j: nat)
    requires i <= |s|
    ensures i <= j <= |s|
    ensures forall k :: i <= k < j ==> !IsSpace(s[k])
    ensures j == |s| || IsSpace(s[j])
    decreases |s| - i
  {
    if i == |s| || IsSpace(s[i]) then i else WordEnd(s, i + 1)
  }

  /**
   * operator>> into an int, reading s from position i: skip white space, accept one
   * optional sign, then the longest run of digits, of which there must be at least one.
   * Returns the value and the position after it, or None when extraction fails.
   */
  function ReadInt(s: string, i: nat): (r: Option<(int, nat)>)
    requires i <= |s|
    ensures r.Some? ==> i < r.value.1 <= |s|
  {
    var j := SkipSpaces(s, i);
    var k := if j < |s| && (s[j] == '-' || s[j] == '+') then j + 1 else j;
    var e := DigitsEnd(s, k);
    if e == k then None
    else
      var v: int := DigitsValue(s[k..e]);
      var value := if j < |s| && s[j] == '-' then -v else v;
      Some((value, e))
  }

  /**
   * operator>> into a std::string, reading s from position i: skip white space, then
   * take the longest run of non-space characters, of which there must be at least one.
   */
  function ReadWord(s: string, i: nat): (r: Option<(string, nat)>)
    requires i <= |s|
    ensures r.Some? ==> i < r.value.1 <= |s| && |r.value.0| > 0
  {
    var j := SkipSpaces(s, i);
    var e := WordEnd(s, j);
    if e == j then None else Some((s[j..e], e))
  }

  /** Reading back what std::to_string wrote gives the same int and stops right after it. */
  lemma ReadIntToString(n: int, s: string, i: nat)
    requires i + |IntToString(n)| <= |s| && s[i..i + |IntToString(n)|] == IntToString(n)
    requires i + |IntToString(n)| == |s| || !IsDigit(s[i + |IntToString(n)|])
    ensures ReadInt(s, i) == Some((n, i + |IntToString(n)|))
  {
    var t := IntToString(n);
    var e := i + |t|;
    assert s[i] == t[0];
    assert SkipSpaces(s, i) == i;
    var start := if n < 0 then i + 1 else i;
    var d := NatToString(if n < 0 then -n else n);
    assert s[start..e] == d by {
      if n < 0 {
        assert t == "-" + d;
        assert forall k :: i + 1 <= k < e ==> s[k] == t[k - i] == d[k - i - 1];
      }
    }
    DigitsEndOfRun(s, start, e);
    DigitsValueOfNatToString(if n < 0 then -n else n);
    assert (s[i] == '-' || s[i] == '+') <==> n < 0;
  }

  lemma {:induction false} DigitsEndOfRun(s: string, i: nat, e: nat)
    requires i <= e <= |s| && AllDigits(s[i..e])
    requires e == |s| || !IsDigit(s[e])
    ensures DigitsEnd(s, i) == e
    decreases e - i
  {
    if i < e {
      assert IsDigit(s[i..e][0]);
      assert s[i + 1..e] == s[i..e][1..];
      DigitsEndOfRun(s, i + 1, e);
    }
  }

  lemma {:induction false} WordEndOfRun(s: string, i: nat, e: nat)
    requires i <= e <= |s| && forall k :: i <= k < e ==> !IsSpace(s[k])
    requires e == |s| || IsSpace(s[e])
    ensures WordEnd(s, i) == e
    decreases e - i
  {
    if i < e {
      WordEndOfRun(s, i + 1, e);
    }
  }

  /** Reading back a non-empty word without white space gives the same word. */
  lemma ReadWordBack(w: string, s: string, i: nat)
    requires |w| > 0 && forall k :: 0 <= k < |w| ==> !IsSpace(w[k])
    requires i + |w| <= |s| && s[i..i + |w|] == w
    requires i + |w| == |s| || IsSpace(s[i + |w|])
    ensures ReadWord(s, i) == Some((w, i + |w|))
  {
    assert s[i] == w[0];
    assert SkipSpaces(s, i) == i;
    assert forall k :: i <= k < i + |w| ==> s[k] == w[k - i];
    WordEndOfRun(s, i, i + |w|);
  }
}
