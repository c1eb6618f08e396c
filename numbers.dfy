/**
 * Python's `str(i)` and `int(s)` on decimal integers.
 */
module Numbers {
  import opened Text
  import opened PyDict

  function DigitValue(c: char): (n: nat)
    requires IsDigit(c)
    ensures n < 10
  {
    c as int - '0' as int
  }

  function DigitChar(n: nat): (c: char)
    requires n < 10
    ensures IsDigit(c) && DigitValue(c) == n
  {
    ('0' as int + n) as char
  }

  predicate AllDigits(s: string) {
    forall i :: 0 <= i < |s| ==> IsDigit(s[i])
  }

  /** The value of a string of decimal digits, most significant first. */
  function DigitsValue(s: string): nat
    requires AllDigits(s)
  {
    if s == [] then 0 else 10 * DigitsValue(s[..|s| - 1]) + DigitValue(s[|s| - 1])
  }

  /** `str(n)` for a natural number: its decimal digits, with no leading
      zero. */
  function NatToString(n: nat): (r: string)
    ensures r != [] && AllDigits(r)
    ensures |r| > 1 ==> r[0] != '0'
  {
    if n < 10 then [DigitChar(n)] else NatToString(n / 10) + [DigitChar(n % 10)]
  }

  /** Reading back the digits of `n` gives `n`. */
  lemma {:induction false} NatToStringValue(n: nat)
    ensures DigitsValue(NatToString(n)) == n
  {
    if n >= 10 {
      NatToStringValue(n / 10);
      var s := NatToString(n);
      assert s[..|s| - 1] == NatToString(n / 10);
    }
  }

  /** `str(i)`. */
  function IntToString(i: int): (r: string)
    ensures r != []
  {
    if i < 0 then "-" + NatToString(-i) else NatToString(i)
  }

  /** `int(s)` on decimal strings: surrounding whitespace, an optional sign,
      then one or more ASCII digits; anything else raises. */
  function ParseInt(s: string): (r: Option<int>)
    ensures r.Some? ==> Strip(s, IsSpace) != []
  {
    var t := Strip(s, IsSpace);
    if t == [] then None
    else
      var negative := t[0] == '-';
      var digits := if t[0] == '-' || t[0] == '+' then t[1..] else t;
      if digits != [] && AllDigits(digits) then
        var value: int := DigitsValue(digits);
        Some(if negative then -value else value)
      else None
  }

  lemma DigitsHaveNoSpace(d: string)
    requires AllDigits(d)
    ensures forall k :: 0 <= k < |d| ==> !IsSpace(d[k])
  {
  }

  lemma ParseDigits(d: string)
    requires d != [] && AllDigits(d)
    ensures ParseInt(d) == Some(DigitsValue(d) as int)
  {
    DigitsHaveNoSpace(d);
    StripNothing(d, IsSpace);
  }

  lemma ParseNegative(d: string)
    requires d != [] && AllDigits(d)
    ensures ParseInt("-" + d) == Some(-(DigitsValue(d) as int))
  {
    var s := "-" + d;
    DigitsHaveNoSpace(d);
    forall k | 0 <= k < |s| ensures !IsSpace(s[k]) {
      if k > 0 {
        assert s[k] == d[k - 1];
      }
    }
    StripNothing(s, IsSpace);
    assert s[1..] == d;
  }

  /** `int(str(i)) == i`. */
  lemma ParseIntOfString(i: int)
    ensures ParseInt(IntToString(i)) == Some(i)
  {
    var n: nat := if i < 0 then -i else i;
    var d := NatToString(n);
    NatToStringValue(n);
    if i < 0 {
      ParseNegative(d);
      assert IntToString(i) == "-" + d;
    } else {
      ParseDigits(d);
      assert IntToString(i) == d;
    }
  }
}
