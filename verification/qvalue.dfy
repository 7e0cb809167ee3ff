/** Quality values ("qvalues", section 12.4.2 of RFC 9110).

    A qvalue is a decimal between 0 and 1 with at most three digits after
    the point:

        qvalue = ( "0" [ "." 0*3DIGIT ] ) / ( "1" [ "." 0*3("0") ] )

    so it is exactly an integer number of thousandths. `Quality` holds that
    integer, which keeps comparisons such as 0.999 < 1 exact. */
module QValue {
  import opened Wrappers

  /** A quality in thousandths: 0 is "not acceptable", 1000 is 1.0. */
  type Quality = q: int | 0 <= q <= 1000

  /** The quality of an item that carries no weight. */
  const DefaultQuality: Quality := 1000

  predicate IsDigit(c: char) {
    '0' <= c <= '9'
  }

  predicate AllDigits(s: string) {
    forall k :: 0 <= k < |s| ==> IsDigit(s[k])
  }

  function DigitValue(c: char): int
    requires IsDigit(c)
  {
    c as int - '0' as int
  }

  function DigitChar(d: int): (c: char)
    requires 0 <= d <= 9
    ensures IsDigit(c) && DigitValue(c) == d
  {
    (d + '0' as int) as char
  }

  function Pow10(n: nat): nat {
    if n == 0 then 1 else 10 * Pow10(n - 1)
  }

  /** The ordinary base-10 value of a digit string, read left to right. */
  function DecimalValue(f: string): nat
    requires AllDigits(f)
  {
    if |f| == 0 then 0
    else DecimalValue(f[..|f| - 1]) * 10 + DigitValue(f[|f| - 1])
  }

  /** The fraction digits `f` of "0.f" as thousandths (missing digits are
      zeros). */
  function Thousandths(f: string): (r: int)
    requires |f| <= 3 && AllDigits(f)
    ensures 0 <= r <= 999
  {
    var d := f + "000"[|f|..];
    assert AllDigits(d) by {
      assert forall k :: |f| <= k < 3 ==> d[k] == '0';
    }
    100 * DigitValue(d[0]) + 10 * DigitValue(d[1]) + DigitValue(d[2])
  }

  /** Parses a qvalue; None when `s` does not follow the grammar above.
      The parsed quality is exactly the decimal written: a "0.f" qvalue is
      `f` over 10^|f|, and only a qvalue written with a leading "1" is 1.0. */
  function ParseQValue(s: string): (r: Option<Quality>)
    ensures r.Some? ==> |s| > 0 && (r.value == 1000 <==> s[0] == '1')
    ensures r.Some? ==> forall k :: 0 <= k < |s| ==> IsDigit(s[k]) || s[k] == '.'
    ensures r.Some? && |s| >= 2 && s[0] == '0' ==>
              AllDigits(s[2..]) && r.value * Pow10(|s| - 2) == DecimalValue(s[2..]) * 1000
    ensures |s| >= 2 && s[..2] == "0." && |s| <= 5 && AllDigits(s[2..]) ==> r.Some?
    ensures s == "0" ==> r == Some(0)
    ensures |s| >= 1 && s[0] == '1' && (|s| == 1 || (s[1] == '.' && |s| <= 5 && forall k :: 2 <= k < |s| ==> s[k] == '0')) ==> r == Some(1000)
  {
    if |s| == 0 then None
    else if s[0] == '0' then
      if |s| == 1 then Some(0)
      else if s[1] == '.' && |s| <= 5 && AllDigits(s[2..]) then
        ThousandthsIsDecimal(s[2..]);
        Some(Thousandths(s[2..]))
      else None
    else if s[0] == '1' then
      if |s| == 1 then Some(1000)
      else if s[1] == '.' && |s| <= 5 && (forall k :: 2 <= k < |s| ==> s[k] == '0') then Some(1000)
      else None
    else None
  }

  lemma ThousandthsIsDecimal(f: string)
    requires |f| <= 3 && AllDigits(f)
    ensures Thousandths(f) * Pow10(|f|) == DecimalValue(f) * 1000
  {
    if |f| == 0 {
    } else if |f| == 1 {
      assert f[..0] == "";
    } else if |f| == 2 {
      assert f[..1][..0] == "";
    } else {
      assert f[..2][..1][..0] == "";
    }
  }

  /** The canonical spelling of a quality: "1" for 1.0, otherwise "0."
      followed by exactly three digits. */
  function FormatQValue(q: Quality): (s: string)
    ensures |s| > 0 && IsDigit(s[0]) && IsDigit(s[|s| - 1])
    ensures forall k :: 0 <= k < |s| ==> IsDigit(s[k]) || s[k] == '.'
  {
    if q == 1000 then "1"
    else "0." + [DigitChar(q / 100), DigitChar(q / 10 % 10), DigitChar(q % 10)]
  }

  /** Every quality survives being written out and parsed back. */
  lemma ParseFormat(q: Quality)
    ensures ParseQValue(FormatQValue(q)) == Some(q)
  {
    if q != 1000 {
      var s := FormatQValue(q);
      assert s[0] == '0' && s[1] == '.';
      var f := s[2..];
      assert AllDigits(f);
      assert f + "000"[3..] == f;
      assert Thousandths(f) == 100 * (q / 100) + 10 * (q / 10 % 10) + q % 10;
    }
  }
}
