/**
 * The decimal integer parser that stands in for Python's `int(text)` on an
 * already-stripped table cell: an optional `+` or `-` sign followed by one or
 * more ASCII digits. Leading zeros are accepted, as `int` accepts them.
 */
module IntParse {
  import opened Wrappers

  predicate IsDigit(c: char) { '0' <= c <= '9' }

  predicate IsSign(c: char) { c == '+' || c == '-' }

  predicate AllDigits(s: string) { forall i :: 0 <= i < |s| ==> IsDigit(s[i]) }

  function DigitValue(c: char): (d: nat)
    requires IsDigit(c)
    ensures d < 10
  {
    c as int - '0' as int
  }

  function DigitChar(d: nat): (c: char)
    requires d < 10
    ensures IsDigit(c) && DigitValue(c) == d
  {
    ('0' as int + d) as char
  }

  /** The value of a digit string, most significant digit first. */
  function DigitsValue(s: string): nat
    requires AllDigits(s)
  {
    if |s| == 0 then 0 else DigitsValue(s[..|s| - 1]) * 10 + DigitValue(s[|s| - 1])
  }

  /**
   * Python's default limit on the digits `int` converts from a string
   * (`sys.get_int_max_str_digits()`); a longer digit string raises `ValueError`.
   */
  const MaxStrDigits: nat := 4300

  /** One to `MaxStrDigits` digits, and nothing else. */
  function ParseNat(s: string): Option<nat>
  {
    if 0 < |s| <= MaxStrDigits && AllDigits(s) then Some(DigitsValue(s)) else None
  }

  /** `int(s)` restricted to an optional sign and ASCII digits; `None` plays `ValueError`. */
  function ParseInt(s: string): (r: Option<int>)
    ensures r.Some? ==> |s| > 0
    ensures r.Some? && s[0] == '-' ==> r.value <= 0
    ensures r.Some? && s[0] != '-' ==> r.value >= 0
  {
    if |s| > 0 && IsSign(s[0]) then
      match ParseNat(s[1..])
      case None => None
      case Some(n) => Some(if s[0] == '-' then -(n as int) else n as int)
    else
      match ParseNat(s)
      case None => None
      case Some(n) => Some(n)
  }

  /**
   * The accepted language, stated position by position: every character is
   * a digit except that the first may be a sign, some digit occurs, and
   * there are at most `MaxStrDigits` digits.
   */
  ghost predicate IsIntLiteral(s: string)
  {
    (forall i :: 0 <= i < |s| ==> IsDigit(s[i]) || (i == 0 && IsSign(s[i])))
    && (exists i :: 0 <= i < |s| && IsDigit(s[i]))
    && |s| - (if |s| > 0 && IsSign(s[0]) then 1 else 0) <= MaxStrDigits
  }

  /** Shortest decimal rendering of a natural number. */
  function NatToString(n: nat): string
  {
    if n < 10 then [DigitChar(n)] else NatToString(n / 10) + [DigitChar(n % 10)]
  }

  /** Decimal rendering of an integer: a minus sign for negatives, then the digits. */
  function IntToString(n: int): string
  {
    if n < 0 then "-" + NatToString(-n) else NatToString(n)
  }

  /** The parser succeeds exactly on the literals of `IsIntLiteral`. */
  lemma ParseIntDefined(s: string)
    ensures ParseInt(s).Some? <==> IsIntLiteral(s)
  {
  }

  lemma {:induction false} NatToStringDigits(n: nat)
    ensures |NatToString(n)| > 0 && AllDigits(NatToString(n))
    ensures DigitsValue(NatToString(n)) == n
  {
    if n >= 10 {
      NatToStringDigits(n / 10);
      var s := NatToString(n);
      assert s[..|s| - 1] == NatToString(n / 10);
    }
  }

  /** Round trip: parsing the rendering of any integer within the digit limit gives it back. */
  lemma ParseIntRoundTrip(n: int)
    requires |NatToString(if n < 0 then -n else n)| <= MaxStrDigits
    ensures ParseInt(IntToString(n)) == Some(n)
  {
    var t := NatToString(if n < 0 then -n else n);
    NatToStringDigits(if n < 0 then -n else n);
    if n < 0 {
      assert IntToString(n)[1..] == t;
    } else {
      assert IsDigit(t[0]);
    }
  }

  /** A leading zero does not change the value, so "007" parses as 7. */
  lemma {:induction false} LeadingZeroIgnored(d: string)
    requires AllDigits(d)
    ensures AllDigits("0" + d) && DigitsValue("0" + d) == DigitsValue(d)
  {
    var z := "0" + d;
    assert forall i :: 0 < i < |z| ==> z[i] == d[i - 1];
    if |d| > 0 {
      var p := d[..|d| - 1];
      LeadingZeroIgnored(p);
      assert z[..|z| - 1] == "0" + p;
      assert z[|z| - 1] == d[|d| - 1];
    }
  }

  /** Hence a leading zero is invisible to `ParseInt`, as long as it keeps the cell within the digit limit. */
  lemma LeadingZeroParse(d: string)
    requires 0 < |d| < MaxStrDigits && AllDigits(d)
    ensures ParseInt("0" + d) == ParseInt(d)
  {
    LeadingZeroIgnored(d);
  }

  /** A sign only sets the sign of the value: "+d" parses as d, "-d" as its negation. */
  lemma SignedParse(d: string)
    requires 0 < |d| <= MaxStrDigits && AllDigits(d)
    ensures ParseInt("+" + d) == ParseInt(d)
    ensures ParseInt("-" + d) == Some(-ParseInt(d).value)
  {
    assert ("+" + d)[1..] == d;
    assert ("-" + d)[1..] == d;
  }

  /** More than `MaxStrDigits` digits are rejected, signed or not, as `int` rejects them. */
  lemma TooManyDigitsRejected(d: string)
    requires AllDigits(d) && |d| > MaxStrDigits
    ensures ParseInt(d) == None && ParseInt("-" + d) == None && ParseInt("+" + d) == None
  {
    assert ("-" + d)[1..] == d;
    assert ("+" + d)[1..] == d;
  }
}
