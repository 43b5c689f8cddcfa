/** The year field of a time layout ("2006" in Go's reference layout): the
    year in decimal, zero-padded to at least four digits, with a leading
    minus sign for years before year 0. */
module YearLayout {

  predicate IsDigit(c: char) {
    '0' <= c <= '9'
  }

  predicate AllDigits(s: string) {
    forall i :: 0 <= i < |s| ==> IsDigit(s[i])
  }

  function DigitChar(d: nat): (c: char)
    requires d < 10
    ensures IsDigit(c)
  {
    ('0' as int + d) as char
  }

  /** The value of a digit; anything else reads as 0. */
  function DigitValue(c: char): (d: nat)
    ensures d < 10
  {
    if IsDigit(c) then c as int - '0' as int else 0
  }

  function Pow10(k: nat): (p: nat)
    ensures p >= 1
  {
    if k == 0 then 1 else 10 * Pow10(k - 1)
  }

  /** The shortest decimal rendering of n ("0" for zero). */
  function Decimal(n: nat): (s: string)
    ensures |s| >= 1 && AllDigits(s)
  {
    if n < 10 then [DigitChar(n)] else Decimal(n / 10) + [DigitChar(n % 10)]
  }

  function Zeros(k: nat): (s: string)
    ensures |s| == k && forall i :: 0 <= i < k ==> s[i] == '0'
  {
    seq(k, _ => '0')
  }

  /** s with zeros in front until it is at least width characters long. */
  function PadLeft(s: string, width: nat): (r: string)
    ensures |r| == if |s| >= width then |s| else width
    ensures r[|r| - |s|..] == s
    ensures forall i :: 0 <= i < |r| - |s| ==> r[i] == '0'
  {
    if |s| >= width then s else Zeros(width - |s|) + s
  }

  /** How the layout writes a year. */
  function FormatYear(year: int): (s: string)
    ensures |s| >= 4
  {
    if year < 0 then "-" + PadLeft(Decimal(-year), 4) else PadLeft(Decimal(year), 4)
  }

  /** Reads a string of decimal digits back as a number; leading zeros vanish. */
  function ParseDecimal(s: string): nat {
    if s == [] then 0 else 10 * ParseDecimal(s[..|s| - 1]) + DigitValue(s[|s| - 1])
  }

  /** Reads a formatted year back, the inverse of FormatYear. */
  function ParseYear(s: string): int {
    if |s| > 0 && s[0] == '-' then 0 - ParseDecimal(s[1..]) as int else ParseDecimal(s)
  }

  lemma {:induction false} ParseDecimalOfDecimal(n: nat)
    ensures ParseDecimal(Decimal(n)) == n
  {
    if n >= 10 {
      var s := Decimal(n);
      assert s[..|s| - 1] == Decimal(n / 10);
      ParseDecimalOfDecimal(n / 10);
    }
  }

  lemma {:induction false} ParseDecimalOfZeros(k: nat)
    ensures ParseDecimal(Zeros(k)) == 0
  {
    if k > 0 {
      assert Zeros(k)[..k - 1] == Zeros(k - 1);
      ParseDecimalOfZeros(k - 1);
    }
  }

  lemma {:induction false} ParseDecimalSkipsZeros(k: nat, s: string)
    ensures ParseDecimal(Zeros(k) + s) == ParseDecimal(s)
  {
    var t := Zeros(k) + s;
    if s == [] {
      assert t == Zeros(k);
      ParseDecimalOfZeros(k);
    } else {
      assert t[..|t| - 1] == Zeros(k) + s[..|s| - 1];
      ParseDecimalSkipsZeros(k, s[..|s| - 1]);
    }
  }

  lemma ParseDecimalOfPadded(n: nat, width: nat)
    ensures ParseDecimal(PadLeft(Decimal(n), width)) == n
  {
    var s := Decimal(n);
    ParseDecimalOfDecimal(n);
    if |s| < width {
      ParseDecimalSkipsZeros(width - |s|, s);
    }
  }

  /** Formatting a year loses nothing: the year can be read back. */
  lemma FormatYearRoundTrip(year: int)
    ensures ParseYear(FormatYear(year)) == year
  {
    if year < 0 {
      NegativeYearRoundTrip(year);
    } else {
      var digits := PadLeft(Decimal(year), 4);
      ParseDecimalOfPadded(year, 4);
      assert FormatYear(year) == digits;
      assert IsDigit(digits[0]);
    }
  }

  lemma NegativeYearRoundTrip(year: int)
    requires year < 0
    ensures ParseYear(FormatYear(year)) == year
  {
    var n: nat := -year;
    var digits := PadLeft(Decimal(n), 4);
    ParseDecimalOfPadded(n, 4);
    var s := "-" + digits;
    assert s[1..] == digits;
    assert ParseYear(s) == 0 - ParseDecimal(digits) as int;
    assert FormatYear(year) == s;
  }

  /** Distinct years are written differently. */
  lemma FormatYearInjective(a: int, b: int)
    ensures FormatYear(a) == FormatYear(b) <==> a == b
  {
    FormatYearRoundTrip(a);
    FormatYearRoundTrip(b);
  }

  lemma {:induction false} DecimalFits(n: nat, k: nat)
    requires 1 <= k && n < Pow10(k)
    ensures |Decimal(n)| <= k
  {
    if n >= 10 {
      assert k >= 2;
      assert n / 10 < Pow10(k - 1);
      DecimalFits(n / 10, k - 1);
    }
  }

  /** Years 0 through 9999 come out as exactly four digits. */
  lemma FourDigitYear(year: int)
    requires 0 <= year <= 9999
    ensures |FormatYear(year)| == 4 && AllDigits(FormatYear(year))
    ensures ParseDecimal(FormatYear(year)) == year
  {
    assert Pow10(4) == 10000;
    DecimalFits(year, 4);
    ParseDecimalOfPadded(year, 4);
  }
}
