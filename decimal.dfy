/**
 * Decimal text for display indexes: Go's `%d` formatting, used when a frame
 * header is written, and `strconv.Atoi`, used when a configuration key is
 * read back as a display index (with its error discarded).
 */
module Decimal {
  import opened Common

  const Int64Min: int := -0x8000_0000_0000_0000
  const Int64Max: int := 0x7FFF_FFFF_FFFF_FFFF

  predicate IsDigit(c: char) { '0' <= c <= '9' }

  predicate AllDigits(s: string)
  {
    forall i :: 0 <= i < |s| ==> IsDigit(s[i])
  }

  function DigitValue(c: char): (d: nat)
    requires IsDigit(c)
    ensures d < 10
  {
    c as int - '0' as int
  }

  function DigitChar(d: nat): (c: char)
    requires d < 10
    ensures IsDigit(c) && DigitValue(c) == d
  {
    ('0' as int + d) as char
  }

  /** The decimal digits of `n`, most significant first, without leading zeros. */
  function Digits(n: nat): (s: string)
    ensures |s| > 0 && AllDigits(s)
    ensures |s| > 1 ==> s[0] != '0'
    decreases n
  {
    if n < 10 then [DigitChar(n)] else Digits(n / 10) + [DigitChar(n % 10)]
  }

  /** Go's `fmt.Sprintf("%d", n)`: a minus sign for negatives, then the digits. */
  function FormatInt(n: int): (s: string)
    ensures |s| > 0 && IsAscii(s)
    ensures forall i :: 0 <= i < |s| ==> IsDigit(s[i]) || (i == 0 && s[i] == '-')
  {
    if n < 0 then "-" + Digits(-n) else Digits(n)
  }

  /** The value of a digit string, accumulated left to right as `n = n*10 + d`. */
  function DigitsValue(s: string): (v: nat)
    requires AllDigits(s)
  {
    if s == [] then 0 else DigitsValue(s[..|s| - 1]) * 10 + DigitValue(Last(s))
  }

  /**
   * The syntax strconv.ParseInt(s, 10, 0) accepts: an optional '+' or '-'
   * followed by at least one decimal digit. The value is not range-limited here.
   */
  function ParseInt(s: string): Option<int>
  {
    if |s| > 0 && (s[0] == '+' || s[0] == '-') then
      if |s| > 1 && AllDigits(s[1..]) then
        var v: int := DigitsValue(s[1..]);
        Some(if s[0] == '-' then -v else v)
      else
        None
    else if |s| > 0 && AllDigits(s) then
      Some(DigitsValue(s))
    else
      None
  }

  const Uint64Max: int := 0xFFFF_FFFF_FFFF_FFFF

  predicate Negative(s: string) { |s| > 0 && s[0] == '-' }

  /** The text after an optional leading sign. */
  function Unsigned(s: string): (u: string)
    ensures |u| <= |s|
  {
    if |s| > 0 && (s[0] == '+' || s[0] == '-') then s[1..] else s
  }

  /** The length of the run of digits that `s` starts with. */
  function DigitRun(s: string): (n: nat)
    ensures n <= |s| && AllDigits(s[..n])
    ensures n < |s| ==> !IsDigit(s[n])
  {
    if s == [] || !IsDigit(s[0]) then 0
    else
      var n := 1 + DigitRun(s[1..]);
      assert s[..n] == [s[0]] + s[1..][..n - 1];
      n
  }

  /**
   * strconv.ParseUint reads digits left to right and stops with a range
   * error as soon as the value exceeds 2^64 - 1, before it looks at any
   * character after the digits.
   */
  predicate Overflows(s: string)
  {
    var u := Unsigned(s);
    DigitsValue(u[..DigitRun(u)]) > Uint64Max
  }

  /**
   * `idx, _ := strconv.Atoi(s)` on a 64-bit platform, both errors dropped:
   * an overflowing digit run yields the int64 bound of the sign even when
   * bad characters follow it; otherwise a syntax error yields 0, a value
   * outside int64 yields the nearest bound, and anything else its value.
   */
  function Atoi(s: string): int
  {
    if Overflows(s) then (if Negative(s) then Int64Min else Int64Max)
    else match ParseInt(s)
      case None => 0
      case Some(v) => if v < Int64Min then Int64Min else if v > Int64Max then Int64Max else v
  }

  /** A string of digits is one whole digit run. */
  lemma DigitRunAll(u: string)
    requires AllDigits(u)
    ensures DigitRun(u) == |u| && u[..DigitRun(u)] == u
  {
  }

  /**
   * What Atoi yields in each case: the sign's bound on overflow, 0 on a
   * syntax error without overflow, the value when it fits and the nearest
   * int64 bound when it does not, an int64 always.
   */
  lemma AtoiCases(s: string)
    ensures Int64Min <= Atoi(s) <= Int64Max
    ensures Overflows(s) ==> Atoi(s) == if Negative(s) then Int64Min else Int64Max
    ensures !Overflows(s) && ParseInt(s).None? ==> Atoi(s) == 0
    ensures ParseInt(s).Some? && Int64Min <= ParseInt(s).value <= Int64Max ==> Atoi(s) == ParseInt(s).value
    ensures ParseInt(s).Some? && ParseInt(s).value > Int64Max ==> Atoi(s) == Int64Max
    ensures ParseInt(s).Some? && ParseInt(s).value < Int64Min ==> Atoi(s) == Int64Min
  {
    if ParseInt(s).Some? {
      DigitRunAll(Unsigned(s));
    }
  }

  lemma {:induction false} DigitsRoundTrip(n: nat)
    ensures DigitsValue(Digits(n)) == n
    decreases n
  {
    var s := Digits(n);
    if n >= 10 {
      DigitsRoundTrip(n / 10);
      assert s[..|s| - 1] == Digits(n / 10);
    }
  }

  /** Reading back what `%d` wrote gives the number again. */
  lemma ParseFormat(n: int)
    ensures ParseInt(FormatInt(n)) == Some(n)
  {
    DigitsRoundTrip(if n < 0 then -n else n);
    if n < 0 {
      assert FormatInt(n)[1..] == Digits(-n);
    }
  }

  /** A display index written with `%d` is recovered by Atoi. */
  lemma AtoiFormat(n: int)
    requires Int64Min <= n <= Int64Max
    ensures Atoi(FormatInt(n)) == n
  {
    ParseFormat(n);
    AtoiCases(FormatInt(n));
  }

  /**
   * Reading is more lenient than writing: "+3" reads as 3, yet `%d` never
   * writes a plus sign, so distinct texts read back to the same number.
   */
  lemma PlusSignAccepted(n: int)
    ensures ParseInt("+3") == Some(3)
    ensures FormatInt(n)[0] != '+'
  {
    assert "+3"[1..] == "3";
  }
}
