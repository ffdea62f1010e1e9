/** Decimal text as `printf("%d")` writes it and `strtol(..., 10)` reads it back. */
module Text {
  import opened CInt

  const NUL: char := '\0'
  const LONG_MAX := 0x7FFF_FFFF_FFFF_FFFF
  const LONG_MIN := -0x8000_0000_0000_0000

  /** The characters `isspace` accepts in the C locale. */
  predicate IsSpace(c: char) { c == ' ' || 9 <= c as int <= 13 }

  predicate IsDigit(c: char) { '0' <= c <= '9' }

  function DigitChar(d: nat): (c: char)
    requires d < 10
    ensures IsDigit(c)
  {
    (d + '0' as int) as char
  }

  function DigitValue(c: char): (d: nat)
    requires IsDigit(c)
    ensures d < 10
  {
    c as int - '0' as int
  }

  predicate AllDigits(s: string) { forall i :: 0 <= i < |s| ==> IsDigit(s[i]) }

  /** The decimal numeral of a natural number. */
  function Digits(n: nat): (s: string)
    ensures s != "" && AllDigits(s)
  {
    if n < 10 then [DigitChar(n)] else Digits(n / 10) + [DigitChar(n % 10)]
  }

  /** What `%d` prints. */
  function Decimal(x: int): (s: string)
    ensures s != ""
    ensures forall i :: 0 <= i < |s| ==> IsDigit(s[i]) || s[i] == '-'
  {
    if x < 0 then "-" + Digits(-x) else Digits(x)
  }

  /** The number a numeral denotes. */
  function NumeralValue(s: string): nat
    requires AllDigits(s)
  {
    if s == "" then 0
    else 10 * NumeralValue(s[..|s| - 1]) + DigitValue(s[|s| - 1])
  }

  /** How many of the leading characters are digits. */
  function DigitRun(s: string): (n: nat)
    ensures n <= |s|
    ensures AllDigits(s[..n])
    ensures n < |s| ==> !IsDigit(s[n])
  {
    if s == "" || !IsDigit(s[0]) then 0 else 1 + DigitRun(s[1..])
  }

  function SpaceRun(s: string): (n: nat)
    ensures n <= |s|
  {
    if s == "" || !IsSpace(s[0]) then 0 else 1 + SpaceRun(s[1..])
  }

  /** The value of `strtol`, how far `endptr` advanced, and whether errno became ERANGE. */
  datatype LongParse = LongParse(value: int, used: nat, range: bool)

  function Strtol(s: string): (r: LongParse)
    ensures r.used <= |s|
    ensures LONG_MIN <= r.value <= LONG_MAX
  {
    var sp := SpaceRun(s);
    var signed := sp < |s| && (s[sp] == '-' || s[sp] == '+');
    var start := if signed then sp + 1 else sp;
    var n := DigitRun(s[start..]);
    if n == 0 then LongParse(0, 0, false)
    else
      var magnitude: int := NumeralValue(s[start..][..n]);
      var v: int := if signed && s[sp] == '-' then -magnitude else magnitude;
      if v > LONG_MAX then LongParse(LONG_MAX, start + n, true)
      else if v < LONG_MIN then LongParse(LONG_MIN, start + n, true)
      else LongParse(v, start + n, false)
  }

  lemma {:induction false} NumeralOfDigits(n: nat)
    ensures NumeralValue(Digits(n)) == n
  {
    if n >= 10 {
      NumeralOfDigits(n / 10);
      var s := Digits(n);
      assert s[..|s| - 1] == Digits(n / 10);
    }
  }

  lemma {:induction false} DigitRunStops(digits: string, rest: string)
    requires AllDigits(digits)
    requires rest == "" || !IsDigit(rest[0])
    ensures DigitRun(digits + rest) == |digits|
  {
    var s := digits + rest;
    if digits == "" {
      assert s == rest;
    } else {
      DigitRunStops(digits[1..], rest);
      assert s[1..] == digits[1..] + rest;
    }
  }

  /** `strtol` undoes `%d` for every `int`, whatever non-digit follows the numeral. */
  lemma StrtolDecimal(x: int, rest: string)
    requires IsInt32(x)
    requires rest == "" || !IsDigit(rest[0])
    ensures Strtol(Decimal(x) + rest) == LongParse(x, |Decimal(x)|, false)
  {
    var magnitude: nat := if x < 0 then -x else x;
    var digits := Digits(magnitude);
    var s := Decimal(x) + rest;
    var start := if x < 0 then 1 else 0;
    DigitRunStops(digits, rest);
    NumeralOfDigits(magnitude);
    assert SpaceRun(s) == 0;
    assert s[start..] == digits + rest;
    assert s[start..][..|digits|] == digits;
  }

  lemma StrtolWholeDecimal(x: int)
    requires IsInt32(x)
    ensures Strtol(Decimal(x)) == LongParse(x, |Decimal(x)|, false)
  {
    StrtolDecimal(x, "");
    assert Decimal(x) + "" == Decimal(x);
  }

  function Pow10(k: nat): nat { if k == 0 then 1 else 10 * Pow10(k - 1) }

  lemma {:induction false} DigitsLength(n: nat, k: nat)
    requires k >= 1 && n < Pow10(k)
    ensures |Digits(n)| <= k
  {
    if n >= 10 {
      assert k >= 2;
      DigitsLength(n / 10, k - 1);
    }
  }

  /** A printed `int` never needs more than eleven characters. */
  lemma DecimalLength(x: int)
    requires IsInt32(x)
    ensures |Decimal(x)| <= 11
  {
    assert Pow10(10) == 10_000_000_000 by {
      assert Pow10(5) == 100_000;
    }
    DigitsLength(if x < 0 then -x else x, 10);
  }

  /** Pieces of text with a separator between neighbours. */
  function JoinWith(separator: string, pieces: seq<string>): string
    requires pieces != []
  {
    if |pieces| == 1 then pieces[0] else pieces[0] + separator + JoinWith(separator, pieces[1..])
  }

  lemma {:induction false} JoinWithAppend(separator: string, pieces: seq<string>, more: seq<string>)
    requires pieces != [] && more != []
    ensures JoinWith(separator, pieces + more)
         == JoinWith(separator, pieces) + separator + JoinWith(separator, more)
  {
    if |pieces| > 1 {
      assert (pieces + more)[1..] == pieces[1..] + more;
      JoinWithAppend(separator, pieces[1..], more);
      assert pieces[0] + separator + (JoinWith(separator, pieces[1..]) + separator + JoinWith(separator, more))
          == JoinWith(separator, pieces) + separator + JoinWith(separator, more);
    } else {
      assert (pieces + more)[1..] == more;
    }
  }
}
