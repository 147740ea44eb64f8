/** What stands at each place of the fields that src/WriteColumns.c writes. */
module FieldLaws {
  import opened MachineInts
  import opened WriteColumns

  const DIGITS := "0123456789ABCDEF"

  lemma DigitIsPrinted(d: nat)
    requires d < 16
    ensures DigitChar(d) == DIGITS[d]
  {
    assert d == 0 || d == 1 || d == 2 || d == 3 || d == 4 || d == 5 || d == 6 || d == 7 || d == 8 || d == 9 || d == 10
        || d == 11 || d == 12 || d == 13 || d == 14 || d == 15;
  }

  /** value without its last k digits. */
  function Cut(value: nat, base: nat, k: nat): (q: nat)
    requires 2 <= base <= 16
  {
    Divided(value, Power(base, k));
    value / Power(base, k)
  }

  /** The digit of value for base^j, where the number reaches that far or at the last place; else the fill. */
  function PlaceChar(value: nat, base: nat, j: nat, fill: char): char
    requires 2 <= base <= 16
  {
    if j == 0 || value >= Power(base, j) then DIGITS[Cut(value, base, j) % base] else fill
  }

  lemma PlaceOfQuotient(value: nat, base: nat, j: nat, fill: char)
    requires 2 <= base <= 16
    ensures FieldChar(Quotient(value, base, j), j, fill, base) == PlaceChar(value, base, j, fill)
  {
    var q := Cut(value, base, j);
    QuotientOfPower(value, base, j);
    DigitIsPrinted(q % base);
    Reaches(value, Power(base, j));
    hide Quotient, Power, DigitChar;
  }

  lemma Reaches(value: nat, p: nat)
    requires p > 0
    ensures value / p > 0 <==> value >= p
  {
    Divided(value, p);
    if value / p == 0 {
      assert value == value % p;
    } else if value < p {
      SmallRemainder(value, p);
    }
  }

  /** A number of n places, decimal or hexadecimal. */
  lemma NumberFieldLaw(value: nat, n: nat, fill: char, base: nat, j: nat)
    requires 2 <= base <= 16 && j < n
    ensures RightAligned(Numeral(value, base), n, fill)[n - 1 - j] == PlaceChar(value, base, j, fill)
  {
    CharOfField(value, n, fill, base, j);
    PlaceOfQuotient(value, base, j, fill);
    hide Numeral, RightAligned, FieldChar, PlaceChar, Quotient;
  }

  /** A decimal of n places with shift places behind the point: there always a digit, before the point as in
      a number without its last shift digits. */
  lemma DecimalFieldLaw(value: nat, n: nat, shift: nat, fill: char, j: nat)
    requires j < n
    ensures DecimalField(value, n, shift, fill)[n - 1 - j]
         == if j < shift then PlaceChar(value, 10, j, '0')
            else if j == shift then '.'
            else PlaceChar(Cut(value, 10, shift), 10, j - shift - 1, fill)
  {
    hide *;
    CharOfDecimal(value, n, shift, fill, j);
    if j < shift {
      DigitOrZero(value, j);
    } else if j > shift {
      WholePlace(value, shift, j - shift - 1, fill);
    }
  }

  lemma DigitOrZero(value: nat, j: nat)
    ensures DigitChar(LastDigit(Quotient(value, 10, j), 10)) == PlaceChar(value, 10, j, '0')
  {
    PlaceOfQuotient(value, 10, j, '0');
    ZeroDigit();
    SmallRemainder(0, 10);
    hide Quotient, PlaceChar, Power, DigitChar;
  }

  lemma WholePlace(value: nat, shift: nat, j: nat, fill: char)
    ensures FieldChar(Quotient(value, 10, shift + j), j, fill, 10) == PlaceChar(Cut(value, 10, shift), 10, j, fill)
  {
    QuotientOfPower(value, 10, shift);
    QuotientSum(value, 10, shift, j);
    hide Quotient, PlaceChar, Power, FieldChar;
    PlaceOfQuotient(Cut(value, 10, shift), 10, j, fill);
  }

  /** A text of n places. */
  lemma TextFieldLaw(text: string, n: nat, j: nat)
    requires j < n
    ensures LeftAligned(text, n)[j] == if j < |text| then text[j] else ' '
  {
  }

  /** The widths are the least that hold the maximum. */
  lemma WidthsAreLeast(maxValue: uint16)
    ensures maxValue < Power(10, NumDigits(maxValue)) && (maxValue > 0 ==> Power(10, NumDigits(maxValue) - 1) <= maxValue)
    ensures maxValue < Power(16, HexDigits(maxValue)) && (maxValue > 0 ==> Power(16, HexDigits(maxValue) - 1) <= maxValue)
  {
    WidthsSuffice(maxValue, maxValue);
    HexWidthSuffices(maxValue, maxValue);
    HexWidthIsLeast(maxValue);
    assert Power(10, 0) == 1 && Power(10, 1) == 10 && Power(10, 2) == 100;
    assert Power(10, 3) == 10 * Power(10, 2) && Power(10, 4) == 10 * Power(10, 3);
    hide HexDigits;
  }

  lemma {:induction false} HexWidthIsLeast(maxValue: nat)
    ensures maxValue > 0 ==> Power(16, HexDigits(maxValue) - 1) <= maxValue
  {
    if maxValue > 15 {
      HexWidthIsLeast(maxValue / 16);
    }
  }
}
