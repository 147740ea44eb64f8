/** src/WriteColumns.c: numbers and texts are written into fields of a fixed buffer.  A field is
    specified by the numeral that it shows, aligned to the right as include/BitsOfDataTemplates.h
    promises. */
module WriteColumns {
  import opened MachineInts

  // ---- numerals ----

  function Power(base: nat, n: nat): (r: nat)
    requires base > 0
    ensures r > 0
  {
    if n == 0 then 1 else base * Power(base, n - 1)
  }

  /** A number without its last digit. */
  function Rest(value: nat, base: nat): (q: nat)
    requires 2 <= base
    ensures value > 0 ==> q < value
    ensures q == 0 <==> value < base
  {
    value / base
  }

  function LastDigit(value: nat, base: nat): (d: nat)
    requires 2 <= base
    ensures d < base
    ensures value < base ==> d == value
  {
    value % base
  }

  lemma Recomposed(q: nat, d: nat, base: nat)
    requires 2 <= base && d < base
    ensures Rest(base * q + d, base) == q && LastDigit(base * q + d, base) == d
  {
    UniqueRemainder(base * q + d, base, q, d);
  }

  function DigitChar(d: nat): char
    requires d < 16
  {
    if d < 10 then ('0' as int + d) as char else ('A' as int + d - 10) as char
  }

  function DigitValue(c: char): nat {
    if '0' <= c <= '9' then c as int - '0' as int
    else if 'A' <= c <= 'F' then c as int - 'A' as int + 10
    else 0
  }

  /** The shortest numeral of value. */
  function Numeral(value: nat, base: nat): (s: string)
    requires 2 <= base <= 16
    ensures |s| > 0
    decreases value
  {
    if value < base then [DigitChar(value)] else Numeral(Rest(value, base), base) + [DigitChar(LastDigit(value, base))]
  }

  /** The number that a field shows; blanks and points count as nothing. */
  function Read(s: string, base: nat): nat {
    if s == "" then 0
    else if s[|s| - 1] == '.' then Read(s[..|s| - 1], base)
    else base * Read(s[..|s| - 1], base) + DigitValue(s[|s| - 1])
  }

  function Fill(n: nat, c: char): string { seq(n, _ => c) }

  /** text at the right end of a field of n characters, cut off on the left when it is too long. */
  function RightAligned(text: string, n: nat, fill: char): (s: string)
    ensures |s| == n
  {
    if |text| >= n then text[|text| - n..] else Fill(n - |text|, fill) + text
  }

  function LeftAligned(text: string, n: nat): (s: string)
    ensures |s| == n
  {
    if |text| >= n then text[..n] else text + Fill(n - |text|, ' ')
  }

  /** A number with a decimal point shift digits from the right: at least one digit before the point
      where there is room for it, and shift digits behind it. */
  function DecimalField(value: nat, n: nat, shift: nat, fill: char): (s: string)
    ensures |s| == n
  {
    if n <= shift then RightAligned(Numeral(value, 10), n, '0')
    else
      RightAligned(Numeral(value / Power(10, shift), 10), n - shift - 1, fill)
      + "."
      + RightAligned(Numeral(value % Power(10, shift), 10), shift, '0')
  }

  // ---- reading fields back ----

  lemma {:induction false} ReadAppended(s: string, c: char, base: nat)
    requires c != '.'
    ensures Read(s + [c], base) == base * Read(s, base) + DigitValue(c)
  {
    assert (s + [c])[..|s|] == s;
  }

  lemma DigitOfChar(d: nat)
    requires d < 16
    ensures DigitValue(DigitChar(d)) == d && DigitChar(d) != '.' && DigitChar(d) != ' '
  {
  }

  lemma {:induction false} ReadFill(n: nat, c: char, base: nat)
    requires c == '0' || c == ' '
    ensures Read(Fill(n, c), base) == 0
  {
    if n > 0 {
      assert Fill(n, c)[..n - 1] == Fill(n - 1, c);
      ReadFill(n - 1, c, base);
    }
  }

  /** The last character of a field shows the last digit, the others what is left without it. */
  lemma RightAlignedStep(value: nat, n: nat, fill: char, base: nat)
    requires 2 <= base <= 16 && n > 0
    ensures RightAligned(Numeral(value, base), n, fill)
            == (if value < base then Fill(n - 1, fill) else RightAligned(Numeral(Rest(value, base), base), n - 1, fill))
               + [DigitChar(LastDigit(value, base))]
  {
    hide Rest, LastDigit, RightAligned, DigitChar, Fill;
    var c := DigitChar(LastDigit(value, base));
    if value < base {
      AlignedDigit(n, fill, c);
    } else {
      AlignedStep(Numeral(Rest(value, base), base), n, fill, c);
    }
  }

  lemma AlignedDigit(n: nat, fill: char, c: char)
    requires n > 0
    ensures RightAligned([c], n, fill) == Fill(n - 1, fill) + [c]
  {
  }

  lemma AlignedStep(text: string, n: nat, fill: char, c: char)
    requires n > 0
    ensures RightAligned(text + [c], n, fill) == RightAligned(text, n - 1, fill) + [c]
  {
    if |text| >= n - 1 {
      assert (text + [c])[|text| + 1 - n..] == text[|text| - (n - 1)..] + [c];
    }
  }

  lemma SmallRemainder(a: nat, b: nat)
    requires a < b
    ensures a % b == a && a / b == 0
  {
  }

  lemma Divided(v: nat, m: nat)
    requires m > 0
    ensures v == m * (v / m) + v % m && 0 <= v % m < m && 0 <= v / m
  {
  }

  /** Dividing by a product is dividing twice. */
  lemma Nested(v: nat, m: nat, p: nat)
    requires m > 0 && p > 0
    ensures m * p > 0 && 0 <= v / m
    ensures v % (m * p) == m * ((v / m) % p) + v % m && v / (m * p) == (v / m) / p
  {
    Divided(v, m);
    var q, r: nat := v / m, v % m;
    Divided(q, p);
    var a: nat, b: nat := q / p, q % p;
    Product(m, p);
    ScaledBound(m, b, p);
    Distributes(m, p, a, b);
    UniqueRemainder(v, m * p, a, m * b + r);
  }

  lemma NestedRemainder(v: nat, base: nat, p: nat)
    requires base >= 2 && p > 0
    ensures base * p > 0 && v % (base * p) == base * (Rest(v, base) % p) + LastDigit(v, base)
  {
    Nested(v, base, p);
  }

  lemma Product(a: nat, b: nat)
    requires a > 0 && b > 0
    ensures a * b > 0
  {
  }

  lemma Monotone(m: nat, x: nat, y: nat)
    requires x <= y
    ensures m * x <= m * y
  {
  }

  lemma ScaledBound(base: nat, b: nat, p: nat)
    requires b < p
    ensures base * b + base <= base * p
  {
    Monotone(base, b + 1, p);
  }

  lemma Distributes(base: nat, p: nat, a: nat, b: nat)
    ensures base * (p * a + b) == (base * p) * a + base * b
  {
  }

  lemma UniqueRemainder(v: nat, m: nat, a: nat, r: nat)
    requires m > 0 && v == m * a + r && r < m
    ensures v % m == r && v / m == a
  {
    var q := v / m;
    assert v == m * q + v % m;
    if q < a {
      Monotone(m, q + 1, a);
    } else if q > a {
      Monotone(m, a + 1, q);
    }
  }

  /** Reading the last n digits of a numeral is taking the remainder. */
  lemma {:induction false} ReadField(value: nat, n: nat, fill: char, base: nat)
    requires 2 <= base <= 16 && (fill == '0' || fill == ' ')
    ensures Read(RightAligned(Numeral(value, base), n, fill), base) == value % Power(base, n)
    decreases n
  {
    hide Numeral, RightAligned, Read, DigitChar, DigitValue, Rest, LastDigit;
    if n == 0 {
      assert RightAligned(Numeral(value, base), 0, fill) == "";
      ReadNothing(base);
    } else {
      RightAlignedStep(value, n, fill, base);
      var d := LastDigit(value, base);
      DigitOfChar(d);
      var rest := if value < base then Fill(n - 1, fill) else RightAligned(Numeral(Rest(value, base), base), n - 1, fill);
      ReadAppended(rest, DigitChar(d), base);
      NestedRemainder(value, base, Power(base, n - 1));
      if value < base {
        ReadFill(n - 1, fill, base);
        SmallRemainder(value, base);
        SmallRemainder(0, Power(base, n - 1));
      } else {
        ReadField(Rest(value, base), n - 1, fill, base);
      }
    }
  }

  lemma ReadNothing(base: nat)
    ensures Read("", base) == 0
  {
  }

  /** mu_getNumDigits */
  function NumDigits(value: uint16): (n: nat)
    ensures 1 <= n <= 5
  {
    if value < 10 then 1
    else if value < 100 then 2
    else if value < 1000 then 3
    else if value < 10000 then 4
    else 5
  }

  /** The width in hexadecimal digits that wc_writeHex reserves. */
  function HexDigits(maxValue: nat): (n: nat)
    ensures n > 0
  {
    if maxValue > 15 then HexDigits(maxValue / 16) + 1 else 1
  }

  lemma WidthsSuffice(value: uint16, maxValue: uint16)
    requires value <= maxValue
    ensures value < Power(10, NumDigits(maxValue))
  {
    assert Power(10, 1) == 10 && Power(10, 2) == 100 && Power(10, 3) == 1000;
    assert Power(10, 4) == 10 * Power(10, 3) && Power(10, 5) == 10 * Power(10, 4);
  }

  lemma {:induction false} HexWidthSuffices(value: nat, maxValue: nat)
    requires value <= maxValue
    ensures value < Power(16, HexDigits(maxValue))
  {
    if maxValue > 15 {
      HexWidthSuffices(value / 16, maxValue / 16);
    } else {
      assert Power(16, 1) == 16 * Power(16, 0);
    }
  }

  /** With the width that belongs to the column's maximum nothing is cut off. */
  lemma IntegerReadsBack(value: uint16, maxValue: uint16, fill: char)
    requires value <= maxValue && (fill == '0' || fill == ' ')
    ensures Read(RightAligned(Numeral(value, 10), NumDigits(maxValue), fill), 10) == value
  {
    hide *;
    ReadField(value, NumDigits(maxValue), fill, 10);
    WidthsSuffice(value, maxValue);
    SmallRemainder(value, Power(10, NumDigits(maxValue)));
  }

  lemma HexReadsBack(value: uint16, maxValue: uint16)
    requires value <= maxValue
    ensures Read(RightAligned(Numeral(value, 16), HexDigits(maxValue), '0'), 16) == value
  {
    hide *;
    ReadField(value, HexDigits(maxValue), '0', 16);
    HexWidthSuffices(value, maxValue);
    SmallRemainder(value, Power(16, HexDigits(maxValue)));
  }

  lemma {:induction false} ReadBoth(a: string, b: string, base: nat)
    requires base > 0 && '.' !in b
    ensures Read(a + b, base) == Power(base, |b|) * Read(a, base) + Read(b, base)
    decreases b
  {
    if b == "" {
      assert a + b == a;
    } else {
      var init, last := b[..|b| - 1], b[|b| - 1];
      assert a + b == (a + init) + [last];
      ReadAppended(a + init, last, base);
      ReadBoth(a, init, base);
      ScaledSum(base, Power(base, |init|), Read(a, base), Read(init, base));
    }
  }

  lemma ScaledSum(base: nat, p: nat, x: nat, y: nat)
    ensures base * (p * x + y) == (base * p) * x + base * y
  {
  }

  lemma {:induction false} NoPointInNumeral(value: nat, base: nat)
    requires 2 <= base <= 16
    ensures '.' !in Numeral(value, base)
    decreases value
  {
    hide Rest, LastDigit;
    hide DigitChar;
    DigitOfChar(LastDigit(value, base));
    if value < base {
      SmallRemainder(value, base);
    } else {
      NoPointInNumeral(Rest(value, base), base);
    }
  }

  lemma NoPointInField(value: nat, n: nat, fill: char)
    requires fill != '.'
    ensures '.' !in RightAligned(Numeral(value, 10), n, fill)
  {
    NoPointInNumeral(value, 10);
  }

  /** The field of a decimal shows the value; the point does not count. */
  lemma DecimalReadsBack(value: nat, n: nat, shift: nat, fill: char)
    requires shift < n && (fill == '0' || fill == ' ')
    ensures Read(DecimalField(value, n, shift, fill), 10) == value % Power(10, n - 1)
  {
    hide Read, RightAligned, Numeral;
    var p, w := Power(10, shift), n - shift - 1;
    var left := RightAligned(Numeral(value / p, 10), w, fill);
    var right := RightAligned(Numeral(value % p, 10), shift, '0');
    NoPointInField(value % p, shift, '0');
    ReadBoth(left + ".", right, 10);
    PointIsNothing(left);
    ReadField(value / p, w, fill, 10);
    ReadField(value % p, shift, '0', 10);
    SmallRemainder(value % p, p);
    PowerSum(10, shift, w);
    Nested(value, p, Power(10, w));
  }

  lemma PointIsNothing(s: string)
    ensures Read(s + ".", 10) == Read(s, 10)
  {
    assert (s + ".")[..|s|] == s;
  }

  lemma {:induction false} PowerSum(base: nat, a: nat, b: nat)
    requires base > 0
    ensures Power(base, a + b) == Power(base, a) * Power(base, b)
  {
    if a > 0 {
      PowerSum(base, a - 1, b);
      Associates(base, Power(base, a - 1), Power(base, b));
    }
  }

  lemma Associates(a: nat, b: nat, c: nat)
    ensures (a * b) * c == a * (b * c)
  {
  }

  /** The width that writeValue gives to a decimal column: room for the point, and for a zero before
      it. */
  function DecimalWidth(maxValue: uint16, shift: uint8): (n: nat)
    ensures n >= shift + 2 && n > NumDigits(maxValue)
  {
    var numDigits := NumDigits(maxValue) + 1;
    if shift >= numDigits - 1 then shift + 2 else numDigits
  }

  lemma {:induction false} PowerMonotone(base: nat, a: nat, b: nat)
    requires base > 0 && a <= b
    ensures Power(base, a) <= Power(base, b)
    decreases b
  {
    if a < b {
      PowerMonotone(base, a, b - 1);
      Monotone(Power(base, b - 1), 1, base);
    }
  }

  lemma DecimalColumnReadsBack(value: uint16, maxValue: uint16, shift: uint8, fill: char)
    requires value <= maxValue && (fill == '0' || fill == ' ')
    ensures Read(DecimalField(value, DecimalWidth(maxValue, shift), shift, fill), 10) == value
  {
    hide *;
    var n := DecimalWidth(maxValue, shift);
    DecimalReadsBack(value, n, shift, fill);
    WidthsSuffice(value, maxValue);
    PowerMonotone(10, NumDigits(maxValue), n - 1);
    SmallRemainder(value, Power(10, n - 1));
  }

  // ---- fields from right to left, as they are written ----

  /** value divided k times. */
  function Quotient(value: nat, base: nat, k: nat): nat
    requires 2 <= base <= 16
  {
    if k == 0 then value else Quotient(Rest(value, base), base, k - 1)
  }

  lemma {:induction false} QuotientOfZero(base: nat, k: nat)
    requires 2 <= base <= 16
    ensures Quotient(0, base, k) == 0
  {
    hide Rest, LastDigit;
    if k > 0 {
      SmallRemainder(0, base);
      QuotientOfZero(base, k - 1);
    }
  }

  lemma {:induction false} QuotientNext(value: nat, base: nat, k: nat)
    requires 2 <= base <= 16
    ensures Quotient(value, base, k + 1) == Rest(Quotient(value, base, k), base)
  {
    hide Rest, LastDigit;
    if k > 0 {
      QuotientNext(Rest(value, base), base, k - 1);
    }
  }

  lemma NothingDivided(value: nat, base: nat)
    requires 2 <= base <= 16
    ensures Quotient(value, base, 0) == value
  {
  }

  lemma {:induction false} QuotientSum(value: nat, base: nat, a: nat, b: nat)
    requires 2 <= base <= 16
    ensures Quotient(value, base, a + b) == Quotient(Quotient(value, base, a), base, b)
  {
    hide Rest, LastDigit;
    if a > 0 {
      QuotientSum(Rest(value, base), base, a - 1, b);
    }
  }

  lemma {:induction false} QuotientOfPower(value: nat, base: nat, k: nat)
    requires 2 <= base <= 16
    ensures Quotient(value, base, k) == value / Power(base, k)
  {
    hide Rest, LastDigit;
    if k > 0 {
      var p := Power(base, k - 1);
      QuotientOfPower(Rest(value, base), base, k - 1);
      NestedQuotient(value, base, p);
    }
  }

  lemma NestedQuotient(v: nat, base: nat, p: nat)
    requires base >= 2 && p > 0
    ensures base * p > 0 && v / (base * p) == Rest(v, base) / p
  {
    Nested(v, base, p);
  }

  /** The low digits of value are those of its remainder. */
  lemma {:induction false} QuotientOfRemainder(value: nat, base: nat, n: nat, k: nat)
    requires 2 <= base <= 16 && k < n
    ensures LastDigit(Quotient(value % Power(base, n), base, k), base) == LastDigit(Quotient(value, base, k), base)
    decreases k
  {
    hide Rest, LastDigit;
    var p := Power(base, n - 1);
    NestedRemainder(value, base, p);
    Recomposed(Rest(value, base) % p, LastDigit(value, base), base);
    if k > 0 {
      QuotientOfRemainder(Rest(value, base), base, n - 1, k - 1);
    }
  }

  /** What stands j places from the right of a field. */
  function FieldChar(q: nat, j: nat, fill: char, base: nat): char
    requires 2 <= base <= 16
  {
    if q > 0 || j == 0 then DigitChar(LastDigit(q, base)) else fill
  }

  lemma {:induction false} CharOfField(value: nat, n: nat, fill: char, base: nat, j: nat)
    requires 2 <= base <= 16 && j < n
    ensures RightAligned(Numeral(value, base), n, fill)[n - 1 - j] == FieldChar(Quotient(value, base, j), j, fill, base)
    decreases n
  {
    hide Numeral, RightAligned, Rest, LastDigit;
    RightAlignedStep(value, n, fill, base);
    if j > 0 {
      if value < base {
        SmallRemainder(value, base);
        QuotientOfZero(base, j - 1);
      } else {
        CharOfField(Rest(value, base), n - 1, fill, base, j - 1);
      }
    }
  }

  lemma ZeroDigit()
    ensures DigitChar(0) == '0'
  {
  }

  lemma CharOfDecimal(value: nat, n: nat, shift: nat, fill: char, j: nat)
    requires j < n
    ensures DecimalField(value, n, shift, fill)[n - 1 - j]
            == (if j < shift then DigitChar(LastDigit(Quotient(value, 10, j), 10))
                else if j == shift then '.'
                else FieldChar(Quotient(value, 10, j - 1), j - shift - 1, fill, 10))
  {
    hide Numeral, RightAligned, Quotient, Power, DigitChar, LastDigit;
    ZeroDigit();
    if n <= shift {
      CharOfField(value, n, '0', 10, j);
    } else if j < shift {
      var low := value % Power(10, shift);
      CharOfField(low, shift, '0', 10, j);
      QuotientOfRemainder(value, 10, shift, j);
    } else if j > shift {
      CharOfField(value / Power(10, shift), n - shift - 1, fill, 10, j - shift - 1);
      QuotientOfPower(value, 10, shift);
      QuotientSum(value, 10, shift, j - shift - 1);
    }
  }

  /** How many digits of a decimal are written before place i from the right. */
  function DigitsTaken(i: nat, shift: nat): nat {
    if i <= shift then i else i - 1
  }

  /** The fill is '0' until two places beyond the point; from then on it may have been chosen. */
  predicate IsFillAt(i: nat, shift: nat, leading0: bool, fillChar: char) {
    if i <= shift + 2 then fillChar == '0' else fillChar == '0' || fillChar == (if leading0 then '0' else ' ')
  }

  lemma NothingTaken(value: nat, shift: nat, leading0: bool)
    ensures value == Quotient(value, 10, DigitsTaken(0, shift)) && IsFillAt(0, shift, leading0, '0')
  {
  }

  // ---- the writer ----

  /** The static StringBuffer with its Size and CursorPosition. */
  class Writer {
    const buffer: array<char>
    var cursor: uint8

    constructor (size: uint8)
      ensures Valid() && fresh(buffer) && buffer.Length == size && cursor == 0
    {
      buffer := new char[size](_ => '\0');
      cursor := 0;
    }

    ghost predicate Valid()
      reads this
    {
      buffer.Length <= 255 && cursor <= buffer.Length
    }

    /** The buffer with a field at position at. */
    ghost function With(was: seq<char>, at: nat, field: string): seq<char>
      requires at + |field| <= |was|
    {
      was[..at] + field + was[at + |field|..]
    }

    /** A failed assert: nothing has changed.  The position counts as wrapped around when it exceeds
        the range of its type, so callers stay below that. */
    method SetCursorPosition(position: uint8) returns (ok: bool)
      requires Valid()
      modifies this`cursor
      ensures Valid() && ok == (position < buffer.Length)
      ensures cursor == if ok then position else old(cursor)
    {
      ok := position < buffer.Length;
      if ok {
        cursor := position;
      }
    }

    /** The character j places from the right of an integer, and what is left of the value. */
    static method NextIntegerChar(ghost value: uint16, ghost n: nat, j: nat, rest: uint16, fillChar: char)
      returns (chr: char, next: uint16)
      requires j < n && rest == Quotient(value, 10, j)
      ensures chr == RightAligned(Numeral(value, 10), n, fillChar)[n - 1 - j]
      ensures next == Quotient(value, 10, j + 1)
    {
      hide Quotient, Numeral, RightAligned, DigitChar;
      ZeroDigit();
      CharOfField(value, n, fillChar, 10, j);
      QuotientNext(value, 10, j);
      chr := if rest > 0 then DigitChar(rest % 10) else if j == 0 then '0' else fillChar;
      next := rest / 10;
    }

    method WriteInteger(value: uint16, numDigits: uint8, leading0: bool) returns (ok: bool)
      requires Valid() && cursor + numDigits <= 255
      modifies this`cursor, buffer
      ensures Valid() && ok == (old(cursor) + numDigits < buffer.Length)
      ensures !ok ==> cursor == old(cursor) && buffer[..] == old(buffer[..])
      ensures ok ==>
                && cursor == old(cursor) + numDigits
                && buffer[..] == With(old(buffer[..]), old(cursor),
                                      RightAligned(Numeral(value, 10), numDigits, if leading0 then '0' else ' '))
    {
      hide Quotient, Numeral, RightAligned;
      ghost var at, was := cursor, buffer[..];
      ok := SetCursorPosition(cursor + numDigits);
      if !ok {
        return;
      }
      var fillChar := if leading0 then '0' else ' ';
      ghost var field := RightAligned(Numeral(value, 10), numDigits, fillChar);
      NothingDivided(value, 10);
      var rest: uint16 := value;
      var i := cursor;
      while i > cursor - numDigits
        invariant Valid() && cursor == at + numDigits && at <= i <= cursor
        invariant rest == Quotient(value, 10, cursor - i)
        invariant forall j :: 0 <= j < buffer.Length ==> buffer[j] == if i <= j < cursor then field[j - at] else was[j]
      {
        var chr;
        chr, rest := NextIntegerChar(value, numDigits, cursor - i, rest, fillChar);
        buffer[i - 1] := chr;
        i := i - 1;
      }
      assert buffer[..] == With(was, at, field);
    }

    static method HexWidth(maxValue: uint16) returns (numDigits: nat)
      ensures numDigits == HexDigits(maxValue)
    {
      numDigits := 1;
      var max := maxValue;
      while max > 0x0F
        invariant numDigits - 1 + HexDigits(max) == HexDigits(maxValue)
        decreases max
      {
        max := max / 16;
        numDigits := numDigits + 1;
      }
    }

    static method NextHexChar(ghost value: uint16, ghost n: nat, ghost j: nat, rest: uint16)
      returns (chr: char, next: uint16)
      requires j < n && rest == Quotient(value, 16, j)
      ensures chr == RightAligned(Numeral(value, 16), n, '0')[n - 1 - j]
      ensures next == Quotient(value, 16, j + 1)
    {
      hide Quotient, Numeral, RightAligned;
      CharOfField(value, n, '0', 16, j);
      QuotientNext(value, 16, j);
      var digit := rest % 16;
      chr := if digit < 10 then ('0' as int + digit) as char else ('A' as int + digit - 10) as char;
      next := rest / 16;
    }

    method WriteHex(value: uint16, maxValue: uint16) returns (ok: bool)
      requires Valid() && cursor + HexDigits(maxValue) <= 255
      modifies this`cursor, buffer
      ensures Valid() && ok == (old(cursor) + HexDigits(maxValue) < buffer.Length)
      ensures !ok ==> cursor == old(cursor) && buffer[..] == old(buffer[..])
      ensures ok ==>
                && cursor == old(cursor) + HexDigits(maxValue)
                && buffer[..] == With(old(buffer[..]), old(cursor),
                                      RightAligned(Numeral(value, 16), HexDigits(maxValue), '0'))
    {
      hide Quotient, Numeral, RightAligned, HexDigits;
      ghost var at, was := cursor, buffer[..];
      var numDigits := HexWidth(maxValue);
      ok := SetCursorPosition(cursor + numDigits);
      if !ok {
        return;
      }
      ghost var field := RightAligned(Numeral(value, 16), numDigits, '0');
      NothingDivided(value, 16);
      var rest: uint16 := value;
      var i := cursor;
      while i > cursor - numDigits
        invariant Valid() && cursor == at + numDigits && at <= i <= cursor
        invariant rest == Quotient(value, 16, cursor - i)
        invariant forall j :: 0 <= j < buffer.Length ==> buffer[j] == if i <= j < cursor then field[j - at] else was[j]
      {
        var chr;
        chr, rest := NextHexChar(value, numDigits, cursor - i, rest);
        buffer[i - 1] := chr;
        i := i - 1;
      }
      assert buffer[..] == With(was, at, field);
    }

    /** The character i places from the right of a decimal, when fillChar has been chosen for the
        places before. */
    static method NextDecimalChar(ghost value: uint16, ghost numDigits: uint8, decimalShift: uint8, leading0: bool,
                                  i: nat, rest: uint16, fillChar: char)
      returns (chr: char, next: uint16, nextFill: char)
      requires i < numDigits && rest == Quotient(value, 10, DigitsTaken(i, decimalShift))
      requires IsFillAt(i, decimalShift, leading0, fillChar)
      ensures chr == DecimalField(value, numDigits, decimalShift, if leading0 then '0' else ' ')[numDigits - 1 - i]
      ensures next == Quotient(value, 10, DigitsTaken(i + 1, decimalShift))
      ensures IsFillAt(i + 1, decimalShift, leading0, nextFill)
    {
      hide Quotient, DecimalField, DigitChar;
      ZeroDigit();
      CharOfDecimal(value, numDigits, decimalShift, if leading0 then '0' else ' ', i);
      QuotientNext(value, 10, DigitsTaken(i, decimalShift));
      nextFill := fillChar;
      if decimalShift == i {
        return '.', rest, fillChar;
      }
      if rest > 0 {
        chr := DigitChar(rest % 10);
      } else {
        if i > decimalShift + 1 {
          nextFill := if leading0 then '0' else ' ';
        }
        chr := nextFill;
      }
      next := rest / 10;
    }

    method WriteDecimal(value: uint16, numDigits: uint8, decimalShift: uint8, leading0: bool) returns (ok: bool)
      requires Valid() && cursor + numDigits <= 255
      modifies this`cursor, buffer
      ensures Valid() && ok == (old(cursor) + numDigits < buffer.Length)
      ensures !ok ==> cursor == old(cursor) && buffer[..] == old(buffer[..])
      ensures ok ==>
                && cursor == old(cursor) + numDigits
                && buffer[..] == With(old(buffer[..]), old(cursor),
                                      DecimalField(value, numDigits, decimalShift, if leading0 then '0' else ' '))
    {
      hide Quotient, DecimalField, IsFillAt;
      ghost var at, was := cursor, buffer[..];
      ok := SetCursorPosition(cursor + numDigits);
      if !ok {
        return;
      }
      ghost var field := DecimalField(value, numDigits, decimalShift, if leading0 then '0' else ' ');
      NothingTaken(value, decimalShift, leading0);
      var fillChar := '0';
      var rest: uint16 := value;
      var i := 0;
      while i < numDigits
        invariant Valid() && cursor == at + numDigits && i <= numDigits
        invariant rest == Quotient(value, 10, DigitsTaken(i, decimalShift))
        invariant IsFillAt(i, decimalShift, leading0, fillChar)
        invariant forall j :: 0 <= j < buffer.Length ==>
                    buffer[j] == if cursor - i <= j < cursor then field[j - at] else was[j]
      {
        var chr;
        chr, rest, fillChar := NextDecimalChar(value, numDigits, decimalShift, leading0, i, rest, fillChar);
        var position := cursor - i - 1;
        buffer[position] := chr;
        i := i + 1;
      }
      assert buffer[..] == With(was, at, field);
    }

    /** txt holds the characters before the terminator. The code writes each character before
        increaseCursorPosition asserts that there was room for it: pastEnd tells whether a failing
        call wrote one byte behind the buffer. */
    method WriteTxt(txt: string, maxLength: uint8) returns (ok: bool, pastEnd: bool)
      requires Valid() && '\0' !in txt
      modifies this`cursor, buffer
      ensures Valid() && ok == (old(cursor) + maxLength <= buffer.Length) && pastEnd == !ok
      ensures !ok ==>
                && cursor == buffer.Length
                && buffer[..] == old(buffer[..])[..old(cursor)] + LeftAligned(txt, maxLength)[..buffer.Length - old(cursor)]
      ensures ok ==>
                && cursor == old(cursor) + maxLength
                && buffer[..] == With(old(buffer[..]), old(cursor), LeftAligned(txt, maxLength))
    {
      ghost var at, was := cursor, buffer[..];
      var txtFinished := false;
      var i := 0;
      while i < maxLength
        invariant Valid() && i <= maxLength && cursor == at + i
        invariant txtFinished == (i > |txt|)
        invariant forall j :: 0 <= j < buffer.Length ==>
                    buffer[j] == if at <= j < at + i then LeftAligned(txt, maxLength)[j - at] else was[j]
      {
        if i == |txt| {
          txtFinished := true;
        }
        if cursor >= buffer.Length {
          assert buffer[..] == was[..at] + LeftAligned(txt, maxLength)[..buffer.Length - at];
          return false, true;
        }
        buffer[cursor] := if txtFinished then ' ' else txt[i];
        cursor := cursor + 1;
        i := i + 1;
      }
      assert buffer[..] == With(was, at, LeftAligned(txt, maxLength));
      ok, pastEnd := true, false;
    }

    /** The write comes before the assert, as in WriteTxt. */
    method WriteChar(charIndex: uint8, charSet: string) returns (ok: bool, pastEnd: bool)
      requires Valid() && charIndex < |charSet|
      modifies this`cursor, buffer
      ensures Valid() && ok == (old(cursor) < buffer.Length) && pastEnd == !ok
      ensures !ok ==> cursor == old(cursor) && buffer[..] == old(buffer[..])
      ensures ok ==>
                && cursor == old(cursor) + 1
                && buffer[..] == With(old(buffer[..]), old(cursor), [charSet[charIndex]])
    {
      ok := cursor < buffer.Length;
      pastEnd := !ok;
      if ok {
        buffer[cursor] := charSet[charIndex];
        assert buffer[..] == With(old(buffer[..]), cursor, [charSet[charIndex]]);
        cursor := cursor + 1;
      }
    }
  }
}
