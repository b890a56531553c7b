/** Integers as text: uintToString, valueToString and Reader::decodeNumber, with the 64-bit
    wrap-around of LargestInt and LargestUInt written out. */
module JsonNumber {
  import opened Options
  import opened CString
  import opened JsonValue
  import opened JsonLexer

  /** sscanf("%lf") on a text: the double it scans, if any. */
  type DoubleScanner = string -> Option<real>

  // ---------------------------------------------------------------- 64-bit integers

  predicate IsLargestInt(i: int) { -TWO_63 <= i <= MAX_LARGEST_INT }

  predicate IsLargestUInt(u: int) { 0 <= u <= MAX_LARGEST_UINT }

  /** The conversion from LargestUInt to LargestInt. */
  function ToSigned(u: int): (i: int)
    requires IsLargestUInt(u)
    ensures IsLargestInt(i)
  {
    if u < TWO_63 then u else u - TWO_64
  }

  /** The conversion from LargestInt to LargestUInt. */
  function ToUnsigned(i: int): (u: int)
    requires IsLargestInt(i)
    ensures IsLargestUInt(u)
  {
    if i >= 0 then i else i + TWO_64
  }

  /** Two's complement negation: the least integer is its own negative. */
  function Negate(i: int): (r: int)
    requires IsLargestInt(i)
    ensures IsLargestInt(r)
  {
    if i == -TWO_63 then i else -i
  }

  // ---------------------------------------------------------------- digits

  function DigitChar(d: int): (c: char)
    requires 0 <= d < 10
    ensures IsDigit(c) && DigitValue(c) == d
  {
    ('0' as int + d) as char
  }

  function DigitValue(c: char): int { c as int - '0' as int }

  predicate AllDigits(s: string) { forall i :: 0 <= i < |s| ==> IsDigit(s[i]) }

  /** The number a string of digits stands for. */
  function Decimal(s: string): (n: int)
    ensures AllDigits(s) ==> n >= 0
  {
    if s == "" then 0 else 10 * Decimal(s[..|s| - 1]) + DigitValue(s[|s| - 1])
  }

  /** The shortest digit string of a number. */
  function Digits(n: nat): (s: string)
    ensures s != "" && AllDigits(s)
  {
    if n < 10 then [DigitChar(n)] else Digits(n / 10) + [DigitChar(n % 10)]
  }

  lemma {:induction false} DecimalOfDigits(n: nat)
    ensures Decimal(Digits(n)) == n
    ensures Digits(n)[0] == '0' ==> n == 0
  {
    if n >= 10 {
      DecimalOfDigits(n / 10);
      var s := Digits(n);
      assert s[..|s| - 1] == Digits(n / 10);
    } else {
      assert Digits(n)[..0] == "";
    }
  }

  /** Digits is the only digit string of its number without a superfluous leading zero. */
  lemma {:induction false} DigitsOfDecimal(s: string)
    requires s != "" && AllDigits(s) && (|s| > 1 ==> s[0] != '0')
    ensures Digits(Decimal(s)) == s
  {
    var t := s[..|s| - 1];
    assert s == t + [s[|s| - 1]];
    if t != "" {
      DigitsOfDecimal(t);
      DecimalPositive(t);
      assert Decimal(s) / 10 == Decimal(t) && Decimal(s) % 10 == DigitValue(s[|s| - 1]);
    }
  }

  lemma {:induction false} DecimalPositive(s: string)
    requires s != "" && AllDigits(s) && s[0] != '0'
    ensures Decimal(s) > 0
  {
    if |s| > 1 { DecimalPositive(s[..|s| - 1]); }
  }

  // ---------------------------------------------------------------- integer to text

  /** valueToString( LargestUInt ) */
  function UIntText(u: int): string
    requires IsLargestUInt(u)
  {
    Digits(u)
  }

  /** valueToString( LargestInt ) */
  function IntText(i: int): string
    requires IsLargestInt(i)
  {
    if i < 0 then "-" + Digits(ToUnsigned(Negate(i))) else Digits(ToUnsigned(i))
  }

  /** The text of an integer is its sign and the digits of its magnitude, also for the least one. */
  lemma IntTextIsSignAndMagnitude(i: int)
    requires IsLargestInt(i)
    ensures i >= 0 ==> AllDigits(IntText(i)) && Decimal(IntText(i)) == i
    ensures i < 0 ==> IntText(i)[0] == '-' && AllDigits(IntText(i)[1..]) && Decimal(IntText(i)[1..]) == -i
  {
    DecimalOfDigits(if i < 0 then -i else i);
    assert i < 0 ==> IntText(i)[1..] == Digits(-i);
  }

  function Pow10(n: nat): (p: nat)
    ensures p > 0
  {
    if n == 0 then 1 else 10 * Pow10(n - 1)
  }

  /** sizeof(UIntToStringBuffer): 3 * sizeof(LargestUInt) + 1 */
  const BUFFER_SIZE := 25

  /** No 64-bit integer has more than twenty digits. */
  lemma TwentyDigits()
    ensures Pow10(20) > MAX_LARGEST_UINT
  {
    assert Pow10(4) == 10_000;
    assert Pow10(8) == 100_000_000;
    assert Pow10(12) == 1_000_000_000_000;
    assert Pow10(16) == 10_000_000_000_000_000;
  }

  lemma PowerStep(v: nat, n: nat)
    requires v < Pow10(n)
    ensures n == 0 ==> v == 0
    ensures n > 0 ==> v / 10 < Pow10(n - 1)
  {
  }

  lemma DigitsStep(v: nat, tail: string)
    ensures Digits(v) + tail == (if v < 10 then "" else Digits(v / 10)) + ([DigitChar(v % 10)] + tail)
  {
    if v >= 10 { assert Digits(v / 10) + [DigitChar(v % 10)] + tail == Digits(v / 10) + ([DigitChar(v % 10)] + tail); }
  }

  /** uintToString: writes the digits and a final NUL backwards from the end of the buffer. */
  method UIntToString(value: int, buffer: array<char>, current: nat) returns (start: nat)
    requires IsLargestUInt(value)
    requires buffer.Length == current == BUFFER_SIZE
    modifies buffer
    ensures 4 <= start < BUFFER_SIZE && buffer[BUFFER_SIZE - 1] == NUL
    ensures buffer[start..BUFFER_SIZE - 1] == Digits(value)
  {
    var v := value;
    start := current - 1;
    buffer[start] := NUL;
    hide Pow10, Digits;
    TwentyDigits();
    while true
      invariant 4 <= start < BUFFER_SIZE && buffer[BUFFER_SIZE - 1] == NUL
      invariant 0 <= v < Pow10(start - 4)
      invariant v > 0 || start == BUFFER_SIZE - 1
      invariant Digits(value) == Digits(v) + buffer[start..BUFFER_SIZE - 1]
      decreases start
    {
      ghost var tail := buffer[start..BUFFER_SIZE - 1];
      DigitsStep(v, tail);
      PowerStep(v, start - 4);
      start := start - 1;
      buffer[start] := DigitChar(v % 10);
      v := v / 10;
      assert buffer[start..BUFFER_SIZE - 1] == [buffer[start]] + tail;
      if v == 0 { break; }
    }
  }

  /** valueToString( LargestUInt ) */
  method UIntToText(value: int) returns (s: string)
    requires IsLargestUInt(value)
    ensures s == UIntText(value)
  {
    var buffer := new char[BUFFER_SIZE](_ => NUL);
    var current := UIntToString(value, buffer, BUFFER_SIZE);
    s := buffer[current..BUFFER_SIZE - 1];
  }

  /** valueToString( LargestInt ): the sign is written in front of the digits, inside the buffer. */
  method IntToText(value: int) returns (s: string)
    requires IsLargestInt(value)
    ensures s == IntText(value)
  {
    var buffer := new char[BUFFER_SIZE](_ => NUL);
    var isNegative := value < 0;
    var v := if isNegative then Negate(value) else value;
    var current := UIntToString(ToUnsigned(v), buffer, BUFFER_SIZE);
    if isNegative {
      ghost var digits := buffer[current..BUFFER_SIZE - 1];
      current := current - 1;
      buffer[current] := '-';
      assert buffer[current..BUFFER_SIZE - 1] == ['-'] + digits;
    }
    s := buffer[current..BUFFER_SIZE - 1];
  }

  // ---------------------------------------------------------------- text to integer

  /** The text holds something only a real number has. */
  predicate LooksReal(text: string) {
    exists i :: 0 <= i < |text| && RealMark(text, i)
  }

  predicate RealMark(text: string, i: nat)
    requires i < |text|
  {
    text[i] == '.' || text[i] == 'e' || text[i] == 'E' || text[i] == '+' || (text[i] == '-' && i != 0)
  }

  datatype Sum = Sum(total: int) | TooBig | NotDigits

  /** The digit loop of decodeNumber: the remaining digits on top of the value so far. */
  function AddDigits(s: string, value: int, max: int): Sum
    requires max > 0
  {
    if s == "" then Sum(value)
    else if !IsDigit(s[0]) then NotDigits
    else if value >= max / 10 && (|s| > 1 || DigitValue(s[0]) > max % 10) then TooBig
    else AddDigits(s[1..], (value * 10 + DigitValue(s[0])) % TWO_64, max)
  }

  /** The greatest magnitude decodeNumber tries to read as an integer. */
  function MaxMagnitude(negative: bool): (m: int)
    ensures m == if negative then TWO_63 else MAX_LARGEST_UINT
  {
    if negative then ToUnsigned(Negate(-TWO_63)) else MAX_LARGEST_UINT
  }

  function IsNegative(text: string): bool { text != "" && text[0] == '-' }

  function Unsigned(text: string): string { if IsNegative(text) then text[1..] else text }

  /** How the integer part of decodeNumber stores the sum of the digits. */
  function IntegerValue(negative: bool, total: int): Value
    requires IsLargestUInt(total)
  {
    if negative then Int(Negate(ToSigned(total)))
    else if total <= MAX_INT then Int(ToSigned(total))
    else UInt(total)
  }

  datatype NumberResult = Number(value: Value) | NotANumber(message: string)

  function DecodeDouble(text: string, scan: DoubleScanner): NumberResult {
    match scan(text)
    case Some(r) => Number(Real(r))
    case None => NotANumber("'" + text + "' is not a number.")
  }

  lemma {:induction false} AddDigitsInRange(s: string, value: int, max: int)
    requires IsLargestUInt(value) && max > 0
    ensures AddDigits(s, value, max).Sum? ==> IsLargestUInt(AddDigits(s, value, max).total)
  {
    if s != "" && IsDigit(s[0]) {
      AddDigitsInRange(s[1..], (value * 10 + DigitValue(s[0])) % TWO_64, max);
    }
  }

  /** Reader::decodeNumber on the text of a number token. */
  function DecodeNumber(text: string, scan: DoubleScanner): NumberResult {
    if LooksReal(text) then DecodeDouble(text, scan)
    else
      var negative := IsNegative(text);
      AddDigitsInRange(Unsigned(text), 0, MaxMagnitude(negative));
      match AddDigits(Unsigned(text), 0, MaxMagnitude(negative))
      case Sum(total) => Number(IntegerValue(negative, total))
      case TooBig => DecodeDouble(text, scan)
      case NotDigits => NotANumber("'" + text + "' is not a number.")
  }

  // ---------------------------------------------------------------- when the integer is exact

  lemma DecimalAppend(p: string, c: char)
    ensures Decimal(p + [c]) == 10 * Decimal(p) + DigitValue(c)
  {
    assert (p + [c])[..|p|] == p;
  }

  /** Every further digit multiplies the value by ten. */
  lemma {:induction false} DecimalGrows(p: string, q: string)
    requires AllDigits(p) && AllDigits(q)
    ensures Decimal(p + q) >= Decimal(p)
    ensures q != "" ==> Decimal(p + q) >= 10 * Decimal(p)
    ensures |q| > 1 ==> Decimal(p + q) >= 100 * Decimal(p)
  {
    if q == "" {
      assert p + q == p;
    } else {
      var r, c := q[..|q| - 1], q[|q| - 1];
      assert p + q == p + r + [c];
      DecimalAppend(p + r, c);
      DecimalGrows(p, r);
    }
  }

  /** decodeNumber reads the magnitude v with integer arithmetic. */
  predicate ReadAsInteger(v: nat, max: int)
    requires max > 0
  {
    v / 10 < max / 10 || (v / 100 < max / 10 && v % 10 <= max % 10)
  }

  lemma ReadLastDigit(d: nat, c: nat, max: int)
    requires 10 <= max && d < 10 * (max / 10) && c < 10
    ensures ReadAsInteger(10 * d + c, max) <==> d < max / 10 || c <= max % 10
  {
  }

  lemma TwoDigitsTooMany(d: nat, v: nat, max: int)
    requires 10 <= max && d >= max / 10 && v >= 100 * d
    ensures !ReadAsInteger(v, max)
  {
  }

  lemma NoWrap(d: nat, c: nat, max: int)
    requires 10 <= max < TWO_64 && d < max / 10 && c < 10
    ensures (d * 10 + c) % TWO_64 == 10 * d + c < 10 * (max / 10)
  {
  }

  lemma LastDigitAdded(p: string, c: char, max: int)
    requires 10 <= max < TWO_64 && AllDigits(p) && AllDigits(p + [c]) && Decimal(p) < 10 * (max / 10)
    ensures var v := Decimal(p + [c]);
            AddDigits([c], Decimal(p), max) == if ReadAsInteger(v, max) then Sum(v % TWO_64) else TooBig
  {
    hide Decimal, ReadAsInteger;
    assert (p + [c])[|p|] == c;
    DecimalAppend(p, c);
    ReadLastDigit(Decimal(p), DigitValue(c), max);
    assert [c][1..] == "";
  }

  lemma TooManyDigits(p: string, q: string, max: int)
    requires 10 <= max && AllDigits(p) && AllDigits(q) && |q| > 1 && Decimal(p) >= max / 10
    ensures AddDigits(q, Decimal(p), max) == TooBig && !ReadAsInteger(Decimal(p + q), max)
  {
    hide Decimal, ReadAsInteger;
    DecimalGrows(p, q);
    TwoDigitsTooMany(Decimal(p), Decimal(p + q), max);
  }

  lemma NextDigitAdded(p: string, q: string, max: int)
    requires 10 <= max < TWO_64 && AllDigits(p) && |q| > 1 && IsDigit(q[0]) && Decimal(p) < max / 10
    ensures AddDigits(q, Decimal(p), max) == AddDigits(q[1..], Decimal(p + [q[0]]), max)
    ensures Decimal(p + [q[0]]) < 10 * (max / 10)
  {
    hide Decimal;
    DecimalAppend(p, q[0]);
    NoWrap(Decimal(p), DigitValue(q[0]), max);
  }

  /** The digit loop in closed form, from any point where the value so far is exact. */
  lemma {:induction false} AddDigitsClosed(p: string, q: string, max: int)
    requires 10 <= max < TWO_64
    requires AllDigits(p) && AllDigits(q) && q != ""
    requires Decimal(p) < 10 * (max / 10)
    ensures var v := Decimal(p + q);
            AddDigits(q, Decimal(p), max) == if ReadAsInteger(v, max) then Sum(v % TWO_64) else TooBig
    decreases |q|
  {
    hide Decimal, ReadAsInteger, AddDigits;
    if |q| == 1 {
      assert q == [q[0]];
      LastDigitAdded(p, q[0], max);
    } else if Decimal(p) >= max / 10 {
      TooManyDigits(p, q, max);
    } else {
      NextDigitAdded(p, q, max);
      assert p + q == (p + [q[0]]) + q[1..];
      AddDigitsClosed(p + [q[0]], q[1..], max);
    }
  }

  /** The integer a text of an optional sign and digits denotes. */
  function Denoted(text: string): int {
    if IsNegative(text) then -Decimal(Unsigned(text)) else Decimal(Unsigned(text))
  }

  predicate IsIntegerText(text: string) {
    Unsigned(text) != "" && AllDigits(Unsigned(text))
  }

  lemma IntegerTextIsNotReal(text: string)
    requires IsIntegerText(text)
    ensures !LooksReal(text)
  {
    forall i | 0 <= i < |text|
      ensures !RealMark(text, i)
    {
      if i > 0 || !IsNegative(text) {
        assert IsDigit(Unsigned(text)[if IsNegative(text) then i - 1 else i]);
      }
    }
  }

  /** The stored integer of a value of kind Int or UInt. */
  function Stored(v: Value): Option<int> {
    match v case Int(i) => Some(i) case UInt(u) => Some(u) case _ => None
  }

  /** The canonical tag for an integer: Int up to 2^31 - 1, UInt beyond. */
  function CanonicalInteger(n: int): Value {
    if n <= MAX_INT then Int(n) else UInt(n)
  }

  /** What decodeNumber promises of any integer text: the exact integer, or, beyond the range
      of the integers, the double. */
  predicate DecodesAsDocumented(text: string, scan: DoubleScanner) {
    DecodeNumber(text, scan) == Number(CanonicalInteger(Denoted(text))) ||
    DecodeNumber(text, scan) == DecodeDouble(text, scan)
  }

  /** A magnitude out of range that passes both overflow guards is stored as another number. */
  lemma WrappedIsWrong(negative: bool, v: int)
    requires v > MaxMagnitude(negative)
    ensures Stored(IntegerValue(negative, v % TWO_64)).Some?
    ensures Stored(IntegerValue(negative, v % TWO_64)) != Some(if negative then -v else v)
  {
  }

  lemma InRangeIsReadAsInteger(v: nat, max: int)
    requires 100 <= max && v <= max
    ensures ReadAsInteger(v, max)
  {
  }

  lemma GuardsInArithmetic(v: nat, max: int)
    requires 100 <= max && v > max
    ensures !ReadAsInteger(v, max) <==> v / 100 >= max / 10 || v % 10 > max % 10
  {
  }

  /** decodeNumber on an integer text in closed form. */
  lemma DecodeIntegerText(text: string, scan: DoubleScanner)
    requires IsIntegerText(text)
    ensures var v, negative := Decimal(Unsigned(text)), IsNegative(text);
            DecodeNumber(text, scan) ==
              if ReadAsInteger(v, MaxMagnitude(negative)) then Number(IntegerValue(negative, v % TWO_64))
              else DecodeDouble(text, scan)
  {
    hide Decimal, ReadAsInteger, LooksReal;
    IntegerTextIsNotReal(text);
    var q := Unsigned(text);
    assert "" + q == q;
    DecimalOfNothing();
    AddDigitsClosed("", q, MaxMagnitude(IsNegative(text)));
  }

  lemma DecimalOfNothing()
    ensures Decimal("") == 0
  {
  }

  /** The promise holds exactly for the magnitudes in range and for those on which one of the
      two overflow guards fires; otherwise the last digit slips past them and the sum wraps. */
  lemma DecodesAsDocumentedExactly(text: string, scan: DoubleScanner)
    requires IsIntegerText(text)
    ensures var v, max := Decimal(Unsigned(text)), MaxMagnitude(IsNegative(text));
            DecodesAsDocumented(text, scan) <==> v <= max || v / 100 >= max / 10 || v % 10 > max % 10
  {
    hide Decimal, DecodeNumber, IntegerValue, LooksReal, ReadAsInteger;
    var v, negative := Decimal(Unsigned(text)), IsNegative(text);
    DecodeIntegerText(text, scan);
    if v <= MaxMagnitude(negative) {
      InRangeIsReadAsInteger(v, MaxMagnitude(negative));
      InRangeIsCanonical(negative, v);
    } else {
      WrappedIsWrong(negative, v);
      GuardsInArithmetic(v, MaxMagnitude(negative));
      StoredCanonical(Denoted(text));
    }
  }

  lemma InRangeIsCanonical(negative: bool, v: int)
    requires 0 <= v <= MaxMagnitude(negative)
    ensures IntegerValue(negative, v % TWO_64) == CanonicalInteger(if negative then -v else v)
  {
  }

  /** Every integer of [-2^63, 2^64 - 1], leading zeros included, is read exactly. */
  lemma DecodeNumberExact(text: string, scan: DoubleScanner)
    requires IsIntegerText(text)
    requires IsLargestInt(Denoted(text)) || IsLargestUInt(Denoted(text))
    ensures DecodeNumber(text, scan) == Number(CanonicalInteger(Denoted(text)))
  {
    hide Decimal, DecodeNumber, IntegerValue, LooksReal, ReadAsInteger;
    var v, negative := Decimal(Unsigned(text)), IsNegative(text);
    DecodeIntegerText(text, scan);
    InRangeIsReadAsInteger(v, MaxMagnitude(negative));
    InRangeIsCanonical(negative, v);
  }

  lemma StoredCanonical(n: int)
    ensures Stored(CanonicalInteger(n)) == Some(n)
  {
  }

  /** The digits of 2^64 + 4, that is 18446744073709551620, are read as the integer 4. */
  lemma LastDigitOverflow(scan: DoubleScanner)
    ensures DecodeNumber(Digits(TWO_64 + 4), scan) == Number(Int(4))
  {
    DecimalOfDigits(TWO_64 + 4);
    DecodeIntegerText(Digits(TWO_64 + 4), scan);
  }

  /** decodeNumber inverts valueToString on every LargestInt and every LargestUInt. */
  lemma NumberRoundTrip(n: int, scan: DoubleScanner)
    ensures IsLargestInt(n) ==> DecodeNumber(IntText(n), scan) == Number(CanonicalInteger(n))
    ensures IsLargestUInt(n) ==> DecodeNumber(UIntText(n), scan) == Number(CanonicalInteger(n))
  {
    hide DecodeNumber, Digits, Decimal, DecodeDouble;
    if IsLargestInt(n) {
      IntTextIsSignAndMagnitude(n);
      DecodeNumberExact(IntText(n), scan);
    }
    if IsLargestUInt(n) {
      DecimalOfDigits(n);
      DecodeNumberExact(UIntText(n), scan);
    }
  }

  /** The ends of the ranges: 2^31 - 1 is the last number with the tag of a signed integer, 2^64 - 1
      and -2^63 are the last ones that are read exactly. */
  lemma Limits(scan: DoubleScanner)
    ensures DecodeNumber(Digits(2147483647), scan) == Number(Int(2147483647))
    ensures DecodeNumber(Digits(2147483648), scan) == Number(UInt(2147483648))
    ensures DecodeNumber(Digits(18446744073709551615), scan) == Number(UInt(18446744073709551615))
    ensures DecodeNumber("-" + Digits(9223372036854775808), scan) == Number(Int(-9223372036854775808))
  {
    hide DecodeNumber, Digits, Decimal;
    DigitsAreRead(2147483647, scan);
    DigitsAreRead(2147483648, scan);
    DigitsAreRead(18446744073709551615, scan);
    NumberRoundTrip(-9223372036854775808, scan);
  }

  lemma DigitsAreRead(n: nat, scan: DoubleScanner)
    requires n <= MAX_LARGEST_UINT
    ensures DecodeNumber(Digits(n), scan) == Number(CanonicalInteger(n))
  {
    hide DecodeNumber, Digits;
    NumberRoundTrip(n, scan);
  }
}
