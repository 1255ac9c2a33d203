/** Reading and printing of integers: Reader::decodeNumber and valueToString. */
module JsonNumber {
  import opened Wrappers
  import opened JsonValue
  import opened JsonText

  const TWO_TO_THE_64 := 0x1_0000_0000_0000_0000

  /** sizeof(UIntToStringBuffer): three times the eight bytes of LargestUInt, plus one. */
  const BUFFER_SIZE := 25

  // ---- decodeNumber ----

  /** An optional minus sign and nothing but digits after it. */
  predicate IsIntegerText(text: string) {
    AllDigits(if text != [] && text[0] == '-' then text[1..] else text)
  }

  function IntegerOf(text: string): int
    requires IsIntegerText(text)
  {
    if text != [] && text[0] == '-' then -(Decimal(text[1..]) as int) else Decimal(text)
  }

  lemma {:induction false} DecimalMonotone(s: string, k: nat)
    requires AllDigits(s) && k <= |s|
    ensures Decimal(s[..k]) <= Decimal(s)
    ensures k < |s| ==> 10 * Decimal(s[..k]) <= Decimal(s)
  {
    if k == |s| {
      assert s[..k] == s;
    } else {
      DecimalMonotone(s[..|s| - 1], k);
      assert s[..|s| - 1][..k] == s[..k];
    }
  }

  /** One more digit. */
  lemma DecimalSnoc(s: string, k: nat)
    requires AllDigits(s) && k < |s|
    ensures Decimal(s[..k + 1]) == Decimal(s[..k]) * 10 + (s[k] as int - '0' as int)
  {
    assert s[..k + 1][..k] == s[..k];
  }

  /** The test that sends a number to the double parser: all of it, last digit included, exceeds max. */
  lemma TooLarge(s: string, k: nat, max: nat)
    requires AllDigits(s) && k < |s| && max >= 10
    requires Decimal(s[..k]) >= max / 10
    requires Decimal(s[..k]) > max / 10 || k + 1 != |s| || s[k] as int - '0' as int > max % 10
    ensures Decimal(s) > max
  {
    DecimalSnoc(s, k);
    DecimalMonotone(s, k + 1);
    if k + 1 == |s| {
      assert s[..k + 1] == s;
    }
  }

  /** Decodes a number token.  Integer text within the 64-bit range gives exactly that integer, all
      other text goes to the double parser; None is the error "is not a number". */
  method DecodeNumber(text: string, toDouble: string -> Option<Double>) returns (r: Option<Value>)
    ensures IsIntegerText(text) && InRange(IntegerOf(text)) ==> r == Some(Number(IntegerOf(text)))
    ensures !(IsIntegerText(text) && InRange(IntegerOf(text))) ==> r == DecodeDouble(text, toDouble)
    ensures !(IsIntegerText(text) && -9223372036854775808 <= IntegerOf(text) <= 18446744073709551615) ==>
              (r.Some? <==> toDouble(text).Some?) && (r.Some? ==> r.value.Real? && toDouble(text).value == r.value.d)
    ensures IsIntegerText(text) && -9223372036854775808 <= IntegerOf(text) <= 18446744073709551615 ==>
              && r.Some? && (r.value.Int? <==> IntegerOf(text) <= 2147483647)
              && if r.value.Int? then r.value.i == IntegerOf(text) else r.value == UInt(IntegerOf(text))
  {
    var current := 0;
    var isNegative := text != [] && text[0] == '-';
    if isNegative {
      current := current + 1;
    }
    ghost var start := current;
    ghost var digits := text[start..];
    var maxIntegerValue := if isNegative then MAX_LARGEST_INT + 1 else MAX_LARGEST_UINT;
    var threshold := maxIntegerValue / 10;
    var value: nat := 0;
    while current < |text|
      invariant start <= current <= |text|
      invariant AllDigits(digits[..current - start]) && value == Decimal(digits[..current - start])
      invariant value <= maxIntegerValue
    {
      var c := text[current];
      current := current + 1;
      ghost var taken := current - start;
      assert c == digits[taken - 1] && digits[..taken] == digits[..taken - 1] + [c];
      if c < '0' || c > '9' {
        assert !AllDigits(digits);
        return DecodeDouble(text, toDouble);
      }
      var digit := c as int - '0' as int;
      if value >= threshold {
        if value > threshold || current != |text| || digit > maxIntegerValue % 10 {
          if AllDigits(digits) {
            TooLarge(digits, taken - 1, maxIntegerValue);
          }
          return DecodeDouble(text, toDouble);
        }
      }
      assert digits[..taken][..taken - 1] == digits[..taken - 1];
      assert value * 10 + digit < TWO_TO_THE_64;
      value := value * 10 + digit;
    }
    assert digits[..current - start] == digits;
    if isNegative && value == maxIntegerValue {
      r := Some(Int(MIN_LARGEST_INT));
    } else if isNegative {
      r := Some(Int(-(value as int)));
    } else if value <= MAX_INT {
      r := Some(Int(value));
    } else {
      r := Some(UInt(value));
    }
  }

  /** The double path; the parser itself is a parameter. */
  function DecodeDouble(text: string, toDouble: string -> Option<Double>): Option<Value> {
    match toDouble(text)
    case None => None
    case Some(d) => Some(Real(d))
  }

  // ---- valueToString ----

  lemma {:induction false} DecimalTextShort(n: nat, k: nat, bound: nat)
    requires n < bound && bound == Pow10(k) && k > 0
    ensures |DecimalText(n)| <= k
  {
    if n >= 10 {
      DecimalTextShort(n / 10, k - 1, bound / 10);
    }
  }

  function Pow10(k: nat): nat {
    if k == 0 then 1 else 10 * Pow10(k - 1)
  }

  lemma TwentyDigits()
    ensures Pow10(20) > MAX_LARGEST_UINT
  {
    assert Pow10(5) == 100000;
    assert Pow10(10) == 10000000000;
    assert Pow10(15) == 1000000000000000;
  }

  /** The digits still to be printed. */
  function Left(n: nat): string {
    if n == 0 then "" else DecimalText(n)
  }

  /** Prints value right to left into the buffer; the text starts at the index returned and ends at
      the NUL in the last place.  It never needs more than 21 places. */
  method UIntToString(value: nat, buffer: array<char>) returns (at: nat)
    requires value <= MAX_LARGEST_UINT && buffer.Length == BUFFER_SIZE
    modifies buffer
    ensures BUFFER_SIZE - 21 <= at < BUFFER_SIZE - 1
    ensures buffer[BUFFER_SIZE - 1] == '\0' && buffer[at..BUFFER_SIZE - 1] == DecimalText(value)
  {
    hide DecimalText;
    hide DigitChar;
    hide Left;
    TwentyDigits();
    DecimalTextShort(value, 20, Pow10(20));
    var last := BUFFER_SIZE - 1;
    buffer[last] := '\0';
    at := last - 1;
    buffer[at] := DigitChar(value % 10);
    var left: nat := value / 10;
    ghost var printed := [DigitChar(value % 10)];
    LastDigit(value);
    assert buffer[at..last] == printed;
    while left != 0
      invariant 0 <= at < last && buffer[last] == '\0'
      invariant buffer[at..last] == printed && DecimalText(value) == Left(left) + printed
    {
      LeftStep(left, printed);
      ghost var before := buffer[at..last];
      at := at - 1;
      buffer[at] := DigitChar(left % 10);
      assert buffer[at + 1..last] == before;
      printed := [DigitChar(left % 10)] + printed;
      assert buffer[at..last] == printed;
      left := left / 10;
    }
    NoneLeft(printed);
  }

  lemma LastDigit(n: nat)
    ensures DecimalText(n) == Left(n / 10) + [DigitChar(n % 10)]
  {
    hide DigitChar;
  }

  lemma LeftStep(n: nat, printed: string)
    requires n > 0
    ensures Left(n) + printed == Left(n / 10) + ([DigitChar(n % 10)] + printed) && |Left(n)| > 0
  {
    hide DigitChar;
    hide DecimalText;
    LastDigit(n);
  }

  lemma NoneLeft(printed: string)
    ensures Left(0) + printed == printed
  {
  }

  /** valueToString(LargestInt). */
  method IntToString(value: int) returns (s: string)
    requires MIN_LARGEST_INT <= value <= MAX_LARGEST_INT
    ensures s == IntegerText(value)
  {
    var buffer := new char[BUFFER_SIZE];
    var current;
    if value == MIN_LARGEST_INT {
      current := UIntToString(MAX_LARGEST_INT + 1, buffer);
    } else if value < 0 {
      current := UIntToString(-value, buffer);
    } else {
      current := UIntToString(value, buffer);
    }
    var last := BUFFER_SIZE - 1;
    ghost var digits := buffer[current..last];
    if value < 0 {
      current := current - 1;
      buffer[current] := '-';
      assert buffer[current..last] == "-" + digits;
    }
    s := buffer[current..last];
  }

  /** valueToString(LargestUInt). */
  method UIntToText(value: nat) returns (s: string)
    requires value <= MAX_LARGEST_UINT
    ensures s == IntegerText(value)
  {
    var buffer := new char[BUFFER_SIZE];
    var current := UIntToString(value, buffer);
    s := buffer[current..BUFFER_SIZE - 1];
  }

  lemma PrintedText(n: int)
    requires InRange(n)
    ensures var s := IntegerText(n); IsIntegerText(s) && IntegerOf(s) == n
  {
    var digits := DecimalText(if n < 0 then -n else n);
    DecimalTextExact(if n < 0 then -n else n);
    assert IsDigit(digits[0]);
    if n < 0 {
      assert ("-" + digits)[1..] == digits;
    } else {
      assert "" + digits == digits;
    }
  }

  /** Printing an integer and decoding it gives the integer back. */
  method PrintThenDecode(value: int, toDouble: string -> Option<Double>) returns (r: Option<Value>)
    requires InRange(value)
    ensures r == Some(Number(value))
  {
    var s;
    if value <= MAX_LARGEST_INT {
      s := IntToString(value);
    } else {
      s := UIntToText(value);
    }
    PrintedText(value);
    r := DecodeNumber(s, toDouble);
  }
}
