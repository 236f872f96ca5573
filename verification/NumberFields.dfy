// Numbers printed into a field, and what scanning makes of them: the padding in
// VSPRINTF_DECIMAL and VSPRINTF_HEXADECIMAL of src/common/stdio.c.
module NumberFields {
  import opened DecimalNumbers
  import opened HexNumbers

  // ----- The lowest bit of a number -----

  function LowBit(v: nat): (b: nat)
    requires v > 0
    ensures 0 < b <= v
  {
    if v % 2 == 1 then 1 else 2 * LowBit(v / 2)
  }

  lemma {:induction false} LowBitOdd(v: nat) returns (m: nat)
    requires v > 0
    ensures v == LowBit(v) * (2 * m + 1)
  {
    if v % 2 == 1 {
      m := v / 2;
    } else {
      m := LowBitOdd(v / 2);
      assert v == 2 * (LowBit(v / 2) * (2 * m + 1)) == LowBit(v) * (2 * m + 1);
    }
  }

  lemma {:induction false} LowBitDivides(v: nat, k: nat) returns (q: nat)
    requires 0 < v < TwoTo(k)
    ensures TwoTo(k) == 2 * LowBit(v) * q
  {
    if v % 2 == 1 {
      q := TwoTo(k - 1);
    } else {
      q := LowBitDivides(v / 2, k - 1);
      assert TwoTo(k) == 2 * (2 * LowBit(v / 2) * q) == 2 * LowBit(v) * q;
    }
  }

  function Times(k: int, d: int): int {
    k * d
  }

  ghost predicate MultipleOf(d: int, x: int) {
    exists k :: x == Times(k, d)
  }

  lemma SumOfMultiples(d: int, x: int, y: int, c: int)
    requires MultipleOf(d, x) && MultipleOf(d, y)
    ensures MultipleOf(d, x + c * y)
  {
    var j, k :| x == Times(j, d) && y == Times(k, d);
    assert x + c * y == Times(j + c * k, d);
  }

  /** Twice its lowest bit divides an even multiple of a number, but not the number. */
  lemma LowBitMultiples(v: int, c: int)
    requires v > 0
    ensures var d := 2 * LowBit(v); !MultipleOf(d, v) && !MultipleOf(d, -v) && MultipleOf(d, 2 * c * v)
  {
    var b := LowBit(v);
    var m := LowBitOdd(v);
    forall k ensures v != Times(k, 2 * b) && -v != Times(k, 2 * b) {
      OddIsNotEven(b, m, k);
      OddIsNotEven(b, m, -k);
      NegatedTimes(k, 2 * b);
    }
    EvenMultiple(b, m, c);
  }

  lemma NegatedTimes(k: int, d: int)
    ensures Times(-k, d) == -Times(k, d)
  {
  }

  lemma EvenMultiple(b: int, m: int, c: int)
    ensures MultipleOf(2 * b, 2 * c * (b * (2 * m + 1)))
  {
    assert 2 * c * (b * (2 * m + 1)) == Times(c * (2 * m + 1), 2 * b);
  }

  lemma OddIsNotEven(b: int, m: int, k: int)
    requires b > 0
    ensures b * (2 * m + 1) != Times(k, 2 * b)
  {
    var odd := 2 * m + 1 - 2 * k;
    assert b * (2 * m + 1) - Times(k, 2 * b) == odd * b;
    if odd * b == 0 {
      NoMultipleBetween(odd, b);
      assert false;
    }
  }

  // ----- Decimal numbers -----

  /** Wrapping around changes a number by a multiple of the modulus. */
  lemma WrapMultiple(x: int, w: Width, isSigned: bool, d: int)
    requires MultipleOf(d, Modulus(w))
    ensures MultipleOf(d, Wrap(x, w, isSigned) - x)
  {
    var m, y := Modulus(w), Wrap(x, w, isSigned);
    var j := if y == x % m then x / m else x / m + 1;
    assert y - x == 0 + (-j) * m;
    assert 0 == Times(0, d);
    SumOfMultiples(d, 0, m, -j);
  }

  lemma WrapKeepsMultiple(x: int, w: Width, isSigned: bool, d: int)
    requires MultipleOf(d, Modulus(w)) && MultipleOf(d, x)
    ensures MultipleOf(d, Wrap(x, w, isSigned))
  {
    WrapMultiple(x, w, isSigned, d);
    SumOfMultiples(d, x, Wrap(x, w, isSigned) - x, 1);
  }

  lemma Scaled(d: int, x: int, c: int)
    requires MultipleOf(d, x)
    ensures MultipleOf(d, c * x)
  {
    assert 0 == Times(0, d);
    SumOfMultiples(d, 0, x, c);
  }

  /** Zeros behind a number multiply it by ten. */
  lemma {:induction false} ZerosBehind(acc: int, n: nat, rest: string, w: Width, isSigned: bool, d: int)
    requires MultipleOf(d, Modulus(w)) && MultipleOf(d, 10 * acc) && n > 0 && Ends(rest)
    ensures MultipleOf(d, Accumulated(acc, Zeros(n) + rest, w, isSigned))
    decreases n
  {
    var s, next := Zeros(n) + rest, Wrap(acc * 10 + 0, w, isSigned);
    assert s[0] == '0' && s[1..] == Zeros(n - 1) + rest;
    WrapKeepsMultiple(10 * acc, w, isSigned, d);
    assert Accumulated(acc, s, w, isSigned) == Accumulated(next, s[1..], w, isSigned);
    if n == 1 {
      assert s[1..] == rest;
    } else {
      Scaled(d, next, 10);
      ZerosBehind(next, n - 1, rest, w, isSigned, d);
    }
  }

  lemma LowBitInModulus(w: Width, v: nat)
    requires 0 < v < Modulus(w)
    ensures MultipleOf(2 * LowBit(v), Modulus(w))
  {
    ModulusIsPower(w);
    LowBitInPower(v, Bits(w));
  }

  lemma LowBitInPower(v: nat, k: nat)
    requires 0 < v < TwoTo(k)
    ensures MultipleOf(2 * LowBit(v), TwoTo(k))
  {
    var q := LowBitDivides(v, k);
    assert TwoTo(k) == Times(q, 2 * LowBit(v));
  }

  lemma ReadZeros(n: nat, rest: string, w: Width, isSigned: bool)
    requires Ends(rest)
    ensures Accumulated(0, Zeros(n) + rest, w, isSigned) == 0 && DigitCount(Zeros(n) + rest) == n
  {
    ScanZeros(n, rest, w, isSigned);
  }

  /** The sign and the magnitude as they are printed without a field. */
  function Plain(rawValue: int, defaultSign: char, precision: int): string {
    Sign(rawValue, defaultSign) + Magnitude(Abs(rawValue), precision)
  }

  /** A field filled up with zeros in front is read like more precision. */
  lemma ZerosInFront(rawValue: int, w: Width, defaultSign: char, precision: int, n: nat, rest: string)
    requires InRange(rawValue, w, true) && defaultSign in ['\0', '+'] && Ends(rest) && n > 0
    ensures var text := Sign(rawValue, defaultSign) + Zeros(n) + Magnitude(Abs(rawValue), precision);
      ScannedSigned(text + rest, -1, w) == Scanned(true, rawValue, |text|)
  {
    var sign, m := Sign(rawValue, defaultSign), Magnitude(Abs(rawValue), precision);
    ScanMagnitude(Abs(rawValue), precision, rest, w, true);
    ScanZeros(n, m + rest, w, true);
    assert Zeros(n) + m + rest == Zeros(n) + (m + rest);
    SignedText(rawValue, w, defaultSign, Zeros(n) + m, rest);
    assert sign + (Zeros(n) + m) == sign + Zeros(n) + m;
  }

  /** A field filled up with zeros behind is read as another number, except zero. */
  lemma ZerosBehindNumber(rawValue: int, w: Width, defaultSign: char, precision: int, n: nat, rest: string)
    requires InRange(rawValue, w, true) && defaultSign in ['\0', '+'] && Ends(rest) && n > 0
    ensures var text := Plain(rawValue, defaultSign, precision) + Zeros(n);
      ScannedSigned(text + rest, -1, w) == Scanned(true, rawValue, |text|) <==> rawValue == 0
  {
    var sign, m := Sign(rawValue, defaultSign), Magnitude(Abs(rawValue), precision);
    var text := m + Zeros(n);
    assert Plain(rawValue, defaultSign, precision) + Zeros(n) == sign + text;
    MagnitudeStart(Abs(rawValue), precision);
    MagnitudeAndZeros(rawValue, w, precision, n, rest);
    if rawValue == 0 {
      ReadZeros(n, rest, w, true);
      SignedText(rawValue, w, defaultSign, text, rest);
    } else {
      NonzeroWithZeros(rawValue, w, sign, text, n, rest);
      assert sign + text + rest == sign + (text + rest);
    }
  }

  lemma MagnitudeAndZeros(rawValue: int, w: Width, precision: int, n: nat, rest: string)
    requires InRange(rawValue, w, true) && Ends(rest)
    ensures var v, text := Abs(rawValue), Magnitude(Abs(rawValue), precision) + Zeros(n);
      && Accumulated(0, text + rest, w, true) == Accumulated(Wrap(v, w, true), Zeros(n) + rest, w, true)
      && DigitCount(text + rest) == |text|
  {
    var m := Magnitude(Abs(rawValue), precision);
    assert m + Zeros(n) + rest == m + (Zeros(n) + rest);
    ScanMagnitude(Abs(rawValue), precision, Zeros(n) + rest, w, true);
    ReadZeros(n, rest, w, true);
  }

  lemma NonzeroWithZeros(rawValue: int, w: Width, sign: string, text: string, n: nat, rest: string)
    requires InRange(rawValue, w, true) && rawValue != 0 && Ends(rest) && n > 0
    requires (sign == "" || sign == "-" || sign == "+") && text != "" && IsDigit(text[0])
    requires Accumulated(0, text + rest, w, true) ==
             Accumulated(Wrap(Abs(rawValue), w, true), Zeros(n) + rest, w, true)
    ensures ScannedSigned(sign + (text + rest), -1, w).value != rawValue
  {
    var v, s := Abs(rawValue), text + rest;
    assert s[0] == text[0] && !HasSign(s);
    AbsInModulus(rawValue, w);
    var d := 2 * LowBit(v);
    OtherNumber(v, w, true, n, rest, d);
    ReadMultiple(sign, s, w, d, Accumulated(0, s, w, true));
    NotItself(v, ScannedSigned(sign + s, -1, w).value);
  }

  lemma NotItself(v: int, x: int)
    requires v > 0 && MultipleOf(2 * LowBit(v), x)
    ensures x != v && x != -v
  {
    LowBitMultiples(v, 5);
  }

  lemma AbsInModulus(rawValue: int, w: Width)
    requires InRange(rawValue, w, true) && rawValue != 0
    ensures 0 < Abs(rawValue) < Modulus(w)
  {
  }

  lemma OtherNumber(v: nat, w: Width, isSigned: bool, n: nat, rest: string, d: int)
    requires 0 < v < Modulus(w) && Ends(rest) && n > 0 && d == 2 * LowBit(v)
    ensures MultipleOf(d, Modulus(w))
    ensures MultipleOf(d, Accumulated(Wrap(v, w, isSigned), Zeros(n) + rest, w, isSigned))
  {
    var u := Wrap(v, w, isSigned);
    LowBitInModulus(w, v);
    LowBitMultiples(v, 5);
    WrapMultiple(v, w, isSigned, d);
    SumOfMultiples(d, 10 * v, u - v, 10);
    assert 10 * v + 10 * (u - v) == 10 * u;
    ZerosBehind(u, n, rest, w, isSigned, d);
  }

  lemma ReadMultiple(sign: string, s: string, w: Width, d: int, a: int)
    requires (sign == "" || sign == "-" || sign == "+") && (sign == "" ==> !HasSign(s))
    requires a == Accumulated(0, s, w, true) && MultipleOf(d, a) && MultipleOf(d, Modulus(w))
    ensures MultipleOf(d, ScannedSigned(sign + s, -1, w).value)
  {
    if sign == "" {
      assert sign + s == s;
    } else {
      assert (sign + s)[0] == sign[0] && (sign + s)[1..] == s;
      SignValue(sign[0], a);
      var c := ',' as int - sign[0] as int;
      Scaled(d, a, c);
      assert a * c == c * a;
      WrapKeepsMultiple(a * c, w, true, d);
    }
  }

  lemma SpacesBehind(rawValue: int, w: Width, defaultSign: char, precision: int, n: nat, rest: string)
    requires InRange(rawValue, w, true) && defaultSign in ['\0', '+'] && n > 0
    ensures var text := Plain(rawValue, defaultSign, precision) + Pads(n, ' ');
      ScannedSigned(text + rest, -1, w).consumed < |text|
  {
    var plain, tail := Plain(rawValue, defaultSign, precision), Pads(n, ' ') + rest;
    assert tail[0] == ' ';
    SignedRoundTrip(rawValue, w, defaultSign, precision, tail);
    assert plain + Pads(n, ' ') + rest == plain + tail;
  }

  lemma SpacesInFront(text: string, w: Width)
    requires text != "" && text[0] == ' '
    ensures ScannedSigned(text, -1, w).consumed == 0 && ScannedUnsigned(text, w).consumed == 0
  {
  }

  /** %d with any flags but the space, and any width and precision: the number is read
      back from its field, and the whole field is, exactly when nothing is padded, or
      when zeros are put in front, or behind a zero. */
  lemma FieldRoundTrip(rawValue: int, w: Width, defaultSign: char, precision: int,
                       width: int, adjustLeft: bool, padChar: char, rest: string)
    requires InRange(rawValue, w, true) && defaultSign in ['\0', '+'] && padChar in [' ', '0'] && Ends(rest)
    requires Plain(rawValue, defaultSign, precision) != "" || width > 0 || !HasSign(rest)
    ensures var sign, m := Sign(rawValue, defaultSign), Magnitude(Abs(rawValue), precision);
      var text := Field(sign, m, width, adjustLeft, padChar);
      ScannedSigned(text + rest, -1, w) == Scanned(true, rawValue, |text|) <==>
        width <= |sign + m| || (padChar == '0' && (!adjustLeft || rawValue == 0))
  {
    var sign, m := Sign(rawValue, defaultSign), Magnitude(Abs(rawValue), precision);
    var n := Missing(|sign + m|, width);
    var text := Field(sign, m, width, adjustLeft, padChar);
    if n == 0 {
      assert text == sign + m;
      SignedRoundTrip(rawValue, w, defaultSign, precision, rest);
    } else if adjustLeft {
      assert text == Plain(rawValue, defaultSign, precision) + Pads(n, padChar);
      if padChar == '0' {
        ZerosBehindNumber(rawValue, w, defaultSign, precision, n, rest);
      } else {
        SpacesBehind(rawValue, w, defaultSign, precision, n, rest);
      }
    } else if padChar == '0' {
      assert text == sign + Zeros(n) + m;
      ZerosInFront(rawValue, w, defaultSign, precision, n, rest);
    } else {
      assert text == Pads(n, ' ') + sign + m;
      SpacesInFront(text + rest, w);
    }
  }

  lemma UnsignedZerosBehind(value: nat, w: Width, precision: int, n: nat, rest: string)
    requires InRange(value, w, false) && Ends(rest) && n > 0
    ensures var text := Magnitude(value, precision) + Zeros(n);
      ScannedUnsigned(text + rest, w) == Scanned(true, value, |text|) <==> value == 0
  {
    var m := Magnitude(value, precision);
    assert m + Zeros(n) + rest == m + (Zeros(n) + rest);
    ScanMagnitude(value, precision, Zeros(n) + rest, w, false);
    ReadZeros(n, rest, w, false);
    if value > 0 {
      OtherNumber(value, w, false, n, rest, 2 * LowBit(value));
      NotItself(value, Accumulated(value, Zeros(n) + rest, w, false));
    }
  }

  lemma UnsignedSpacesBehind(value: nat, w: Width, precision: int, n: nat, rest: string)
    requires InRange(value, w, false) && n > 0
    ensures var text := Magnitude(value, precision) + Pads(n, ' ');
      ScannedUnsigned(text + rest, w).consumed < |text|
  {
    var m, tail := Magnitude(value, precision), Pads(n, ' ') + rest;
    assert tail[0] == ' ';
    UnsignedRoundTrip(value, w, precision, tail);
    assert m + Pads(n, ' ') + rest == m + tail;
  }

  lemma UnsignedZerosInFront(value: nat, w: Width, precision: int, n: nat, rest: string)
    requires InRange(value, w, false) && Ends(rest)
    ensures var text := Zeros(n) + Magnitude(value, precision);
      ScannedUnsigned(text + rest, w) == Scanned(true, value, |text|)
  {
    var m := Magnitude(value, precision);
    ScanMagnitude(value, precision, rest, w, false);
    ScanZeros(n, m + rest, w, false);
    assert Zeros(n) + m + rest == Zeros(n) + (m + rest);
  }

  lemma FieldWithoutSign(m: string, width: int, adjustLeft: bool, padChar: char)
    ensures var pad := Pads(Missing(|m|, width), padChar);
      Field("", m, width, adjustLeft, padChar) == if pad == "" then m else if adjustLeft then m + pad else pad + m
  {
    assert "" + m == m;
  }

  /** %u, in the same way. */
  lemma UnsignedFieldRoundTrip(value: nat, w: Width, precision: int,
                               width: int, adjustLeft: bool, padChar: char, rest: string)
    requires InRange(value, w, false) && padChar in [' ', '0'] && Ends(rest)
    ensures var m := Magnitude(value, precision);
      var text := Field("", m, width, adjustLeft, padChar);
      ScannedUnsigned(text + rest, w) == Scanned(true, value, |text|) <==>
        width <= |m| || (padChar == '0' && (!adjustLeft || value == 0))
  {
    var m := Magnitude(value, precision);
    FieldWithoutSign(m, width, adjustLeft, padChar);
    var n := Missing(|m|, width);
    if n == 0 {
      UnsignedRoundTrip(value, w, precision, rest);
    } else if padChar == ' ' {
      if adjustLeft {
        UnsignedSpacesBehind(value, w, precision, n, rest);
      } else {
        SpacesInFront(Pads(n, ' ') + m + rest, w);
      }
    } else if adjustLeft {
      UnsignedZerosBehind(value, w, precision, n, rest);
    } else {
      UnsignedZerosInFront(value, w, precision, n, rest);
    }
  }

  // ----- Hexadecimal numbers -----

  lemma OneHexZero(t: string, w: Width)
    ensures AccumulatedHex(0, ['0'] + t, w) == AccumulatedHex(0, t, w) && HexCount(['0'] + t) == 1 + HexCount(t)
  {
    assert (['0'] + t)[0] == '0' && (['0'] + t)[1..] == t;
  }

  lemma {:induction false} HexZeros(n: nat, t: string, w: Width)
    ensures AccumulatedHex(0, Zeros(n) + t, w) == AccumulatedHex(0, t, w)
    ensures HexCount(Zeros(n) + t) == n + HexCount(t)
  {
    if n == 0 {
      assert Zeros(0) + t == t;
    } else {
      HexZeros(n - 1, t, w);
      OneHexZero(Zeros(n - 1) + t, w);
      assert Zeros(n) + t == ['0'] + (Zeros(n - 1) + t);
    }
  }

  /** Zeros behind a number multiply it by sixteen. */
  lemma {:induction false} HexZerosBehind(acc: nat, n: nat, rest: string, w: Width, d: int)
    requires MultipleOf(d, Modulus(w)) && MultipleOf(d, 16 * acc) && n > 0 && HexEnds(rest)
    ensures MultipleOf(d, AccumulatedHex(acc, Zeros(n) + rest, w))
    decreases n
  {
    var s, next := Zeros(n) + rest, (acc * 16 + 0) % Modulus(w);
    assert s[0] == '0' && s[1..] == Zeros(n - 1) + rest;
    assert next == Wrap(16 * acc, w, false);
    WrapKeepsMultiple(16 * acc, w, false, d);
    assert AccumulatedHex(acc, s, w) == AccumulatedHex(next, s[1..], w);
    if n == 1 {
      assert s[1..] == rest;
    } else {
      Scaled(d, next, 16);
      HexZerosBehind(next, n - 1, rest, w, d);
    }
  }

  lemma OtherHexNumber(value: nat, n: nat, rest: string, w: Width)
    requires 0 < value < Modulus(w) && n > 0 && HexEnds(rest)
    ensures AccumulatedHex(value, Zeros(n) + rest, w) != value
  {
    var d := 2 * LowBit(value);
    LowBitInModulus(w, value);
    LowBitMultiples(value, 8);
    HexZerosBehind(value, n, rest, w, d);
    NotItself(value, AccumulatedHex(value, Zeros(n) + rest, w));
  }

  /** What VSPRINTF_HEXADECIMAL prints for a value, apart from the field. */
  predicate IsPrinted(t: HexText, value: nat, w: Width) {
    && value < Modulus(w)
    && (t.prefix == "" || (value > 0 && (t.prefix == "0x" || t.prefix == "0X")))
    && (forall c | c in t.digits :: IsHexDigit(c))
    && AccumulatedHex(0, t.digits, w) == value
    && (value > 0 ==> t.digits != "")
  }

  lemma PrintedIsRead(value: nat, w: Width, specifier: char, alternate: bool, precision: int, f: Shifts)
    requires specifier in ['x', 'X'] && value < Modulus(w) && Shifted(f, value, w)
    ensures IsPrinted(Printed(value, w, specifier, alternate, precision, f), value, w)
  {
    var t := Printed(value, w, specifier, alternate, precision, f);
    if value != 0 { DigitWidthIsExact(value, w); }
    AllHexDigits(f, |t.digits|, specifier);
    DigitsAreRead(value, w, specifier, alternate, precision, f, "");
    assert t.digits + "" == t.digits;
  }

  /** Digits that stand for the value, without a prefix. */
  lemma BareDigits(digits: string, value: nat, scanWidth: int, w: Width, rest: string)
    requires scanWidth == -1 || scanWidth > 0
    requires (forall c | c in digits :: IsHexDigit(c)) && AccumulatedHex(0, digits, w) == value
    ensures ScannedHex(digits + rest, scanWidth, w) == Scanned(true, value, |digits|) <==>
            ReadsBack(HexText("", digits), scanWidth, rest)
  {
    var t := HexText("", digits);
    assert Whole(t) == digits;
    ScanInParts(0, digits, rest, w);
    if HexEnds(rest) {
      OtherStops(value, rest, w);
      ReadBackOrNot(t, scanWidth, w, value, rest);
    } else {
      TooMuchIsRead(t, scanWidth, w, rest);
    }
  }

  lemma HexZerosInFront(t: HexText, value: nat, n: nat, scanWidth: int, w: Width, rest: string)
    requires IsPrinted(t, value, w) && n > 0 && (scanWidth == -1 || scanWidth > 0)
    ensures var text := Zeros(n) + Whole(t);
      ScannedHex(text + rest, scanWidth, w) == Scanned(true, value, |text|) <==>
        t.prefix == "" && ReadsBack(HexText("", text), scanWidth, rest)
  {
    if t.prefix == "" {
      assert Whole(t) == t.digits;
      HexZeros(n, t.digits, w);
      BareDigits(Zeros(n) + t.digits, value, scanWidth, w, rest);
    } else {
      ZerosBeforePrefix(t, n, scanWidth, w, rest);
    }
  }

  /** Reading stops at the x behind the zeros. */
  lemma ZerosBeforePrefix(t: HexText, n: nat, scanWidth: int, w: Width, rest: string)
    requires (t.prefix == "0x" || t.prefix == "0X") && n > 0
    ensures ScannedHex(Zeros(n) + Whole(t) + rest, scanWidth, w).value == 0
  {
    var s, tail := Zeros(n) + Whole(t) + rest, t.prefix[1..] + t.digits + rest;
    assert s == Zeros(n + 1) + tail;
    assert s[0] == '0' && s[1] == '0' && s[0..] == s && s[1..] == Zeros(n) + tail;
    HexZeros(n + 1, tail, w);
    HexZeros(n, tail, w);
    OtherStops(0, tail, w);
  }

  lemma HexZerosBehindZero(t: HexText, n: nat, scanWidth: int, w: Width, rest: string)
    requires IsPrinted(t, 0, w) && (scanWidth == -1 || scanWidth > 0)
    ensures var text := Whole(t) + Zeros(n);
      ScannedHex(text + rest, scanWidth, w) == Scanned(true, 0, |text|) <==>
        ReadsBack(HexText("", text), scanWidth, rest)
  {
    var text := Whole(t) + Zeros(n);
    assert Whole(t) == t.digits;
    ScanInParts(0, t.digits, Zeros(n), w);
    HexZeros(n, "", w);
    assert Zeros(n) + "" == Zeros(n);
    assert AccumulatedHex(0, text, w) == 0;
    BareDigits(text, 0, scanWidth, w, rest);
  }

  lemma HexZerosBehindNumber(t: HexText, value: nat, n: nat, scanWidth: int, w: Width, rest: string)
    requires IsPrinted(t, value, w) && value > 0 && n > 0 && (scanWidth == -1 || scanWidth > 0)
    ensures var text := Whole(t) + Zeros(n);
      ScannedHex(text + rest, scanWidth, w) != Scanned(true, value, |text|)
  {
    var digits := t.digits + Zeros(n);
    var t' := HexText(t.prefix, digits);
    assert Whole(t') == Whole(t) + Zeros(n);
    assert digits + rest == t.digits + (Zeros(n) + rest);
    ScanInParts(0, t.digits, Zeros(n) + rest, w);
    HexZeros(n, rest, w);
    if HexEnds(rest) {
      OtherStops(0, rest, w);
      OtherHexNumber(value, n, rest, w);
      ReadsOther(t', value, scanWidth, w, rest);
    } else {
      TooMuchIsRead(t', scanWidth, w, rest);
    }
  }

  lemma ReadsOther(t: HexText, value: nat, scanWidth: int, w: Width, rest: string)
    requires t.prefix == "" || t.prefix == "0x" || t.prefix == "0X"
    requires (forall c | c in t.digits :: IsHexDigit(c)) && |t.digits| > 1
    requires HexEnds(rest) && (scanWidth == -1 || scanWidth > 0) && value > 0
    requires HexCount(t.digits + rest) == |t.digits| && AccumulatedHex(0, t.digits + rest, w) != value
    ensures ScannedHex(Whole(t) + rest, scanWidth, w).value != value
  {
    if t.prefix == "" {
      assert Whole(t) == t.digits;
      WithoutPrefix(t.digits, scanWidth, w, rest);
    } else if 0 < scanWidth <= 2 {
      NarrowStops(t, scanWidth, w, rest);
    } else {
      PrefixSkipped(t, scanWidth, w, AccumulatedHex(0, t.digits + rest, w), rest);
    }
  }

  lemma HexSpacesBehind(t: HexText, value: nat, n: nat, scanWidth: int, w: Width, rest: string)
    requires IsPrinted(t, value, w) && n > 0 && (scanWidth == -1 || scanWidth > 0)
    ensures ScannedHex(Whole(t) + Pads(n, ' ') + rest, scanWidth, w).consumed < |Whole(t)| + n
  {
    var tail := Pads(n, ' ') + rest;
    assert tail[0] == ' ' && Whole(t) + Pads(n, ' ') + rest == Whole(t) + tail;
    ScanInParts(0, t.digits, tail, w);
    OtherStops(value, tail, w);
    if t.prefix != "" && 0 < scanWidth <= 2 {
      NarrowStops(t, scanWidth, w, tail);
    } else {
      ReadBackOrNot(t, scanWidth, w, value, tail);
    }
  }

  lemma HexSpacesInFront(s: string, scanWidth: int, w: Width)
    requires s != "" && s[0] == ' '
    ensures ScannedHex(s, scanWidth, w).consumed == 0
  {
    assert s[0..] == s;
  }

  /** %x and %#x, with any flags, width and precision: padding ruins what is read except
      for zeros in front of a number without a prefix, and behind a zero. In particular
      %#010x puts the zeros before the 0x, so that scanning gives zero. */
  lemma HexFieldRoundTrip(value: nat, w: Width, specifier: char, alternate: bool, precision: int, f: Shifts,
                          width: int, adjustLeft: bool, padChar: char, scanWidth: int, rest: string)
    requires specifier in ['x', 'X'] && value < Modulus(w) && Shifted(f, value, w)
    requires padChar in [' ', '0'] && (scanWidth == -1 || scanWidth > 0)
    ensures var t := Printed(value, w, specifier, alternate, precision, f);
      var text := HexField(t, width, adjustLeft, padChar);
      ScannedHex(text + rest, scanWidth, w) == Scanned(true, value, |text|) <==>
        if width <= |Whole(t)| then ReadsBack(t, scanWidth, rest)
        else && padChar == '0' && (if adjustLeft then value == 0 else t.prefix == "")
             && ReadsBack(HexText("", text), scanWidth, rest)
  {
    var t := Printed(value, w, specifier, alternate, precision, f);
    var n := Missing(|Whole(t)|, width);
    PrintedIsRead(value, w, specifier, alternate, precision, f);
    if n == 0 {
      assert HexField(t, width, adjustLeft, padChar) == Whole(t);
      HexRoundTrip(value, w, specifier, alternate, precision, f, scanWidth, rest);
    } else if padChar == ' ' {
      if adjustLeft {
        HexSpacesBehind(t, value, n, scanWidth, w, rest);
      } else {
        HexSpacesInFront(Pads(n, ' ') + Whole(t) + rest, scanWidth, w);
      }
    } else if adjustLeft {
      if value == 0 {
        HexZerosBehindZero(t, n, scanWidth, w, rest);
      } else {
        HexZerosBehindNumber(t, value, n, scanWidth, w, rest);
      }
    } else {
      HexZerosInFront(t, value, n, scanWidth, w, rest);
    }
  }
}
