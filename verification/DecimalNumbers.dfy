// Printing and scanning decimal numbers: VSPRINTF_DECIMAL, VSSCANF_DECIMAL and the
// cases d and u of vsprintf and _vsscanf in src/common/stdio.c.
module DecimalNumbers {

  /** The integral types: 16 bits with the modifier h, 64 bits with L, 32 bits otherwise. */
  datatype Width = W16 | W32 | W64

  function Modulus(w: Width): nat {
    match w
    case W16 => 0x1_0000
    case W32 => 0x1_0000_0000
    case W64 => 0x1_0000_0000_0000_0000
  }

  predicate InRange(v: int, w: Width, isSigned: bool) {
    var m := Modulus(w);
    if isSigned then -(m / 2) <= v < m / 2 else 0 <= v < m
  }

  /** Arithmetic in an integral type wraps around. */
  function Wrap(v: int, w: Width, isSigned: bool): (r: int)
    ensures InRange(r, w, isSigned)
    ensures InRange(v, w, isSigned) ==> r == v
  {
    var r := v % Modulus(w);
    if isSigned && r >= Modulus(w) / 2 then r - Modulus(w) else r
  }

  predicate IsDigit(c: char) {
    '0' <= c <= '9'
  }

  function DigitChar(d: nat): (c: char)
    requires d < 10
    ensures IsDigit(c) && DigitValue(c) == d
  {
    ('0' as int + d) as char
  }

  function DigitValue(c: char): nat
    requires IsDigit(c)
  {
    c as int - '0' as int
  }

  /** The digits in their order. */
  lemma DigitsInOrder(d: nat)
    requires d < 10
    ensures DigitChar(d) == "0123456789"[d]
  {
  }

  // ----- Printing -----

  function Digits(v: nat): string {
    (if v < 10 then "" else Digits(v / 10)) + [DigitChar(v % 10)]
  }

  function Pads(n: nat, padChar: char): string {
    seq(n, _ => padChar)
  }

  function Zeros(n: nat): string {
    Pads(n, '0')
  }

  /** Neither digits nor padding when both precision and value are zero; a negative
      precision stands for none. */
  function Magnitude(value: nat, precision: int): string {
    var digits := if precision != 0 || value != 0 then Digits(value) else "";
    Zeros(if |digits| < precision then precision - |digits| else 0) + digits
  }

  /** The sign to print for a signed number, where NUL stands for none. */
  function Sign(rawValue: int, defaultSign: char): string {
    SignText(if rawValue < 0 then '-' else defaultSign)
  }

  function SignText(signChar: char): string {
    if signChar == '\0' then "" else [signChar]
  }

  /** How many characters a text lacks to fill a field; the width may be negative. */
  function Missing(n: nat, width: int): nat {
    if n < width then width - n else 0
  }

  /** What comes before the digits: zeros go behind the sign, spaces in front of it. */
  function Lead(sign: string, pad: string, adjustLeft: bool, padChar: char): string {
    if adjustLeft then sign else if padChar == '0' then sign + pad else pad + sign
  }

  /** The number in its field; a field adjusted to the left is filled from behind, also
      with zeros. */
  function Field(sign: string, magnitude: string, width: int, adjustLeft: bool, padChar: char): string {
    var pad := Pads(Missing(|sign + magnitude|, width), padChar);
    Lead(sign, pad, adjustLeft, padChar) + magnitude + if adjustLeft then pad else ""
  }

  function Abs(v: int): nat {
    if v < 0 then -v else v
  }

  function PowerOfTen(n: nat): nat {
    if n == 0 then 1 else 10 * PowerOfTen(n - 1)
  }

  /** MAX_INTEGER_64_DECIMAL_WIDTH digits are enough for 64 bits, one less is not. */
  lemma TwentyDigits()
    ensures PowerOfTen(19) < Modulus(W64) <= PowerOfTen(20)
  {
    assert PowerOfTen(5) == 10_0000;
    assert PowerOfTen(10) == 100_0000_0000;
    assert PowerOfTen(15) == 1000_0000_0000_0000;
    assert PowerOfTen(19) == 1000_0000_0000_0000_0000;
  }

  lemma LastDigit(v: nat, t: string)
    ensures var rest := [DigitChar(v % 10)] + t;
      Digits(v) + t == (if v / 10 == 0 then rest else Digits(v / 10) + rest)
    ensures |Digits(v)| == 1 + if v / 10 == 0 then 0 else |Digits(v / 10)|
  {
    var last := [DigitChar(v % 10)];
    assert v < 10 <==> v / 10 == 0;
    if v < 10 {
      assert Digits(v) == last;
    } else {
      assert Digits(v) == Digits(v / 10) + last;
      assert Digits(v / 10) + last + t == Digits(v / 10) + (last + t);
    }
  }

  /** The digits of the value are put into a buffer from its end. */
  method FillBuffer(buffer: array<char>, value: nat) returns (bufferIndex: nat)
    requires buffer.Length == 20 && value < Modulus(W64)
    modifies buffer
    ensures bufferIndex < 20 && buffer[bufferIndex..] == Digits(value)
  {
    TwentyDigits();
    bufferIndex := 20;
    var v: nat := value;
    while true
      invariant bufferIndex <= 20 && v < PowerOfTen(bufferIndex) && (v > 0 || bufferIndex == 20)
      invariant Digits(v) + buffer[bufferIndex..] == Digits(value)
      decreases bufferIndex
    {
      bufferIndex := bufferIndex - 1;
      buffer[bufferIndex] := DigitChar(v % 10);
      assert buffer[bufferIndex..] == [DigitChar(v % 10)] + buffer[bufferIndex + 1..];
      LastDigit(v, buffer[bufferIndex + 1..]);
      v := v / 10;
      if v == 0 {
        return;
      }
    }
  }

  // ----- What is printed, read as a number -----

  /** The number that digits stand for. */
  function NumberOf(digits: string): nat
    requires forall c | c in digits :: IsDigit(c)
  {
    if digits == "" then 0 else 10 * NumberOf(digits[..|digits| - 1]) + DigitValue(digits[|digits| - 1])
  }

  /** n digits are enough for the value, and one less is not. */
  predicate IsLeast(n: nat, value: nat) {
    if n == 0 then value == 0 else value < PowerOfTen(n) && (n == 1 || PowerOfTen(n - 1) <= value)
  }

  /** The digits of the value: as many as it needs, one for zero unless the precision is
      zero, and no fewer than the precision says. */
  ghost predicate ShowsDigits(digits: string, value: nat, precision: int) {
    && (forall c | c in digits :: IsDigit(c)) && NumberOf(digits) == value
    && exists n: nat :: IsLeast(n, value) && (n == 0 <==> value == 0 && precision == 0)
         && |digits| == if n < precision then precision else n
  }

  /** The text stands at one end of a field of this width, and the rest is padding. */
  predicate InField(s: string, text: string, width: int, adjustLeft: bool, padChar: char) {
    && |s| == (if |text| < width then width else |text|)
    && (if adjustLeft then s[..|text|] == text && forall k | |text| <= k < |s| :: s[k] == padChar
        else s[|s| - |text|..] == text && forall k | 0 <= k < |s| - |text| :: s[k] == padChar)
  }

  /** A minus stands for negative numbers only, and the default sign, if there is one, for
      all others; no sign for an unsigned type. */
  predicate IsSign(sign: string, rawValue: int, isSigned: bool, defaultSign: char) {
    if isSigned && rawValue < 0 then sign == "-"
    else if isSigned && defaultSign != '\0' then sign == [defaultSign]
    else sign == ""
  }

  /** Zeros in front of a number go between its sign and its digits. */
  predicate IsLaidOut(s: string, sign: string, digits: string, width: int, adjustLeft: bool, padChar: char) {
    if padChar == '0' && !adjustLeft then
      && |s| >= |sign| && s[..|sign|] == sign
      && InField(s[|sign|..], digits, width - |sign|, adjustLeft, padChar)
    else InField(s, sign + digits, width, adjustLeft, padChar)
  }

  ghost predicate ShowsDecimal(s: string, rawValue: int, isSigned: bool, defaultSign: char, precision: int,
                               width: int, adjustLeft: bool, padChar: char)
  {
    exists sign, digits ::
      && IsSign(sign, rawValue, isSigned, defaultSign) && ShowsDigits(digits, Abs(rawValue), precision)
      && IsLaidOut(s, sign, digits, width, adjustLeft, padChar)
  }

  lemma {:induction false} DigitsMean(v: nat)
    ensures forall c | c in Digits(v) :: IsDigit(c)
    ensures NumberOf(Digits(v)) == v && IsLeast(|Digits(v)|, v) && |Digits(v)| > 0
  {
    var last := DigitChar(v % 10);
    if v < 10 {
      assert Digits(v) == [last] && [last][..0] == "";
    } else {
      DigitsMean(v / 10);
      var s := Digits(v);
      assert s == Digits(v / 10) + [last];
      assert s[..|s| - 1] == Digits(v / 10);
    }
  }

  lemma {:induction false} ZerosInFrontOf(n: nat, digits: string)
    requires forall c | c in digits :: IsDigit(c)
    ensures forall c | c in Zeros(n) + digits :: IsDigit(c)
    ensures NumberOf(Zeros(n) + digits) == NumberOf(digits)
    decreases |digits|, n
  {
    var s := Zeros(n) + digits;
    if digits != "" {
      assert s[..|s| - 1] == Zeros(n) + digits[..|digits| - 1];
      ZerosInFrontOf(n, digits[..|digits| - 1]);
    } else if n > 0 {
      assert s[..|s| - 1] == Zeros(n - 1) + digits;
      ZerosInFrontOf(n - 1, digits);
    }
  }

  lemma PaddedShows(digits: string, value: nat, precision: int)
    requires forall c | c in digits :: IsDigit(c)
    requires NumberOf(digits) == value && IsLeast(|digits|, value) && (digits == "" <==> value == 0 && precision == 0)
    ensures ShowsDigits(Zeros(if |digits| < precision then precision - |digits| else 0) + digits, value, precision)
  {
    hide NumberOf, IsLeast, IsDigit;
    ZerosInFrontOf(if |digits| < precision then precision - |digits| else 0, digits);
  }

  lemma MagnitudeShows(value: nat, precision: int)
    ensures ShowsDigits(Magnitude(value, precision), value, precision)
  {
    hide Digits, IsDigit, ShowsDigits, PowerOfTen;
    DigitsMean(value);
    PaddedShows(if precision != 0 || value != 0 then Digits(value) else "", value, precision);
  }

  lemma FieldShows(rawValue: int, isSigned: bool, defaultSign: char, precision: int,
                   width: int, adjustLeft: bool, padChar: char)
    ensures ShowsDecimal(Field(if isSigned then Sign(rawValue, defaultSign) else "", Magnitude(Abs(rawValue), precision),
                               width, adjustLeft, padChar),
                         rawValue, isSigned, defaultSign, precision, width, adjustLeft, padChar)
  {
    hide Sign, Magnitude, Field, ShowsDigits, IsLaidOut, IsSign;
    var sign, digits := if isSigned then Sign(rawValue, defaultSign) else "", Magnitude(Abs(rawValue), precision);
    MagnitudeShows(Abs(rawValue), precision);
    SignIsSign(rawValue, isSigned, defaultSign);
    FieldIsLaidOut(sign, digits, width, adjustLeft, padChar);
  }

  lemma SignIsSign(rawValue: int, isSigned: bool, defaultSign: char)
    ensures IsSign(if isSigned then Sign(rawValue, defaultSign) else "", rawValue, isSigned, defaultSign)
  {
  }

  lemma FieldIsLaidOut(sign: string, digits: string, width: int, adjustLeft: bool, padChar: char)
    ensures IsLaidOut(Field(sign, digits, width, adjustLeft, padChar), sign, digits, width, adjustLeft, padChar)
  {
    var s, pad := Field(sign, digits, width, adjustLeft, padChar), Pads(Missing(|sign + digits|, width), padChar);
    if adjustLeft {
      assert s == (sign + digits) + pad;
    } else if padChar == '0' {
      assert s == sign + (pad + digits);
      assert s[|sign|..] == pad + digits;
    } else {
      assert s == pad + (sign + digits);
    }
  }

  lemma AbsFits(rawValue: int, w: Width, isSigned: bool)
    requires InRange(rawValue, w, isSigned)
    ensures Abs(rawValue) < Modulus(W64)
  {
  }

  /** VSPRINTF_DECIMAL. */
  method PrintDecimal(rawValue: int, w: Width, isSigned: bool, defaultSign: char, precision: int,
                      width: int, adjustLeft: bool, padChar: char) returns (s: string)
    requires InRange(rawValue, w, isSigned)
    ensures s == Field(if isSigned then Sign(rawValue, defaultSign) else "", Magnitude(Abs(rawValue), precision),
                       width, adjustLeft, padChar)
    ensures ShowsDecimal(s, rawValue, isSigned, defaultSign, precision, width, adjustLeft, padChar)
  {
    FieldShows(rawValue, isSigned, defaultSign, precision, width, adjustLeft, padChar);
    var value := Abs(rawValue);
    var signChar := if !isSigned then '\0' else if rawValue < 0 then '-' else defaultSign;
    var buffer := new char[20];
    var bufferIndex := 20;
    AbsFits(rawValue, w, isSigned);
    if precision != 0 || value != 0 {
      bufferIndex := FillBuffer(buffer, value);
    }
    assert buffer[bufferIndex..] == if precision != 0 || value != 0 then Digits(value) else "";
    var digitWidth := 20 - bufferIndex;
    var precisionPadding := if digitWidth < precision then precision - digitWidth else 0;
    assert Zeros(precisionPadding) + buffer[bufferIndex..] == Magnitude(value, precision);
    s := PrintField(signChar, buffer, bufferIndex, precisionPadding, width, adjustLeft, padChar);
  }

  /** The part of VSPRINTF_DECIMAL that prints. */
  method PrintField(signChar: char, buffer: array<char>, bufferIndex: nat, precisionPadding: nat,
                    width: int, adjustLeft: bool, padChar: char) returns (s: string)
    requires buffer.Length == 20 && bufferIndex <= 20
    ensures s == Field(SignText(signChar), Zeros(precisionPadding) + buffer[bufferIndex..], width, adjustLeft, padChar)
  {
    ghost var magnitude := Zeros(precisionPadding) + buffer[bufferIndex..];
    var innerWidth := 20 - bufferIndex + precisionPadding + if signChar != '\0' then 1 else 0;
    assert innerWidth == |SignText(signChar) + magnitude|;
    s, innerWidth := PrintLead(signChar, innerWidth, width, adjustLeft, padChar);
    ghost var lead := s;
    s := PadWithZeros(s, precisionPadding);
    s := CopyDigits(s, buffer, bufferIndex);
    assert s == lead + magnitude;
    s, innerWidth := PadToWidth(s, innerWidth, width, padChar);
    assert !adjustLeft ==> s == lead + magnitude;
  }

  /** The sign, and the padding in front. */
  method PrintLead(signChar: char, innerWidth: nat, width: int, adjustLeft: bool, padChar: char)
    returns (s: string, newWidth: nat)
    ensures s == Lead(SignText(signChar), Pads(Missing(innerWidth, width), padChar), adjustLeft, padChar)
    ensures newWidth == innerWidth + if adjustLeft then 0 else Missing(innerWidth, width)
  {
    var signChar := signChar;
    s, newWidth := "", innerWidth;
    if padChar == '0' && signChar != '\0' {
      s := s + [signChar];
      signChar := '\0';
    }
    if !adjustLeft {
      s, newWidth := PadToWidth(s, newWidth, width, padChar);
    }
    if signChar != '\0' {
      s := s + [signChar];
    }
  }

  method PadToWidth(s: string, innerWidth: nat, width: int, padChar: char) returns (r: string, newWidth: nat)
    ensures r == s + Pads(Missing(innerWidth, width), padChar)
    ensures newWidth == innerWidth + Missing(innerWidth, width)
  {
    r, newWidth := s, innerWidth;
    while newWidth < width
      invariant innerWidth <= newWidth <= innerWidth + Missing(innerWidth, width)
      invariant r == s + Pads(newWidth - innerWidth, padChar)
    {
      r := r + [padChar];
      newWidth := newWidth + 1;
    }
  }

  method PadWithZeros(s: string, precisionPadding: nat) returns (r: string)
    ensures r == s + Zeros(precisionPadding)
  {
    r := s;
    var left := precisionPadding;
    while left > 0
      invariant 0 <= left <= precisionPadding && r == s + Zeros(precisionPadding - left)
    {
      r := r + ['0'];
      left := left - 1;
    }
  }

  method CopyDigits(s: string, buffer: array<char>, start: nat) returns (r: string)
    requires buffer.Length == 20 && start <= 20
    ensures r == s + buffer[start..]
  {
    r := s;
    var bufferIndex := start;
    while bufferIndex < 20
      invariant start <= bufferIndex <= 20 && r == s + buffer[start..bufferIndex]
    {
      r := r + [buffer[bufferIndex]];
      bufferIndex := bufferIndex + 1;
    }
  }

  // ----- Scanning -----

  /** What a conversion gives: whether an item was converted, its value, and the number
      of characters consumed. */
  datatype Scanned = Scanned(converted: bool, value: int, consumed: nat)

  /** The loop of VSSCANF_DECIMAL. */
  function Accumulated(acc: int, s: string, w: Width, isSigned: bool): (r: int)
    ensures InRange(acc, w, isSigned) ==> InRange(r, w, isSigned)
    decreases |s|
  {
    if s == "" || !IsDigit(s[0]) then acc
    else Accumulated(Wrap(acc * 10 + DigitValue(s[0]), w, isSigned), s[1..], w, isSigned)
  }

  /** No step of this loop leaves the type. */
  predicate NeverWraps(acc: int, s: string, w: Width, isSigned: bool)
    decreases |s|
  {
    s != "" && IsDigit(s[0]) ==>
      var next := acc * 10 + DigitValue(s[0]);
      InRange(next, w, isSigned) && NeverWraps(next, s[1..], w, isSigned)
  }

  function DigitCount(s: string): (n: nat)
    ensures n <= |s|
  {
    if s == "" || !IsDigit(s[0]) then 0 else 1 + DigitCount(s[1..])
  }

  predicate HasSign(s: string) {
    s != "" && (s[0] == '+' || s[0] == '-')
  }

  /** Case d. The default width is 20; a sign takes one from it, but the digits do not. */
  function ScannedSigned(s: string, width: int, w: Width): Scanned
    requires width == -1 || width > 0
  {
    if HasSign(s) then
      if width == 1 then Scanned(false, 0, 1)
      else
        var sign := ',' as int - s[0] as int;
        Scanned(true, Wrap(Accumulated(0, s[1..], w, true) * sign, w, true), 1 + DigitCount(s[1..]))
    else Scanned(true, Accumulated(0, s, w, true), DigitCount(s))
  }

  /** Case u. */
  function ScannedUnsigned(s: string, w: Width): Scanned {
    Scanned(true, Accumulated(0, s, w, false), DigitCount(s))
  }

  method ScanDigits(s: string, start: nat, width: int, w: Width, isSigned: bool) returns (value: int, i: nat)
    requires start <= |s| && width > 0
    ensures value == Accumulated(0, s[start..], w, isSigned) && i == start + DigitCount(s[start..])
  {
    value, i := 0, start;
    while width > 0 && i < |s| && IsDigit(s[i])
      invariant start <= i <= |s|
      invariant Accumulated(value, s[i..], w, isSigned) == Accumulated(0, s[start..], w, isSigned)
      invariant i + DigitCount(s[i..]) == start + DigitCount(s[start..])
    {
      value := Wrap(value * 10 + DigitValue(s[i]), w, isSigned);
      assert s[i..][1..] == s[i + 1..];
      i := i + 1;
    }
  }

  /** The cases d and u of _vsscanf. */
  method ScanDecimal(s: string, width: int, w: Width, isSigned: bool) returns (r: Scanned)
    requires width == -1 || width > 0
    ensures r == if isSigned then ScannedSigned(s, width, w) else ScannedUnsigned(s, w)
  {
    var width := if width < 0 then 20 else width;
    var sign, i := 1, 0;
    if isSigned && s != "" && (s[0] == '+' || s[0] == '-') {
      sign := ',' as int - s[0] as int;
      i := 1;
      width := width - 1;
      if width == 0 {
        return Scanned(false, 0, 1);
      }
    }
    assert s[0..] == s;
    var value, n := ScanDigits(s, i, width, w, isSigned);
    if isSigned {
      value := Wrap(value * sign, w, true);
    }
    r := Scanned(true, value, n);
  }

  // ----- Digits beyond the width -----

  /** s has digits from one position up to and including another. */
  predicate DigitsThrough(s: string, from: nat, to: nat) {
    to < |s| && forall k | from <= k <= to :: IsDigit(s[k])
  }

  lemma {:induction false} CountExceeds(s: string, from: nat, to: nat)
    requires from <= to && from <= |s|
    ensures from + DigitCount(s[from..]) > to <==> DigitsThrough(s, from, to)
    decreases |s| - from
  {
    if from < |s| && IsDigit(s[from]) && from < to {
      assert s[from..][1..] == s[from + 1..];
      CountExceeds(s, from + 1, to);
    }
  }

  /** A width is the largest number of characters to read, but more are read exactly when
      the digits go on behind it: they are not counted, except that a sign which takes
      up the whole width ends the conversion. */
  lemma WidthIsExceeded(s: string, width: nat, w: Width)
    requires width > 0
    ensures ScannedSigned(s, width, w).consumed > width <==>
            if HasSign(s) then width > 1 && DigitsThrough(s, 1, width) else DigitsThrough(s, 0, width)
    ensures ScannedUnsigned(s, w).consumed > width <==> DigitsThrough(s, 0, width)
  {
    assert s[0..] == s;
    CountExceeds(s, 0, width);
    if HasSign(s) {
      CountExceeds(s, 1, width);
    }
  }

  /** With width 1, both digits of 12 are read. */
  lemma TwoDigitsForOne(w: Width)
    ensures ScannedSigned("12", 1, w) == Scanned(true, 12, 2)
  {
    assert "12"[1..] == "2" && "2"[1..] == "";
    assert Accumulated(1, "2", w, true) == 12;
  }

  // ----- Scanning what has been printed -----

  /** The text after a number must not go on with more digits. */
  predicate Ends(rest: string) {
    rest == "" || !IsDigit(rest[0])
  }

  lemma {:induction false} ScanZeros(n: nat, t: string, w: Width, isSigned: bool)
    ensures Accumulated(0, Zeros(n) + t, w, isSigned) == Accumulated(0, t, w, isSigned)
    ensures DigitCount(Zeros(n) + t) == n + DigitCount(t)
    ensures NeverWraps(0, Zeros(n) + t, w, isSigned) <==> NeverWraps(0, t, w, isSigned)
  {
    if n == 0 {
      assert Zeros(0) + t == t;
    } else {
      assert (Zeros(n) + t)[1..] == Zeros(n - 1) + t;
      ScanZeros(n - 1, t, w, isSigned);
    }
  }

  lemma ScanOne(acc: int, d: nat, t: string, w: Width, isSigned: bool)
    requires d < 10
    ensures var next := acc * 10 + d;
      && Accumulated(acc, [DigitChar(d)] + t, w, isSigned) == Accumulated(Wrap(next, w, isSigned), t, w, isSigned)
      && DigitCount([DigitChar(d)] + t) == 1 + DigitCount(t)
      && (NeverWraps(acc, [DigitChar(d)] + t, w, isSigned) <==>
          InRange(next, w, isSigned) && NeverWraps(next, t, w, isSigned))
  {
  }

  /** The digits are read back, as long as only the last step can wrap around. */
  lemma {:induction false} ScanAllDigits(v: nat, t: string, w: Width, isSigned: bool)
    requires InRange(v / 10, w, isSigned)
    ensures Accumulated(0, Digits(v) + t, w, isSigned) == Accumulated(Wrap(v, w, isSigned), t, w, isSigned)
    ensures DigitCount(Digits(v) + t) == |Digits(v)| + DigitCount(t)
    ensures InRange(v, w, isSigned) && NeverWraps(v, t, w, isSigned) ==> NeverWraps(0, Digits(v) + t, w, isSigned)
  {
    var u, rest := v / 10, [DigitChar(v % 10)] + t;
    ScanLast(v, t, w, isSigned);
    LastDigit(v, t);
    if u != 0 {
      InRangeBelow(u, w, isSigned);
      ScanAllDigits(u, rest, w, isSigned);
    }
  }

  lemma ScanLast(v: nat, t: string, w: Width, isSigned: bool)
    requires InRange(v / 10, w, isSigned)
    ensures var u, rest := v / 10, [DigitChar(v % 10)] + t;
      && Wrap(u, w, isSigned) == u
      && Accumulated(u, rest, w, isSigned) == Accumulated(Wrap(v, w, isSigned), t, w, isSigned)
      && DigitCount(rest) == 1 + DigitCount(t)
      && (NeverWraps(u, rest, w, isSigned) <==> InRange(v, w, isSigned) && NeverWraps(v, t, w, isSigned))
  {
    assert v / 10 * 10 + v % 10 == v;
    ScanOne(v / 10, v % 10, t, w, isSigned);
  }

  lemma InRangeBelow(v: nat, w: Width, isSigned: bool)
    requires InRange(v, w, isSigned)
    ensures InRange(v / 10, w, isSigned)
  {
  }

  lemma ScanMagnitude(v: nat, precision: int, rest: string, w: Width, isSigned: bool)
    requires InRange(v / 10, w, isSigned)
    ensures Accumulated(0, Magnitude(v, precision) + rest, w, isSigned) ==
            Accumulated(Wrap(v, w, isSigned), rest, w, isSigned)
    ensures DigitCount(Magnitude(v, precision) + rest) == |Magnitude(v, precision)| + DigitCount(rest)
    ensures InRange(v, w, isSigned) && Ends(rest) ==> NeverWraps(0, Magnitude(v, precision) + rest, w, isSigned)
  {
    var digits := if precision != 0 || v != 0 then Digits(v) else "";
    var n := if |digits| < precision then precision - |digits| else 0;
    assert Magnitude(v, precision) + rest == Zeros(n) + (digits + rest);
    ScanZeros(n, digits + rest, w, isSigned);
    if precision != 0 || v != 0 {
      ScanAllDigits(v, rest, w, isSigned);
    } else {
      assert digits + rest == rest;
    }
  }

  lemma {:induction false} StartsWithDigit(v: nat)
    ensures Digits(v) != "" && IsDigit(Digits(v)[0])
  {
    if v >= 10 { StartsWithDigit(v / 10); }
  }

  lemma MagnitudeStart(v: nat, precision: int)
    ensures Magnitude(v, precision) == "" <==> precision == 0 && v == 0
    ensures Magnitude(v, precision) != "" ==> IsDigit(Magnitude(v, precision)[0])
  {
    StartsWithDigit(v);
  }

  /** A sign and characters that are read as the absolute value are read as the value. */
  lemma SignedText(rawValue: int, w: Width, defaultSign: char, m: string, rest: string)
    requires InRange(rawValue, w, true) && defaultSign in ['\0', '+']
    requires Accumulated(0, m + rest, w, true) == Wrap(Abs(rawValue), w, true) && DigitCount(m + rest) == |m|
    requires if m == "" then Sign(rawValue, defaultSign) == "" ==> !HasSign(rest) else IsDigit(m[0])
    ensures var text := Sign(rawValue, defaultSign) + m;
      ScannedSigned(text + rest, -1, w) == Scanned(true, rawValue, |text|)
  {
    var v := Abs(rawValue);
    if rawValue < 0 {
      AfterSign('-', m, rest, v, w);
    } else if defaultSign == '+' {
      AfterSign('+', m, rest, v, w);
    } else {
      assert "" + m + rest == m + rest;
    }
  }

  /** %d and %+d: a signed number is read back from what was printed for it, whatever
      the precision, and nothing else is consumed. When nothing at all was printed, the
      rest must not look like a sign. */
  lemma SignedRoundTrip(rawValue: int, w: Width, defaultSign: char, precision: int, rest: string)
    requires InRange(rawValue, w, true) && defaultSign in ['\0', '+'] && Ends(rest)
    requires Sign(rawValue, defaultSign) + Magnitude(Abs(rawValue), precision) != "" || !HasSign(rest)
    ensures var text := Sign(rawValue, defaultSign) + Magnitude(Abs(rawValue), precision);
      ScannedSigned(text + rest, -1, w) == Scanned(true, rawValue, |text|)
  {
    ScanMagnitude(Abs(rawValue), precision, rest, w, true);
    MagnitudeStart(Abs(rawValue), precision);
    SignedText(rawValue, w, defaultSign, Magnitude(Abs(rawValue), precision), rest);
  }

  lemma AfterSign(c: char, m: string, rest: string, v: int, w: Width)
    requires c == '+' || c == '-'
    requires Accumulated(0, m + rest, w, true) == Wrap(v, w, true) && DigitCount(m + rest) == |m|
    requires 0 <= v < Modulus(w) / 2 || (c == '-' && v == Modulus(w) / 2)
    ensures ScannedSigned([c] + m + rest, -1, w) == Scanned(true, if c == '-' then -v else v, |[c] + m|)
  {
    var text := [c] + m + rest;
    assert text != "" && text[0] == c && text[1..] == m + rest;
    SignedBack(c, v, w);
  }

  lemma SignedBack(c: char, v: int, w: Width)
    requires c == '+' || c == '-'
    requires 0 <= v < Modulus(w) / 2 || (c == '-' && v == Modulus(w) / 2)
    ensures Wrap(Wrap(v, w, true) * (',' as int - c as int), w, true) == if c == '-' then -v else v
  {
    Negated(v, w);
    SignValue(c, Wrap(v, w, true));
  }

  lemma SignValue(c: char, a: int)
    requires c == '+' || c == '-'
    ensures a * (',' as int - c as int) == if c == '-' then -a else a
  {
  }

  lemma Negated(v: int, w: Width)
    requires 0 <= v <= Modulus(w) / 2
    ensures Wrap(-Wrap(v, w, true), w, true) == -v
  {
  }

  /** Above the least signed number nothing wraps around on the way, so that the result
      does not depend on what a signed overflow does. */
  lemma SignedNeverWraps(rawValue: int, w: Width, precision: int, rest: string)
    requires InRange(rawValue, w, true) && rawValue > -(Modulus(w) / 2) && Ends(rest)
    ensures NeverWraps(0, Magnitude(Abs(rawValue), precision) + rest, w, true)
  {
    ScanMagnitude(Abs(rawValue), precision, rest, w, true);
  }

  /** With the flag for a space in place of a plus sign, only negative numbers are read
      back: scanning does not skip the space, so that nothing is consumed. */
  lemma SpaceIsNotRead(rawValue: int, w: Width, precision: int, rest: string)
    requires InRange(rawValue, w, true) && Ends(rest)
    ensures var text := Sign(rawValue, ' ') + Magnitude(Abs(rawValue), precision);
      ScannedSigned(text + rest, -1, w) == Scanned(true, rawValue, |text|) <==> rawValue < 0
  {
    if rawValue < 0 {
      SignedRoundTrip(rawValue, w, '\0', precision, rest);
    } else {
      var text := Sign(rawValue, ' ') + Magnitude(Abs(rawValue), precision);
      assert (text + rest)[0] == ' ';
    }
  }

  /** %u. */
  lemma UnsignedRoundTrip(value: nat, w: Width, precision: int, rest: string)
    requires InRange(value, w, false) && Ends(rest)
    ensures var text := Magnitude(value, precision);
      ScannedUnsigned(text + rest, w) == Scanned(true, value, |text|)
  {
    ScanMagnitude(value, precision, rest, w, false);
  }
}
