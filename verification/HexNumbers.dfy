// Printing and scanning hexadecimal numbers: VSPRINTF_HEXADECIMAL, VSSCANF_HEXADECIMAL
// and the cases x and p of vsprintf and x of _vsscanf in src/common/stdio.c.
module HexNumbers {

  import opened DecimalNumbers

  function HexValue(c: char): nat
    requires IsHexDigit(c)
  {
    if IsDigit(c) then DigitValue(c)
    else if 'a' <= c <= 'f' then 10 + c as int - 'a' as int
    else 10 + c as int - 'A' as int
  }

  predicate IsHexDigit(c: char) {
    IsDigit(c) || 'a' <= c <= 'f' || 'A' <= c <= 'F'
  }

  /** The specifier is x or X, and its case is that of the digits above nine. */
  function HexChar(nibble: nat, specifier: char): (c: char)
    requires nibble < 16 && specifier in ['x', 'X']
    ensures IsHexDigit(c) && HexValue(c) == nibble
    ensures InCase(c, specifier)
  {
    if nibble <= 9 then ('0' as int + nibble) as char
    else ('A' as int + (specifier as int - 'X' as int) + (nibble - 10)) as char
  }

  predicate InCase(c: char, specifier: char) {
    IsDigit(c) || if specifier == 'x' then 'a' <= c <= 'f' else 'A' <= c <= 'F'
  }

  /** The digits in their order. */
  lemma HexDigitsInOrder(nibble: nat, specifier: char)
    requires nibble < 16 && specifier in ['x', 'X']
    ensures HexChar(nibble, specifier) == (if specifier == 'x' then "0123456789abcdef" else "0123456789ABCDEF")[nibble]
  {
  }

  // ----- Printing -----

  function Bits(w: Width): nat {
    match w
    case W16 => 16
    case W32 => 32
    case W64 => 64
  }

  function TwoTo(n: nat): (p: nat)
    ensures p > 0
  {
    if n == 0 then 1 else 2 * TwoTo(n - 1)
  }

  function SixteenTo(n: nat): (p: nat)
    ensures p > 0
  {
    if n == 0 then 1 else 16 * SixteenTo(n - 1)
  }

  function BitLength(value: nat): nat {
    if value == 0 then 0 else 1 + BitLength(value / 2)
  }

  function LeadingZeros(value: nat, w: Width): int {
    Bits(w) - BitLength(value)
  }

  /** The number of digits without precision. */
  function DigitWidth(value: nat, w: Width): int {
    2 * (Bits(w) / 8) - LeadingZeros(value, w) / 4
  }

  /** What VSPRINTF_HEXADECIMAL makes of a value: the optional prefix and the digits. */
  datatype HexText = HexText(prefix: string, digits: string)

  function Whole(t: HexText): string {
    t.prefix + t.digits
  }

  /** What value >> (i << 2) yields. A shift by the size of the type or more is
      undefined in C, and left open. */
  type Shifts = nat -> nat

  ghost predicate Shifted(f: Shifts, value: nat, w: Width) {
    forall i: nat | 4 * i < Bits(w) :: f(i) == value / SixteenTo(i)
  }

  /** The digits at the positions below n, the highest first. */
  function HexDigits(f: Shifts, n: nat, specifier: char): (s: string)
    requires specifier in ['x', 'X']
    ensures |s| == n
  {
    if n == 0 then ""
    else [HexChar(f(n - 1) % 16, specifier)] + HexDigits(f, n - 1, specifier)
  }

  lemma {:induction false} AllHexDigits(f: Shifts, n: nat, specifier: char)
    requires specifier in ['x', 'X']
    ensures forall c | c in HexDigits(f, n, specifier) :: IsHexDigit(c)
  {
    if n > 0 { AllHexDigits(f, n - 1, specifier); }
  }

  function Printed(value: nat, w: Width, specifier: char, alternate: bool, precision: int, f: Shifts): HexText
    requires specifier in ['x', 'X'] && value < Modulus(w)
  {
    var least := if value == 0 then (if precision != 0 then 1 else 0) else DigitWidth(value, w);
    var n := if least < precision then precision else least;
    HexText(if alternate && value != 0 then ['0', specifier] else "",
            HexDigits(f, if n < 0 then 0 else n, specifier))
  }

  lemma {:induction false} BitLengthBounds(value: nat)
    ensures value < TwoTo(BitLength(value))
    ensures value != 0 ==> TwoTo(BitLength(value) - 1) <= value
  {
    if value != 0 { BitLengthBounds(value / 2); }
  }

  lemma {:induction false} PowersOfTwo(n: nat)
    ensures TwoTo(4 * n) == SixteenTo(n)
  {
    if n > 0 {
      PowersOfTwo(n - 1);
      assert TwoTo(4 * n) == 2 * TwoTo(4 * n - 1) == 4 * TwoTo(4 * n - 2) == 8 * TwoTo(4 * n - 3);
    }
  }

  lemma {:induction false} PowerGrows(m: nat, n: nat)
    requires m <= n
    ensures TwoTo(m) <= TwoTo(n) && SixteenTo(m) <= SixteenTo(n)
  {
    if m < n { PowerGrows(m, n - 1); }
  }

  lemma ModulusIsPower(w: Width)
    ensures Modulus(w) == TwoTo(Bits(w)) == SixteenTo(Bits(w) / 4)
  {
    assert SixteenTo(4) == 0x1_0000;
    PowerSquared(4);
    PowerSquared(8);
    PowersOfTwo(Bits(w) / 4);
  }

  lemma PowerSquared(n: nat)
    ensures SixteenTo(n + n) == SixteenTo(n) * SixteenTo(n)
  {
    PowerSum(n, n);
  }

  lemma {:induction false} PowerSum(m: nat, n: nat)
    ensures SixteenTo(m + n) == SixteenTo(m) * SixteenTo(n)
  {
    if m > 0 { PowerSum(m - 1, n); }
  }

  /** Without precision, the digits are as many as the value needs, and no more. */
  lemma DigitWidthIsExact(value: nat, w: Width)
    requires 0 < value < Modulus(w)
    ensures var n := DigitWidth(value, w);
      1 <= n <= Bits(w) / 4 && SixteenTo(n - 1) <= value < SixteenTo(n)
  {
    BitLengthFits(value, w);
    BitLengthBounds(value);
    DigitsForBits(BitLength(value), w);
    PowersAround(BitLength(value), DigitWidth(value, w));
  }

  lemma DigitsForBits(b: nat, w: Width)
    requires 0 < b <= Bits(w)
    ensures var n := 2 * (Bits(w) / 8) - (Bits(w) - b) / 4; 1 <= n <= Bits(w) / 4 && 4 * (n - 1) < b <= 4 * n
  {
  }

  lemma PowersAround(b: nat, n: nat)
    requires 4 * (n - 1) < b <= 4 * n && n > 0
    ensures SixteenTo(n - 1) <= TwoTo(b - 1) && TwoTo(b) <= SixteenTo(n)
  {
    PowersOfTwo(n);
    PowersOfTwo(n - 1);
    PowerGrows(b, 4 * n);
    PowerGrows(4 * (n - 1), b - 1);
  }

  lemma BitLengthFits(value: nat, w: Width)
    requires 0 < value < Modulus(w)
    ensures 0 < BitLength(value) <= Bits(w)
  {
    BitLengthBounds(value);
    ModulusIsPower(w);
    if BitLength(value) > Bits(w) {
      PowerGrows(Bits(w), BitLength(value) - 1);
    }
  }

  /** The number in its field: padding never goes between the prefix and the digits. */
  function HexField(t: HexText, width: int, adjustLeft: bool, padChar: char): string {
    var pad := Pads(Missing(|Whole(t)|, width), padChar);
    if adjustLeft then Whole(t) + pad else pad + Whole(t)
  }

  // ----- What is printed, read as a number -----

  /** The number that hexadecimal digits stand for. */
  function HexNumberOf(digits: string): nat
    requires forall c | c in digits :: IsHexDigit(c)
  {
    if digits == "" then 0 else HexValue(digits[0]) * SixteenTo(|digits| - 1) + HexNumberOf(digits[1..])
  }

  /** n digits are enough for the value, and one less is not. */
  predicate IsLeastHex(n: nat, value: nat) {
    if n == 0 then value == 0 else value < SixteenTo(n) && (n == 1 || SixteenTo(n - 1) <= value)
  }

  /** The digits of the value in the case of the specifier: as many as it needs, one for
      zero unless the precision is zero, and no fewer than the precision says. Digits beyond
      those of the type are left open. */
  ghost predicate ShowsHexDigits(digits: string, value: nat, w: Width, specifier: char, precision: int) {
    && (forall c | c in digits :: IsHexDigit(c) && InCase(c, specifier))
    && (exists n: nat :: IsLeastHex(n, value) && (n == 0 <==> value == 0 && precision == 0)
          && |digits| == if n < precision then precision else n)
    && HexNumberOf(if |digits| <= Bits(w) / 4 then digits else digits[|digits| - Bits(w) / 4..]) == value
  }

  /** The prefix is printed with the alternate form and not for zero, directly before the
      digits. */
  ghost predicate ShowsHex(s: string, value: nat, w: Width, specifier: char, alternate: bool, precision: int,
                           width: int, adjustLeft: bool, padChar: char)
  {
    exists prefix, digits ::
      && prefix == (if alternate && value != 0 then ['0', specifier] else "")
      && ShowsHexDigits(digits, value, w, specifier, precision)
      && InField(s, prefix + digits, width, adjustLeft, padChar)
  }

  /** So the prefix can be seen: no digits start with a zero and the specifier. */
  lemma PrefixIsSeen(prefix: string, digits: string, specifier: char)
    requires specifier in ['x', 'X'] && prefix in ["", ['0', specifier]]
    requires forall c | c in digits :: IsHexDigit(c)
    ensures ['0', specifier] <= prefix + digits <==> prefix != ""
  {
    if prefix == "" {
      assert prefix + digits == digits;
      assert |digits| > 1 ==> digits[1] in digits;
    }
  }

  lemma DigitAbove(value: nat, p: nat)
    requires p > 0
    ensures value % (16 * p) == value / p % 16 * p + value % p
  {
    var a := value / p;
    assert value == a * p + value % p && a == 16 * (a / 16) + a % 16;
    Compose(value, a, value % p, a / 16, a % 16, p);
    ModIs(value, a / 16, 16 * p, (a % 16) * p + value % p);
  }

  lemma FirstDigit(c: char, digits: string)
    requires IsHexDigit(c) && forall x | x in digits :: IsHexDigit(x)
    ensures forall x | x in [c] + digits :: IsHexDigit(x)
    ensures HexNumberOf([c] + digits) == HexValue(c) * SixteenTo(|digits|) + HexNumberOf(digits)
  {
    assert ([c] + digits)[1..] == digits;
  }

  lemma NextHexDigit(value: nat, p: nat, c: char, digits: string)
    requires p == SixteenTo(|digits|) && forall x | x in digits :: IsHexDigit(x)
    requires IsHexDigit(c) && HexValue(c) == value / p % 16 && HexNumberOf(digits) == value % p
    ensures forall x | x in [c] + digits :: IsHexDigit(x)
    ensures HexNumberOf([c] + digits) == value % (16 * p)
  {
    hide HexNumberOf, HexValue, IsHexDigit, SixteenTo;
    FirstDigit(c, digits);
    DigitAbove(value, p);
  }

  /** The digits at the positions below n are those of the value. */
  lemma {:induction false} HexDigitsMean(f: Shifts, value: nat, w: Width, n: nat, specifier: char)
    requires Shifted(f, value, w) && n <= Bits(w) / 4 && specifier in ['x', 'X']
    ensures forall c | c in HexDigits(f, n, specifier) :: IsHexDigit(c)
    ensures HexNumberOf(HexDigits(f, n, specifier)) == value % SixteenTo(n)
  {
    AllHexDigits(f, n, specifier);
    if n > 0 {
      HexDigitsMean(f, value, w, n - 1, specifier);
      assert f(n - 1) == value / SixteenTo(n - 1);
      NextHexDigit(value, SixteenTo(n - 1), HexChar(f(n - 1) % 16, specifier), HexDigits(f, n - 1, specifier));
    }
  }

  lemma {:induction false} DigitsInCase(f: Shifts, n: nat, specifier: char)
    requires specifier in ['x', 'X']
    ensures forall c | c in HexDigits(f, n, specifier) :: InCase(c, specifier)
  {
    if n > 0 { DigitsInCase(f, n - 1, specifier); }
  }

  lemma {:induction false} LowDigits(f: Shifts, n: nat, m: nat, specifier: char)
    requires m <= n && specifier in ['x', 'X']
    ensures HexDigits(f, n, specifier)[n - m..] == HexDigits(f, m, specifier)
  {
    if m < n {
      LowDigits(f, n - 1, m, specifier);
      var s := HexDigits(f, n, specifier);
      assert s == [s[0]] + HexDigits(f, n - 1, specifier);
      assert s[n - m..] == HexDigits(f, n - 1, specifier)[n - 1 - m..];
    }
  }

  lemma DigitsShow(value: nat, w: Width, specifier: char, precision: int, f: Shifts, least: nat, n: nat)
    requires specifier in ['x', 'X'] && value < Modulus(w) && Shifted(f, value, w)
    requires IsLeastHex(least, value) && (least == 0 <==> value == 0 && precision == 0)
    requires n == if least < precision then precision else least
    ensures ShowsHexDigits(HexDigits(f, n, specifier), value, w, specifier, precision)
  {
    hide HexDigits, SixteenTo, Modulus, HexNumberOf, IsLeastHex, IsHexDigit, InCase;
    var most := Bits(w) / 4;
    var k := if n <= most then n else most;
    AllHexDigits(f, n, specifier);
    DigitsInCase(f, n, specifier);
    LowDigits(f, n, k, specifier);
    HexDigitsMean(f, value, w, k, specifier);
    EnoughDigits(value, w, least, k);
    assert HexNumberOf(HexDigits(f, k, specifier)) == value;
    assert n <= most ==> HexDigits(f, n, specifier)[n - k..] == HexDigits(f, n, specifier);
  }

  lemma EnoughDigits(value: nat, w: Width, least: nat, k: nat)
    requires value < Modulus(w) && IsLeastHex(least, value) && (least <= k || k == Bits(w) / 4)
    ensures value % SixteenTo(k) == value
  {
    hide SixteenTo, Modulus, Bits;
    ModulusIsPower(w);
    if least <= k {
      PowerGrows(least, k);
    }
    OwnRemainder(value, SixteenTo(k));
  }

  lemma OwnRemainder(value: nat, p: nat)
    requires value < p || (value == 0 && p > 0)
    ensures value % p == value
  {
  }

  lemma PrintedShows(value: nat, w: Width, specifier: char, alternate: bool, precision: int, f: Shifts)
    requires specifier in ['x', 'X'] && value < Modulus(w) && Shifted(f, value, w)
    ensures var t := Printed(value, w, specifier, alternate, precision, f);
      && t.prefix == (if alternate && value != 0 then ['0', specifier] else "")
      && ShowsHexDigits(t.digits, value, w, specifier, precision)
  {
    hide ShowsHexDigits, HexDigits, Shifted, BitLength, SixteenTo, Bits;
    if value != 0 {
      DigitWidthIsExact(value, w);
    }
    var least: nat := if value == 0 then (if precision != 0 then 1 else 0) else DigitWidth(value, w);
    DigitsShow(value, w, specifier, precision, f, least, if least < precision then precision else least);
  }

  lemma HexFieldShows(value: nat, w: Width, specifier: char, alternate: bool, precision: int, f: Shifts,
                      width: int, adjustLeft: bool, padChar: char)
    requires specifier in ['x', 'X'] && value < Modulus(w) && Shifted(f, value, w)
    ensures ShowsHex(HexField(Printed(value, w, specifier, alternate, precision, f), width, adjustLeft, padChar),
                     value, w, specifier, alternate, precision, width, adjustLeft, padChar)
  {
    var t := Printed(value, w, specifier, alternate, precision, f);
    PrintedShows(value, w, specifier, alternate, precision, f);
    assert InField(HexField(t, width, adjustLeft, padChar), t.prefix + t.digits, width, adjustLeft, padChar);
  }

  // ----- The macro -----

  /** VSPRINTF_HEXADECIMAL; f is what the shifts of the value yield. */
  method PrintHex(value: nat, w: Width, specifier: char, alternate: bool, precision: int,
                  width: int, adjustLeft: bool, padChar: char, f: Shifts) returns (s: string)
    requires specifier in ['x', 'X'] && value < Modulus(w)
    ensures s == HexField(Printed(value, w, specifier, alternate, precision, f), width, adjustLeft, padChar)
    ensures Shifted(f, value, w) ==> ShowsHex(s, value, w, specifier, alternate, precision, width, adjustLeft, padChar)
  {
    hide Shifted, HexDigits, HexField, ShowsHex, BitLength, SixteenTo;
    if Shifted(f, value, w) {
      HexFieldShows(value, w, specifier, alternate, precision, f, width, adjustLeft, padChar);
    }
    if value != 0 { DigitWidthIsExact(value, w); }
    var alternate := alternate;
    var digitWidth;
    if value == 0 {
      digitWidth := if precision != 0 then 1 else 0;
      alternate := false;
    } else {
      digitWidth := 2 * (Bits(w) / 8) - LeadingZeros(value, w) / 4;
    }
    if digitWidth < precision {
      digitWidth := precision;
    }
    s := PrintHexField(f, digitWidth, alternate, specifier, width, adjustLeft, padChar);
  }

  lemma NothingMissing(n: nat, width: int, padChar: char)
    ensures Pads(Missing(n + Missing(n, width), width), padChar) == ""
  {
  }

  /** The part of VSPRINTF_HEXADECIMAL that prints. */
  method PrintHexField(f: Shifts, digitWidth: nat, alternate: bool, specifier: char,
                       width: int, adjustLeft: bool, padChar: char) returns (s: string)
    requires specifier in ['x', 'X']
    ensures s == HexField(HexText(if alternate then ['0', specifier] else "", HexDigits(f, digitWidth, specifier)),
                          width, adjustLeft, padChar)
  {
    hide HexDigits, Pads, Missing;
    ghost var t := HexText(if alternate then ['0', specifier] else "", HexDigits(f, digitWidth, specifier));
    var prefixedWidth := digitWidth + if alternate then 2 else 0;
    assert prefixedWidth == |Whole(t)|;
    NothingMissing(prefixedWidth, width, padChar);
    s := "";
    if !adjustLeft {
      s, prefixedWidth := PadToWidth(s, prefixedWidth, width, padChar);
    }
    s := PrintWhole(s, f, digitWidth, alternate, specifier);
    s, prefixedWidth := PadToWidth(s, prefixedWidth, width, padChar);
  }

  /** The prefix and the digits. */
  method PrintWhole(lead: string, f: Shifts, digitWidth: nat, alternate: bool, specifier: char) returns (s: string)
    requires specifier in ['x', 'X']
    ensures s == lead + Whole(HexText(if alternate then ['0', specifier] else "", HexDigits(f, digitWidth, specifier)))
  {
    hide HexDigits;
    s := lead;
    if alternate {
      s := s + ['0', specifier];
    }
    s := PrintHexDigits(s, f, digitWidth, specifier);
  }

  /** Case p, which becomes an x with the alternate form, eight digits and zeros for
      padding: the null pointer loses its prefix, because the macro is never entered
      with the specifier p. */
  lemma NullPointerHasNoPrefix(width: int, adjustLeft: bool, f: Shifts)
    requires Shifted(f, 0, W32)
    ensures HexField(Printed(0, W32, 'x', true, 8, f), width, adjustLeft, '0') == Zeros(8 + Missing(8, width))
  {
    AllZeroDigits(f, 8);
  }

  lemma {:induction false} AllZeroDigits(f: Shifts, n: nat)
    requires n <= 8 && Shifted(f, 0, W32)
    ensures HexDigits(f, n, 'x') == Zeros(n)
  {
    if n > 0 {
      AllZeroDigits(f, n - 1);
      assert f(n - 1) == 0 / SixteenTo(n - 1) == 0;
    }
  }

  method PrintHexDigits(prefix: string, f: Shifts, digitWidth: nat, specifier: char) returns (s: string)
    requires specifier in ['x', 'X']
    ensures s == prefix + HexDigits(f, digitWidth, specifier)
  {
    s := prefix;
    var i: int := digitWidth - 1;
    while i >= 0
      invariant -1 <= i < digitWidth
      invariant s + HexDigits(f, i + 1, specifier) == prefix + HexDigits(f, digitWidth, specifier)
    {
      var nibble := f(i) % 16;
      s := s + [HexChar(nibble, specifier)];
      i := i - 1;
    }
  }

  // ----- Scanning -----

  /** The loop of VSSCANF_HEXADECIMAL. */
  function AccumulatedHex(acc: nat, s: string, w: Width): nat
    decreases |s|
  {
    if s == "" || !IsHexDigit(s[0]) then acc
    else AccumulatedHex((acc * 16 + HexValue(s[0])) % Modulus(w), s[1..], w)
  }

  function HexCount(s: string): (n: nat)
    ensures n <= |s|
  {
    if s == "" || !IsHexDigit(s[0]) then 0 else 1 + HexCount(s[1..])
  }

  /** How much of a prefix is skipped: a leading zero, and an x behind it. */
  function PrefixLength(s: string, width: int): (n: nat)
    ensures n <= |s|
  {
    if (width < 0 || width > 2) && s != "" && s[0] == '0' then
      if |s| > 1 && s[1] in ['x', 'X'] then 2 else 1
    else 0
  }

  function ScannedHex(s: string, width: int, w: Width): Scanned {
    var n := PrefixLength(s, width);
    Scanned(true, AccumulatedHex(0, s[n..], w), n + HexCount(s[n..]))
  }

  /** Case x of _vsscanf. The digits do not count against the width. */
  method ScanHex(s: string, givenWidth: int, w: Width) returns (r: Scanned)
    requires givenWidth == -1 || givenWidth > 0
    ensures r == ScannedHex(s, givenWidth, w)
  {
    hide AccumulatedHex, HexCount;
    var width := if givenWidth < 0 then 18 else givenWidth;
    var i := 0;
    if width > 2 && s != "" && s[0] == '0' {
      i, width := 1, width - 1;
      if i < |s| && s[i] in ['x', 'X'] {
        i, width := 2, width - 1;
      }
    }
    ghost var start := i;
    var value: nat := 0;
    while width > 0
      invariant start <= i <= |s|
      invariant AccumulatedHex(value, s[i..], w) == AccumulatedHex(0, s[start..], w)
      invariant i + HexCount(s[i..]) == start + HexCount(s[start..])
      invariant width <= 0 ==> i == |s| || !IsHexDigit(s[i])
      decreases |s| - i, width
    {
      ScanStep(value, s, i, w);
      if i < |s| && IsHexDigit(s[i]) {
        value := (value * 16 + HexValue(s[i])) % Modulus(w);
        i := i + 1;
      } else {
        width := 0;
      }
    }
    ScanStep(value, s, i, w);
    r := Scanned(true, value, i);
  }

  lemma ScanStep(value: nat, s: string, i: nat, w: Width)
    requires i <= |s|
    ensures if i < |s| && IsHexDigit(s[i]) then
        && AccumulatedHex(value, s[i..], w) == AccumulatedHex((value * 16 + HexValue(s[i])) % Modulus(w), s[i + 1..], w)
        && HexCount(s[i..]) == 1 + HexCount(s[i + 1..])
      else AccumulatedHex(value, s[i..], w) == value && HexCount(s[i..]) == 0
  {
    if i < |s| {
      assert s[i..][0] == s[i] && s[i..][1..] == s[i + 1..];
    }
  }

  predicate HexThrough(s: string, from: nat, to: nat) {
    to < |s| && forall k | from <= k <= to :: IsHexDigit(s[k])
  }

  lemma {:induction false} HexCountExceeds(s: string, from: nat, to: nat)
    requires from <= to && from <= |s|
    ensures from + HexCount(s[from..]) > to <==> HexThrough(s, from, to)
    decreases |s| - from
  {
    if from < |s| && IsHexDigit(s[from]) && from < to {
      assert s[from..][1..] == s[from + 1..];
      HexCountExceeds(s, from + 1, to);
    }
  }

  /** More characters are read than the width allows exactly when the digits behind the
      prefix go on: they are not counted. */
  lemma HexWidthIsExceeded(s: string, width: nat, w: Width)
    requires width > 0
    ensures ScannedHex(s, width, w).consumed > width <==> HexThrough(s, PrefixLength(s, width), width)
  {
    HexCountExceeds(s, PrefixLength(s, width), width);
  }

  // ----- Scanning what has been printed -----

  predicate HexEnds(rest: string) {
    rest == "" || !IsHexDigit(rest[0])
  }

  lemma ModIs(x: int, q: int, m: int, r: int)
    requires x == q * m + r && 0 <= r < m
    ensures x % m == r
  {
    var d := q - x / m;
    assert d * m == q * m - (x / m) * m;
    assert -m < d * m < m;
    NoMultipleBetween(d, m);
  }

  lemma NoMultipleBetween(d: int, m: int)
    requires -m < d * m < m
    ensures d == 0
  {
  }

  /** One more digit: if the low part of acc is that of v / 16, then the low part of the
      next acc is that of v. */
  lemma NextLowPart(acc: nat, v: nat, p: nat, k: nat)
    requires p > 0 && k > 0 && acc % p == v / 16 % p
    ensures (acc * 16 + v % 16) % (k * (16 * p)) % (16 * p) == v % (16 * p)
  {
    var r := acc % p;
    var low := 16 * r + v % 16;
    var x, m := acc * 16 + v % 16, k * (16 * p);
    Distribute(acc, p);
    Distribute(v / 16, p);
    assert x == (acc / p) * (16 * p) + low;
    assert v == (v / 16 / p) * (16 * p) + low;
    ModIs(v, v / 16 / p, 16 * p, low);
    Product(x / m, k, 16 * p);
    assert x % m == x - (x / m) * m;
    var q := acc / p - (x / m) * k;
    assert q * (16 * p) == (acc / p) * (16 * p) - (x / m) * k * (16 * p);
    ModIs(x % m, q, 16 * p, low);
  }

  lemma Distribute(a: nat, p: nat)
    requires p > 0
    ensures 16 * a == (a / p) * (16 * p) + 16 * (a % p)
  {
  }

  lemma Product(j: int, k: int, m: int)
    ensures j * (k * m) == j * k * m
  {
  }

  lemma DivideTwice(value: nat, p: nat)
    requires p > 0
    ensures value / (16 * p) == value / p / 16
  {
    var a := value / p;
    assert value == a * p + value % p && a == 16 * (a / 16) + a % 16;
    Compose(value, a, value % p, a / 16, a % 16, p);
    DivIs(value, a / 16, 16 * p, (a % 16) * p + value % p);
  }

  lemma Compose(value: int, a: int, r: int, b: int, e: int, p: int)
    requires value == a * p + r && a == 16 * b + e && 0 <= e < 16 && 0 <= r < p
    ensures value == b * (16 * p) + (e * p + r) && 0 <= e * p + r < 16 * p
  {
  }

  lemma DivIs(x: int, q: int, m: int, r: int)
    requires x == q * m + r && 0 <= r < m
    ensures x / m == q
  {
    var d := q - x / m;
    assert d * m == q * m - (x / m) * m;
    assert -m < d * m < m;
    NoMultipleBetween(d, m);
  }

  /** The digits above position n have been read, as far as they still matter. */
  ghost predicate LowPart(acc: nat, value: nat, n: nat, w: Width) {
    acc < Modulus(w) &&
    (n <= Bits(w) / 4 ==>
      var p := SixteenTo(Bits(w) / 4 - n); acc % p == value / SixteenTo(n) % p)
  }

  lemma NextDigit(acc: nat, value: nat, n: nat, w: Width, f: Shifts)
    requires n > 0 && LowPart(acc, value, n, w) && Shifted(f, value, w)
    ensures LowPart((acc * 16 + f(n - 1) % 16) % Modulus(w), value, n - 1, w)
  {
    var most := Bits(w) / 4;
    if n <= most {
      DigitThatMatters(acc, value, n, w);
    } else if n - 1 == most {
      assert SixteenTo(most - (n - 1)) == 1;
    }
  }

  lemma DigitThatMatters(acc: nat, value: nat, n: nat, w: Width)
    requires 0 < n <= Bits(w) / 4 && LowPart(acc, value, n, w)
    ensures var next := (acc * 16 + value / SixteenTo(n - 1) % 16) % Modulus(w); LowPart(next, value, n - 1, w)
  {
    Powers(n, w);
    NextRemainder(acc, value, SixteenTo(Bits(w) / 4 - n), SixteenTo(n - 1));
  }

  lemma NextRemainder(acc: nat, value: nat, p: nat, k: nat)
    requires p > 0 && k > 0 && acc % p == value / (16 * k) % p
    ensures (acc * 16 + value / k % 16) % (k * (16 * p)) % (16 * p) == value / k % (16 * p)
  {
    DivideTwice(value, k);
    NextLowPart(acc, value / k, p, k);
  }

  lemma Powers(n: nat, w: Width)
    requires 0 < n <= Bits(w) / 4
    ensures var p, k := SixteenTo(Bits(w) / 4 - n), SixteenTo(n - 1);
      && SixteenTo(n) == 16 * k && SixteenTo(Bits(w) / 4 - (n - 1)) == 16 * p
      && Modulus(w) == k * (16 * p)
  {
    PowerSum(n - 1, Bits(w) / 4 - n + 1);
    ModulusIsPower(w);
  }

  lemma ScanOneHex(acc: nat, c: char, t: string, w: Width)
    requires IsHexDigit(c)
    ensures AccumulatedHex(acc, [c] + t, w) == AccumulatedHex((acc * 16 + HexValue(c)) % Modulus(w), t, w)
    ensures HexCount([c] + t) == 1 + HexCount(t)
  {
  }

  /** What the scanner has accumulated after the digits at the positions below n. */
  function Folded(acc: nat, f: Shifts, n: nat, w: Width): nat
    decreases n
  {
    if n == 0 then acc else Folded((acc * 16 + f(n - 1) % 16) % Modulus(w), f, n - 1, w)
  }

  /** Digits are scanned one after the other. */
  lemma {:induction false} ScanInParts(acc: nat, s: string, t: string, w: Width)
    requires forall c | c in s :: IsHexDigit(c)
    ensures AccumulatedHex(acc, s + t, w) == AccumulatedHex(AccumulatedHex(acc, s, w), t, w)
    ensures HexCount(s + t) == |s| + HexCount(t)
    decreases |s|
  {
    if s == "" {
      assert s + t == t;
    } else {
      assert s[0] in s && s + t == [s[0]] + (s[1..] + t);
      ScanOneHex(acc, s[0], s[1..] + t, w);
      ScanInParts((acc * 16 + HexValue(s[0])) % Modulus(w), s[1..], t, w);
    }
  }

  lemma {:induction false} ScanHexDigits(acc: nat, f: Shifts, n: nat, w: Width, specifier: char)
    requires specifier in ['x', 'X']
    ensures AccumulatedHex(acc, HexDigits(f, n, specifier), w) == Folded(acc, f, n, w)
    decreases n
  {
    if n > 0 {
      var d := f(n - 1) % 16;
      var next := (acc * 16 + d) % Modulus(w);
      ScanOneHex(acc, HexChar(d, specifier), HexDigits(f, n - 1, specifier), w);
      ScanHexDigits(next, f, n - 1, w, specifier);
      assert Folded(acc, f, n, w) == Folded(next, f, n - 1, w);
    }
  }

  lemma {:induction false} FoldedIsValue(acc: nat, value: nat, n: nat, w: Width, f: Shifts)
    requires value < Modulus(w) && LowPart(acc, value, n, w) && Shifted(f, value, w)
    ensures Folded(acc, f, n, w) == value
    decreases n
  {
    if n == 0 {
      AllRead(acc, value, w);
    } else {
      NextDigit(acc, value, n, w, f);
      FoldedIsValue((acc * 16 + f(n - 1) % 16) % Modulus(w), value, n - 1, w, f);
    }
  }

  lemma AllRead(acc: nat, value: nat, w: Width)
    requires LowPart(acc, value, 0, w) && value < Modulus(w)
    ensures acc == value
  {
    ModulusIsPower(w);
    assert SixteenTo(0) == 1;
    ModIs(acc, 0, Modulus(w), acc);
    ModIs(value, 0, Modulus(w), value);
  }

  /** Nothing is lost when the digits are at least as many as the value needs. */
  lemma NothingRead(value: nat, n: nat, w: Width)
    requires value < Modulus(w) && (value == 0 || DigitWidth(value, w) <= n)
    ensures LowPart(0, value, n, w)
  {
    if value != 0 {
      DigitWidthIsExact(value, w);
      PowerGrows(DigitWidth(value, w), n);
    }
    SmallQuotient(value, SixteenTo(n));
  }

  lemma SmallQuotient(value: nat, p: nat)
    requires value < p
    ensures value / p == 0
  {
    DivIs(value, 0, p, value);
  }

  /** When what was printed is read as a number of its own: no digit may follow, and if
      the width leaves room for a prefix, a single zero must not be followed by an x;
      otherwise there must not be a prefix. */
  predicate ReadsBack(t: HexText, width: int, rest: string) {
    && HexEnds(rest)
    && if width < 0 || width > 2 then Whole(t) != "0" || rest == "" || rest[0] !in ['x', 'X']
       else t.prefix == ""
  }

  /** %x and %#x, with x or X: under exactly these conditions a number is read back from
      what was printed for it, whatever the precision and whatever an oversized shift
      yields, and nothing else is consumed. */
  lemma HexRoundTrip(value: nat, w: Width, specifier: char, alternate: bool, precision: int, f: Shifts,
                     width: int, rest: string)
    requires specifier in ['x', 'X'] && value < Modulus(w) && Shifted(f, value, w)
    requires width == -1 || width > 0
    ensures var t := Printed(value, w, specifier, alternate, precision, f);
      ScannedHex(Whole(t) + rest, width, w) == Scanned(true, value, |Whole(t)|) <==> ReadsBack(t, width, rest)
  {
    var t := Printed(value, w, specifier, alternate, precision, f);
    if value != 0 { DigitWidthIsExact(value, w); }
    AllHexDigits(f, |t.digits|, specifier);
    if HexEnds(rest) {
      DigitsAreRead(value, w, specifier, alternate, precision, f, rest);
      ReadBackOrNot(t, width, w, value, rest);
    } else {
      ScanInParts(0, t.digits, rest, w);
      TooMuchIsRead(t, width, w, rest);
    }
  }

  lemma DigitsAreRead(value: nat, w: Width, specifier: char, alternate: bool, precision: int, f: Shifts, rest: string)
    requires specifier in ['x', 'X'] && value < Modulus(w) && Shifted(f, value, w) && HexEnds(rest)
    ensures var digits := Printed(value, w, specifier, alternate, precision, f).digits;
      AccumulatedHex(0, digits + rest, w) == value && HexCount(digits + rest) == |digits|
  {
    var digits := Printed(value, w, specifier, alternate, precision, f).digits;
    if value != 0 { DigitWidthIsExact(value, w); }
    NothingRead(value, |digits|, w);
    FoldedIsValue(0, value, |digits|, w, f);
    ScanHexDigits(0, f, |digits|, w, specifier);
    AllHexDigits(f, |digits|, specifier);
    ScanInParts(0, digits, rest, w);
    OtherStops(value, rest, w);
  }

  lemma ReadBackOrNot(t: HexText, width: int, w: Width, value: nat, rest: string)
    requires AccumulatedHex(0, t.digits + rest, w) == value && HexCount(t.digits + rest) == |t.digits|
    requires HexEnds(rest) && (width == -1 || width > 0)
    requires t.prefix == "" || (value > 0 && (t.prefix == "0x" || t.prefix == "0X"))
    requires forall c | c in t.digits :: IsHexDigit(c)
    ensures ScannedHex(Whole(t) + rest, width, w) == Scanned(true, value, |Whole(t)|) <==> ReadsBack(t, width, rest)
  {
    if 0 < width <= 2 {
      if t.prefix == "" {
        assert Whole(t) + rest == t.digits + rest;
        assert (t.digits + rest)[0..] == t.digits + rest;
      } else {
        NarrowStops(t, width, w, rest);
      }
    } else if ReadsBack(t, width, rest) {
      PrefixSkipped(t, width, w, value, rest);
    } else {
      assert (Whole(t) + rest)[1] == rest[0];
    }
  }

  /** A digit that follows is consumed as well, or the number is not even begun. */
  lemma TooMuchIsRead(t: HexText, width: int, w: Width, rest: string)
    requires !HexEnds(rest) && HexCount(t.digits + rest) == |t.digits| + HexCount(rest)
    requires t.prefix == "" || t.prefix == "0x" || t.prefix == "0X"
    requires width == -1 || width > 0
    ensures ScannedHex(Whole(t) + rest, width, w).consumed != |Whole(t)|
  {
    var s := Whole(t) + rest;
    if t.prefix == "" {
      assert s == t.digits + rest;
      ConsumedAtLeast(s, width, w);
    } else if 0 < width <= 2 {
      NarrowStops(t, width, w, rest);
    } else {
      assert s[2..] == t.digits + rest && s[0] == '0' && s[1] in ['x', 'X'];
    }
  }

  lemma ConsumedAtLeast(s: string, width: int, w: Width)
    ensures ScannedHex(s, width, w).consumed >= HexCount(s)
  {
    assert s[0..] == s;
    if PrefixLength(s, width) == 1 {
      ZeroSkipped(s, w);
    } else if PrefixLength(s, width) == 2 {
      ZeroSkipped(s, w);
      OtherStops(0, s[1..], w);
    }
  }

  lemma PrefixSkipped(t: HexText, width: int, w: Width, value: nat, rest: string)
    requires AccumulatedHex(0, t.digits + rest, w) == value && HexCount(t.digits + rest) == |t.digits|
    requires HexEnds(rest) && (width == -1 || width > 2)
    requires t.prefix == "" || t.prefix == "0x" || t.prefix == "0X"
    requires forall c | c in t.digits :: IsHexDigit(c)
    requires Whole(t) != "0" || rest == "" || rest[0] !in ['x', 'X']
    ensures ScannedHex(Whole(t) + rest, width, w) == Scanned(true, value, |Whole(t)|)
  {
    var s, tail := Whole(t) + rest, t.digits + rest;
    if t.prefix != "" {
      assert s[2..] == tail && s[0] == '0' && s[1] in ['x', 'X'];
    } else {
      assert s == tail;
      WithoutPrefix(t.digits, width, w, rest);
    }
  }

  lemma WithoutPrefix(digits: string, width: int, w: Width, rest: string)
    requires HexEnds(rest) && forall c | c in digits :: IsHexDigit(c)
    requires digits != "0" || rest == "" || rest[0] !in ['x', 'X']
    ensures var s := digits + rest;
      ScannedHex(s, width, w) == Scanned(true, AccumulatedHex(0, s, w), HexCount(s))
  {
    var s := digits + rest;
    assert s[0..] == s;
    if PrefixLength(s, width) > 0 {
      assert |digits| > 1 ==> s[1] == digits[1] && digits[1] in digits;
      assert |digits| == 1 ==> digits == "0";
      ZeroSkipped(s, w);
    }
  }

  lemma ZeroSkipped(s: string, w: Width)
    requires s != "" && s[0] == '0'
    ensures AccumulatedHex(0, s, w) == AccumulatedHex(0, s[1..], w) && HexCount(s) == 1 + HexCount(s[1..])
  {
  }

  /** A field width of one or two leaves no room for the prefix: just its zero is read. */
  lemma NarrowStops(t: HexText, width: int, w: Width, rest: string)
    requires 0 < width <= 2 && (t.prefix == "0x" || t.prefix == "0X")
    ensures ScannedHex(Whole(t) + rest, width, w) == Scanned(true, 0, 1)
  {
    var s := Whole(t) + rest;
    assert s[0] == '0' && s[1] in ['x', 'X'];
    assert s[0..] == s;
    ZeroSkipped(s, w);
    OtherStops(0, s[1..], w);
  }

  lemma OtherStops(acc: nat, s: string, w: Width)
    requires HexEnds(s)
    ensures HexCount(s) == 0 && AccumulatedHex(acc, s, w) == acc
  {
  }
}
