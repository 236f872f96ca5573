// What scanning a number gives for any text, not only for a printed one: the cases d, u
// and x of _vsscanf in src/common/stdio.c.
module NumberScans {

  import opened DecimalNumbers
  import opened HexNumbers

  // ----- Decimal numbers -----

  /** The text starts with exactly n digits. */
  predicate Starts(s: string, n: nat) {
    n <= |s| && (forall k | 0 <= k < n :: IsDigit(s[k])) && (n == |s| || !IsDigit(s[n]))
  }

  lemma LastDecimal(t: string, c: char)
    requires IsDigit(c) && forall x | x in t :: IsDigit(x)
    ensures forall x | x in t + [c] :: IsDigit(x)
    ensures NumberOf(t + [c]) == 10 * NumberOf(t) + DigitValue(c)
  {
    assert (t + [c])[..|t|] == t;
  }

  lemma {:induction false} FirstDecimal(c: char, t: string)
    requires IsDigit(c) && forall x | x in t :: IsDigit(x)
    ensures forall x | x in [c] + t :: IsDigit(x)
    ensures NumberOf([c] + t) == DigitValue(c) * PowerOfTen(|t|) + NumberOf(t)
    decreases |t|
  {
    hide NumberOf, IsDigit, DigitValue;
    if t == "" {
      LastDecimal("", c);
      NoDigits();
      assert [c] + t == "" + [c];
    } else {
      var u, last := t[..|t| - 1], t[|t| - 1];
      FirstDecimal(c, u);
      LastDecimal(u, last);
      LastDecimal([c] + u, last);
      assert u + [last] == t && [c] + u + [last] == [c] + t;
      assert PowerOfTen(|t|) == 10 * PowerOfTen(|u|);
      Tenfold(DigitValue(c), PowerOfTen(|u|));
    }
  }

  lemma NoDigits()
    ensures NumberOf("") == 0
  {
  }

  lemma Tenfold(d: int, p: int)
    ensures 10 * (d * p) == d * (10 * p)
  {
  }

  lemma SameRemainder(x: int, y: int, k: int, m: int)
    requires m > 0 && x == y + k * m
    ensures x % m == y % m
  {
    var q := y / m;
    assert y == q * m + y % m;
    assert (q + k) * m == q * m + k * m;
    ModIs(x, q + k, m, y % m);
  }

  lemma MultipleOfModulus(x: int, m: int) returns (k: int)
    requires m > 0
    ensures x % m == x + k * m
  {
    k := -(x / m);
    assert x == x / m * m + x % m;
    assert k * m == -(x / m * m);
  }

  lemma WrapShifts(v: int, w: Width, isSigned: bool) returns (k: int)
    ensures Wrap(v, w, isSigned) == v + k * Modulus(w)
  {
    var m := Modulus(w);
    k := MultipleOfModulus(v, m);
    if Wrap(v, w, isSigned) != v % m {
      assert (k - 1) * m == k * m - m;
      k := k - 1;
    }
  }

  lemma WrapOfShifted(x: int, y: int, k: int, w: Width, isSigned: bool)
    requires x == y + k * Modulus(w)
    ensures Wrap(x, w, isSigned) == Wrap(y, w, isSigned)
  {
    SameRemainder(x, y, k, Modulus(w));
  }

  /** Wrapping on the way makes no difference. */
  lemma WrapsOnce(a: int, c: int, d: int, w: Width, isSigned: bool)
    ensures Wrap(Wrap(a, w, isSigned) * c + d, w, isSigned) == Wrap(a * c + d, w, isSigned)
  {
    hide Wrap, Modulus;
    var k := WrapShifts(a, w, isSigned);
    Shifted(a, k, Modulus(w), c);
    WrapOfShifted(Wrap(a, w, isSigned) * c + d, a * c + d, k * c, w, isSigned);
  }

  lemma Shifted(a: int, k: int, m: int, c: int)
    ensures (a + k * m) * c == a * c + k * c * m
  {
  }

  lemma PlaceValues(acc: int, d: int, p: int, rest: int)
    ensures (acc * 10 + d) * p + rest == acc * (10 * p) + (d * p + rest)
  {
  }

  /** The loop reads the number that all the digits stand for, wrapped to the type. */
  lemma {:induction false} LoopMeans(acc: int, s: string, n: nat, w: Width, isSigned: bool)
    requires Starts(s, n)
    ensures forall c | c in s[..n] :: IsDigit(c)
    ensures DigitCount(s) == n
    ensures Accumulated(Wrap(acc, w, isSigned), s, w, isSigned) ==
      Wrap(acc * PowerOfTen(n) + NumberOf(s[..n]), w, isSigned)
    decreases n
  {
    hide Wrap, Modulus;
    if n > 0 {
      var d, t := DigitValue(s[0]), s[1..];
      LoopMeans(acc * 10 + d, t, n - 1, w, isSigned);
      FirstDecimal(s[0], t[..n - 1]);
      assert s[..n] == [s[0]] + t[..n - 1];
      PlaceValues(acc, d, PowerOfTen(n - 1), NumberOf(t[..n - 1]));
      WrapsOnce(acc, 10, d, w, isSigned);
    }
  }

  function SignLength(s: string): (k: nat)
    ensures k <= |s|
  {
    if "+" <= s || "-" <= s then 1 else 0
  }

  /** %d of any text: only a sign in a field of one character is refused; otherwise the
      number behind the optional sign is given, wrapped to the type, and all its digits are
      consumed, whatever the width. */
  lemma SignedScanMeans(s: string, n: nat, width: int, w: Width)
    requires (width == -1 || width > 0) && Starts(s[SignLength(s)..], n)
    ensures var k := SignLength(s);
      && (forall c | c in s[k..][..n] :: IsDigit(c))
      && var v: int := NumberOf(s[k..][..n]);
         ScannedSigned(s, width, w) ==
           if k == 1 && width == 1 then Scanned(false, 0, 1)
           else Scanned(true, Wrap(if "-" <= s then -v else v, w, true), k + n)
  {
    hide NumberOf, Accumulated, DigitCount, Wrap, Starts;
    var k := SignLength(s);
    LoopMeans(0, s[k..], n, w, true);
    assert Wrap(0, w, true) == 0 by {
      WrapsZero(w);
    }
    var v: int := NumberOf(s[k..][..n]);
    WrapsOnce(v, 1, 0, w, true);
    WrapsOnce(v, -1, 0, w, true);
    assert k == 0 ==> s[k..] == s;
  }

  lemma WrapsZero(w: Width)
    ensures Wrap(0, w, true) == 0
  {
  }

  /** The same of %u, where a sign is no part of a number. */
  lemma UnsignedScanMeans(s: string, n: nat, w: Width)
    requires Starts(s, n)
    ensures forall c | c in s[..n] :: IsDigit(c)
    ensures ScannedUnsigned(s, w) == Scanned(true, NumberOf(s[..n]) % Modulus(w), n)
  {
    LoopMeans(0, s, n, w, false);
  }

  // ----- Hexadecimal numbers -----

  predicate StartsHex(s: string, n: nat) {
    n <= |s| && (forall k | 0 <= k < n :: IsHexDigit(s[k])) && (n == |s| || !IsHexDigit(s[n]))
  }

  lemma HexPlaceValues(acc: int, d: int, p: int, rest: int)
    ensures (acc * 16 + d) * p + rest == acc * (16 * p) + (d * p + rest)
  {
  }

  lemma {:induction false} HexLoopMeans(acc: nat, s: string, n: nat, w: Width)
    requires StartsHex(s, n)
    ensures forall c | c in s[..n] :: IsHexDigit(c)
    ensures HexCount(s) == n
    ensures AccumulatedHex(acc % Modulus(w), s, w) == (acc * SixteenTo(n) + HexNumberOf(s[..n])) % Modulus(w)
    decreases n
  {
    hide HexNumberOf, Modulus;
    if n > 0 {
      var d, t := HexValue(s[0]), s[1..];
      HexLoopMeans(acc * 16 + d, t, n - 1, w);
      FirstDigit(s[0], t[..n - 1]);
      assert s[..n] == [s[0]] + t[..n - 1];
      HexPlaceValues(acc, d, SixteenTo(n - 1), HexNumberOf(t[..n - 1]));
      WrapsOnce(acc, 16, d, w, false);
    } else {
      NoHexDigits(s[..0]);
    }
  }

  lemma NoHexDigits(s: string)
    requires s == ""
    ensures HexNumberOf(s) == 0
  {
  }

  /** %x of any text: the number behind the optional prefix, wrapped to the type, and all its
      digits are consumed, whatever the width. */
  lemma HexScanMeans(s: string, n: nat, width: int, w: Width)
    requires var k := Prefixed(s, width); StartsHex(s[k..], n)
    ensures var k := Prefixed(s, width);
      && (forall c | c in s[k..][..n] :: IsHexDigit(c))
      && ScannedHex(s, width, w) == Scanned(true, HexNumberOf(s[k..][..n]) % Modulus(w), k + n)
  {
    HexLoopMeans(0, s[Prefixed(s, width)..], n, w);
  }

  /** A zero, and an x behind it, when the width is not one or two. */
  function Prefixed(s: string, width: int): (k: nat)
    ensures k <= |s|
  {
    if 0 <= width <= 2 then 0
    else if "0x" <= s || "0X" <= s then 2
    else if "0" <= s then 1
    else 0
  }
}
