// Quoting of string values: sym_escape_string_value of scripts/kconfig/symbol.c, and
// the unescaping in place in conf_set_sym_val of scripts/kconfig/confdata.c.
module StringEscapes {

  import opened Options

  const NUL := '\0'
  const QUOTE := '\"'
  const BACKSLASH := '\\'

  predicate IsSpecial(c: char) {
    c == QUOTE || c == BACKSLASH
  }

  // ----- Strings and what they mean -----

  function EscapedChar(c: char): string {
    if IsSpecial(c) then [BACKSLASH, c] else [c]
  }

  function Escaped(s: string): string {
    if s == "" then "" else EscapedChar(s[0]) + Escaped(s[1..])
  }

  function Quoted(s: string): string {
    [QUOTE] + Escaped(s) + [QUOTE]
  }

  /** The text up to the closing quote, or None if there is none. */
  function Unescaped(t: string): Option<string> {
    if t == "" then None
    else if t[0] == QUOTE then Some("")
    else if t[0] != BACKSLASH then Prefixed([t[0]], Unescaped(t[1..]))
    else if |t| == 1 then None
    else Prefixed([t[1]], Unescaped(t[2..]))
  }

  function Prefixed(s: string, t: Option<string>): Option<string> {
    if t.None? then None else Some(s + t.value)
  }

  lemma FirstUnescaped(c: char, tail: string)
    ensures Unescaped(EscapedChar(c) + tail) == Prefixed([c], Unescaped(tail))
  {
    var first := EscapedChar(c);
    assert (first + tail)[|first|..] == tail;
  }

  /** Whatever follows the closing quote. */
  lemma {:induction false} UnescapedEscaped(s: string, rest: string)
    ensures Unescaped(Escaped(s) + [QUOTE] + rest) == Some(s)
  {
    hide EscapedChar;
    if s == "" {
      assert Escaped(s) + [QUOTE] + rest == [QUOTE] + rest;
    } else {
      var tail := Escaped(s[1..]) + [QUOTE] + rest;
      UnescapedEscaped(s[1..], rest);
      FirstUnescaped(s[0], tail);
      Grouped(EscapedChar(s[0]), Escaped(s[1..]), [QUOTE], rest);
      assert [s[0]] + s[1..] == s;
    }
  }

  lemma Grouped(s: string, t: string, u: string, v: string)
    ensures s + t + u + v == s + (t + u + v)
  {
  }

  // ----- Any text with backslashes -----

  /** The string s with a backslash before the marked characters, and a quote behind it. */
  function Marked(s: string, marks: seq<bool>, rest: string): string
    requires |marks| == |s|
  {
    if s == "" then [QUOTE] + rest
    else (if marks[0] then [BACKSLASH, s[0]] else [s[0]]) + Marked(s[1..], marks[1..], rest)
  }

  /** At least the quotes and backslashes are marked. */
  predicate SpecialsMarked(s: string, marks: seq<bool>)
    requires |marks| == |s|
  {
    forall k | 0 <= k < |s| && s[k] in [QUOTE, BACKSLASH] :: marks[k]
  }

  /** Whatever else is marked, unescaping gives the string back. */
  lemma {:induction false} MarkedIsUnescaped(s: string, marks: seq<bool>, rest: string)
    requires |marks| == |s| && SpecialsMarked(s, marks)
    ensures Unescaped(Marked(s, marks, rest)) == Some(s)
  {
    if s != "" {
      var t := Marked(s[1..], marks[1..], rest);
      MarkedIsUnescaped(s[1..], marks[1..], rest);
      FirstIsUnescaped(s[0], marks[0], t);
      assert [s[0]] + s[1..] == s;
    }
  }

  lemma FirstIsUnescaped(c: char, mark: bool, t: string)
    requires c in [QUOTE, BACKSLASH] ==> mark
    ensures Unescaped((if mark then [BACKSLASH, c] else [c]) + t) == Prefixed([c], Unescaped(t))
  {
    var first := if mark then [BACKSLASH, c] else [c];
    assert (first + t)[|first|..] == t;
  }

  /** And nothing else is unescaped to it. */
  lemma {:induction false} UnescapedIsMarked(t: string) returns (marks: seq<bool>, rest: string)
    requires Unescaped(t).Some?
    ensures var s := Unescaped(t).value; |marks| == |s| && SpecialsMarked(s, marks) && t == Marked(s, marks, rest)
    decreases |t|
  {
    if t[0] == QUOTE {
      marks, rest := [], t[1..];
    } else {
      var n := if t[0] == BACKSLASH then 2 else 1;
      marks, rest := UnescapedIsMarked(t[n..]);
      OneMoreMarked(t, n, marks, rest);
      marks := [n == 2] + marks;
    }
  }

  lemma OneMoreMarked(t: string, n: nat, marks: seq<bool>, rest: string)
    requires t != "" && t[0] != QUOTE && n == (if t[0] == BACKSLASH then 2 else 1) && n <= |t| && Unescaped(t[n..]).Some?
    requires var s := Unescaped(t[n..]).value;
      |marks| == |s| && SpecialsMarked(s, marks) && t[n..] == Marked(s, marks, rest)
    ensures Unescaped(t).Some?
    ensures var s, more := Unescaped(t).value, [n == 2] + marks;
      |more| == |s| && SpecialsMarked(s, more) && t == Marked(s, more, rest)
  {
    var s := Unescaped(t[n..]).value;
    var c := t[n - 1];
    assert Unescaped(t) == Some([c] + s);
    assert ([c] + s)[1..] == s && ([n == 2] + marks)[1..] == marks;
    assert t == t[..n] + t[n..];
  }

  /** Two strings are quoted differently. */
  lemma QuotedIsInjective(s: string, t: string)
    requires Quoted(s) == Quoted(t)
    ensures s == t
  {
    assert Quoted(s)[1..] == Escaped(s) + [QUOTE] + "" && Quoted(t)[1..] == Escaped(t) + [QUOTE] + "";
    UnescapedEscaped(s, "");
    UnescapedEscaped(t, "");
  }

  /** The number of characters to be escaped. */
  function Specials(s: string): nat {
    if s == "" then 0 else (if IsSpecial(s[0]) then 1 else 0) + Specials(s[1..])
  }

  lemma {:induction false} EscapedLength(s: string)
    ensures |Escaped(s)| == |s| + Specials(s)
  {
    if s != "" { EscapedLength(s[1..]); }
  }

  /** A backslash is added for every quote and every backslash, and nothing else. */
  lemma {:induction false} OnlyTwoAreEscaped(s: string)
    ensures |Escaped(s)| == |s| + multiset(s)['\"'] + multiset(s)['\\']
  {
    if s != "" {
      OnlyTwoAreEscaped(s[1..]);
      assert s == [s[0]] + s[1..];
    }
  }

  lemma {:induction false} EscapedSplit(s: string, t: string)
    ensures Escaped(s + t) == Escaped(s) + Escaped(t)
    ensures Specials(s + t) == Specials(s) + Specials(t)
  {
    if s == "" {
      assert s + t == t;
    } else {
      assert (s + t)[1..] == s[1..] + t;
      EscapedSplit(s[1..], t);
    }
  }

  lemma {:induction false} PlainStays(s: string)
    requires forall c | c in s :: !IsSpecial(c)
    ensures Escaped(s) == s && Specials(s) == 0
  {
    if s != "" {
      assert s[0] in s;
      PlainStays(s[1..]);
    }
  }

  // ----- sym_escape_string_value -----

  /** strcspn(p, "\"\\") for p at position i: how many plain characters come next. */
  method PlainLength(s: string, i: nat) returns (l: nat)
    requires i <= |s|
    ensures i + l <= |s|
    ensures forall c | c in s[i..i + l] :: !IsSpecial(c)
    ensures i + l < |s| ==> IsSpecial(s[i + l])
  {
    l := 0;
    while i + l < |s| && !IsSpecial(s[i + l])
      invariant i + l <= |s|
      invariant forall c | c in s[i..i + l] :: !IsSpecial(c)
    {
      assert s[i..i + l + 1] == s[i..i + l] + [s[i + l]];
      l := l + 1;
    }
  }

  /** One round of either loop has dealt with the next special character too. */
  lemma Chunk(s: string, i: nat, l: nat)
    requires i + l <= |s| && forall c | c in s[i..i + l] :: !IsSpecial(c)
    ensures Escaped(s[..i + l]) == Escaped(s[..i]) + s[i..i + l] && Specials(s[..i + l]) == Specials(s[..i])
    ensures i + l < |s| && IsSpecial(s[i + l]) ==>
      && Escaped(s[..i + l + 1]) == Escaped(s[..i + l]) + [BACKSLASH, s[i + l]]
      && Specials(s[..i + l + 1]) == Specials(s[..i + l]) + 1
  {
    assert s[..i + l] == s[..i] + s[i..i + l];
    EscapedSplit(s[..i], s[i..i + l]);
    PlainStays(s[i..i + l]);
    if i + l < |s| {
      assert s[..i + l + 1] == s[..i + l] + [s[i + l]];
      EscapedSplit(s[..i + l], [s[i + l]]);
      assert [s[i + l]][1..] == "";
    }
  }

  /** The first loop: the size of the buffer. */
  method BufferSize(s: string) returns (reslen: nat)
    ensures reslen == |Quoted(s)| + 1
  {
    reslen := |s| + 2 + 1;
    var p := 0;
    while true
      invariant p <= |s| && reslen == |s| + 3 + Specials(s[..p])
      decreases |s| - p
    {
      var l := PlainLength(s, p);
      Chunk(s, p, l);
      p := p + l;
      if p == |s| {
        break;
      }
      reslen := reslen + 1;
      p := p + 1;
    }
    assert s[..p] == s;
    EscapedLength(s);
  }

  /** The buffer holds the string t, with a NUL behind it. */
  ghost predicate Holds(a: array<char>, t: string)
    reads a
  {
    |t| < a.Length && a[..|t|] == t && a[|t|] == NUL
  }

  /** strncat(a, s, l), where n is the length of the string in the buffer. It must fit. */
  method Append(a: array<char>, n: nat, s: string, ghost t: string)
    requires Holds(a, t) && |t| == n && n + |s| < a.Length
    modifies a
    ensures Holds(a, t + s)
  {
    var i := 0;
    while i < |s|
      invariant i <= |s| && a[..n + i] == t + s[..i]
    {
      a[n + i] := s[i];
      i := i + 1;
    }
    assert s[..i] == s;
    a[n + i] := NUL;
  }

  /** The string in double quotes, with a backslash before every quote and backslash in
      it; the buffer is filled to the last character. */
  method Escape(s: string) returns (res: array<char>)
    ensures fresh(res) && res[..] == Quoted(s) + [NUL]
  {
    var reslen := BufferSize(s);
    res := new char[reslen];
    res[0] := NUL;
    Append(res, 0, [QUOTE], "");
    var n := EscapeInto(s, res);
    Append(res, n, [QUOTE], [QUOTE] + Escaped(s));
    assert res[..] == res[..|Quoted(s)|] + [NUL];
  }

  /** The buffer holds the quote and the first p characters, escaped: n characters. */
  ghost predicate Written(res: array<char>, s: string, p: nat, n: nat)
    requires p <= |s|
    reads res
  {
    Holds(res, [QUOTE] + Escaped(s[..p])) && n == 1 + |Escaped(s[..p])|
  }

  /** The second loop. */
  method EscapeInto(s: string, res: array<char>) returns (n: nat)
    requires Holds(res, "" + [QUOTE]) && res.Length == |Quoted(s)| + 1
    modifies res
    ensures Holds(res, [QUOTE] + Escaped(s)) && n == 1 + |Escaped(s)|
  {
    n := 1;
    var p := 0;
    assert [QUOTE] + Escaped(s[..p]) == "" + [QUOTE];
    while true
      invariant p <= |s| && Written(res, s, p, n)
      decreases |s| - p
    {
      var l := PlainLength(s, p);
      Chunk(s, p, l);
      EscapePlain(s, p, l, n, res);
      p, n := p + l, n + l;
      if p == |s| {
        break;
      }
      EscapeOne(s, p, n, res);
      p, n := p + 1, n + 2;
    }
    assert s[..p] == s;
  }

  lemma Fits(s: string, i: nat)
    requires i <= |s|
    ensures |Escaped(s[..i])| <= |Escaped(s)|
  {
    assert s == s[..i] + s[i..];
    EscapedSplit(s[..i], s[i..]);
  }

  method EscapePlain(s: string, p: nat, l: nat, n: nat, res: array<char>)
    requires p + l <= |s| && Written(res, s, p, n) && res.Length == |Quoted(s)| + 1
    requires Escaped(s[..p + l]) == Escaped(s[..p]) + s[p..p + l]
    modifies res
    ensures Written(res, s, p + l, n + l)
  {
    hide Escaped;
    Fits(s, p + l);
    Append(res, n, s[p..p + l], [QUOTE] + Escaped(s[..p]));
    assert [QUOTE] + Escaped(s[..p]) + s[p..p + l] == [QUOTE] + Escaped(s[..p + l]);
  }

  method EscapeOne(s: string, p: nat, n: nat, res: array<char>)
    requires p < |s| && Written(res, s, p, n) && res.Length == |Quoted(s)| + 1
    requires Escaped(s[..p + 1]) == Escaped(s[..p]) + [BACKSLASH, s[p]]
    modifies res
    ensures Written(res, s, p + 1, n + 2)
  {
    hide Escaped;
    Fits(s, p + 1);
    Append(res, n, [BACKSLASH], [QUOTE] + Escaped(s[..p]));
    Append(res, n + 1, [s[p]], [QUOTE] + Escaped(s[..p]) + [BACKSLASH]);
    assert [QUOTE] + Escaped(s[..p]) + [BACKSLASH] + [s[p]] == [QUOTE] + Escaped(s[..p + 1]);
  }

  // ----- The unescaping in conf_set_sym_val -----

  /** The string that starts at position i of a buffer. */
  function Text(a: seq<char>, i: nat): string
    requires i <= |a|
    decreases |a| - i
  {
    if i == |a| || a[i] == NUL then "" else [a[i]] + Text(a, i + 1)
  }

  /** There is a NUL at or behind position i. */
  predicate Terminated(a: seq<char>, i: nat)
    requires i <= |a|
  {
    i + |Text(a, i)| < |a|
  }

  lemma {:induction false} TextIs(a: seq<char>, i: nat)
    requires i <= |a|
    ensures var t := Text(a, i);
      && i + |t| <= |a| && t == a[i..i + |t|] && NUL !in t
      && (i + |t| < |a| ==> a[i + |t|] == NUL)
    decreases |a| - i
  {
    if i < |a| && a[i] != NUL { TextIs(a, i + 1); }
  }

  lemma {:induction false} TextIsUnique(a: seq<char>, i: nat, t: string)
    requires i + |t| < |a| && a[i..i + |t|] == t && NUL !in t && a[i + |t|] == NUL
    ensures Text(a, i) == t
    decreases |t|
  {
    if t != "" {
      assert a[i] == t[0] && t[0] in t;
      assert a[i + 1..i + 1 + |t[1..]|] == t[1..];
      TextIsUnique(a, i + 1, t[1..]);
    }
  }

  lemma PrefixedTwice(s: string, t: string, u: Option<string>)
    ensures Prefixed(s, Prefixed(t, u)) == Prefixed(s + t, u)
  {
    if u.Some? {
      assert s + (t + u.value) == s + t + u.value;
    }
  }

  lemma {:induction false} UnescapedPlain(s: string, t: string)
    requires forall c | c in s :: !IsSpecial(c)
    ensures Unescaped(s + t) == Prefixed(s, Unescaped(t))
  {
    if s == "" {
      assert s + t == t;
      assert Unescaped(t).Some? ==> s + Unescaped(t).value == Unescaped(t).value;
    } else {
      assert s[0] in s && (s + t)[0] == s[0] && (s + t)[1..] == s[1..] + t;
      UnescapedPlain(s[1..], t);
      if Unescaped(t).Some? {
        assert [s[0]] + (s[1..] + Unescaped(t).value) == s + Unescaped(t).value;
      }
    }
  }

  lemma TextFrom(a: seq<char>, i: nat, j: nat)
    requires i <= |a| && i <= j <= i + |Text(a, i)|
    ensures j <= |a| && Text(a, i) == a[i..j] + Text(a, j)
    decreases j - i
  {
    TextIs(a, i);
    if i < j {
      TextFrom(a, i + 1, j);
    }
  }

  /** strpbrk(p, "\"\\"): the next quote or backslash of the string, or else its end. */
  method FindSpecial(a: array<char>, p: nat) returns (q: nat)
    requires p < a.Length && Terminated(a[..], p)
    ensures p <= q < a.Length && q == p + |a[p..q]| <= p + |Text(a[..], p)|
    ensures NUL !in a[p..q] && forall c | c in a[p..q] :: !IsSpecial(c)
    ensures a[q] == NUL || IsSpecial(a[q])
  {
    TextIs(a[..], p);
    q := p;
    while a[q] != NUL && !IsSpecial(a[q])
      invariant p <= q <= p + |Text(a[..], p)| < a.Length
      invariant NUL !in a[p..q] && forall c | c in a[p..q] :: !IsSpecial(c)
      decreases a.Length - q
    {
      assert a[p..q + 1] == a[p..q] + [a[q]];
      assert q != p + |Text(a[..], p)|;
      q := q + 1;
    }
  }

  /** strlen. */
  method Length(a: array<char>, p: nat) returns (n: nat)
    requires p < a.Length && Terminated(a[..], p)
    ensures n == |Text(a[..], p)|
  {
    TextIs(a[..], p);
    assert forall k | 0 <= k < |Text(a[..], p)| :: a[p + k] == Text(a[..], p)[k] != NUL;
    n := 0;
    while a[p + n] != NUL
      invariant n <= |Text(a[..], p)| && p + |Text(a[..], p)| < a.Length
      decreases a.Length - n
    {
      assert n != |Text(a[..], p)|;
      n := n + 1;
    }
  }

  /** memmove(p, p + 1, n). */
  method MoveDown(a: array<char>, p: nat, n: nat)
    requires p + n < a.Length
    modifies a
    ensures a[..] == old(a[..p]) + old(a[p + 1..p + n + 1]) + old(a[p + n..])
  {
    forall k | p <= k < p + n {
      a[k] := a[k + 1];
    }
  }

  /** The character behind a backslash takes its place; a backslash at the very end is
      just dropped. */
  lemma Moved(a: seq<char>, b: seq<char>, p: nat)
    requires p < |a| && Terminated(a, p) && Text(a, p) != ""
    requires var n := |Text(a, p)|; p + n < |a| && b == a[..p] + a[p + 1..p + n + 1] + a[p + n..]
    ensures |b| == |a| && b[..p] == a[..p] && Terminated(b, p + 1)
    ensures var t := Text(a, p);
      if |t| == 1 then Text(b, p + 1) == "" else b[p] == t[1] && b[p] != NUL && Text(b, p + 1) == t[2..]
  {
    TextIs(a, p);
    var t := Text(a, p);
    var n := |t|;
    assert b[p + n] == a[p + n] == NUL;
    if n == 1 {
      TextIsUnique(b, p + 1, "");
    } else {
      assert b[p] == a[p + 1] == t[1] && t[1] in t;
      MovedRest(a, b, p, n);
      TextIsUnique(b, p + 1, t[2..]);
    }
  }

  lemma MovedRest(a: seq<char>, b: seq<char>, p: nat, n: nat)
    requires 2 <= n && p + n < |a| && b == a[..p] + a[p + 1..p + n + 1] + a[p + n..]
    ensures |b| == |a| && b[p + 1..p + n - 1] == a[p + 2..p + n] && b[p + n - 1] == a[p + n]
  {
    forall k | p + 1 <= k < p + n - 1 ensures b[k] == a[k + 1] {
      assert b[k] == a[p + 1..p + n + 1][k - p];
    }
  }

  /** What is left to do, when the string at start has been unescaped up to
      position p. The buffer was z at first. */
  ghost predicate Halfway(a: seq<char>, start: nat, p: nat, z: seq<char>) {
    && start <= p < |a| && |a| == |z| && a[..start] == z[..start] && Terminated(a, p)
    && Unescaped(Text(z, start)) == Prefixed(a[start..p], Unescaped(Text(a, p)))
    && (NUL !in a[start..p] || Text(a, p) == "")
  }

  lemma AtFirst(a: seq<char>, start: nat)
    requires start < |a| && Terminated(a, start)
    ensures Halfway(a, start, start, a)
  {
    var u := Unescaped(Text(a, start));
    assert a[start..start] == "";
    assert u.Some? ==> "" + u.value == u.value;
  }

  lemma Skip(a: seq<char>, start: nat, p: nat, q: nat, z: seq<char>)
    requires Halfway(a, start, p, z)
    requires p <= q <= p + |Text(a, p)| && q < |a|
    requires NUL !in a[p..q] && forall c | c in a[p..q] :: !IsSpecial(c)
    ensures Halfway(a, start, q, z) && |Text(a, q)| <= |Text(a, p)|
    ensures a[q] == NUL ==> Unescaped(Text(z, start)) == None
  {
    TextFrom(a, p, q);
    TextIs(a, q);
    UnescapedPlain(a[p..q], Text(a, q));
    PrefixedTwice(a[start..p], a[p..q], Unescaped(Text(a, q)));
    assert a[start..p] + a[p..q] == a[start..q];
    if Text(a, p) == "" { assert p == q; }
  }

  lemma Drop(a: seq<char>, b: seq<char>, start: nat, p: nat, z: seq<char>)
    requires Halfway(a, start, p, z) && a[p] == BACKSLASH
    requires var n := |Text(a, p)|; p + n < |a| && b == a[..p] + a[p + 1..p + n + 1] + a[p + n..]
    ensures Halfway(b, start, p + 1, z) && |Text(b, p + 1)| < |Text(a, p)|
  {
    var u := Text(a, p);
    Moved(a, b, p);
    TextIs(a, p);
    assert u[0] == BACKSLASH;
    assert b[start..p] == a[start..p];
    if |u| > 1 {
      assert Unescaped(u) == Prefixed([b[p]], Unescaped(Text(b, p + 1)));
      assert b[start..p + 1] == a[start..p] + [b[p]];
      PrefixedTwice(a[start..p], [b[p]], Unescaped(Text(b, p + 1)));
    }
  }

  lemma Close(a: seq<char>, b: seq<char>, start: nat, p: nat, z: seq<char>)
    requires Halfway(a, start, p, z) && a[p] == QUOTE && b == a[p := NUL]
    ensures b[..start] == z[..start] && Terminated(b, start) && Unescaped(Text(z, start)) == Some(Text(b, start))
  {
    TextIs(a, p);
    assert Text(a, p)[0] == QUOTE;
    assert a[start..p] + "" == a[start..p] == b[start..p];
    TextIsUnique(b, start, a[start..p]);
  }

  /** The loop after the opening quote: characters are moved down over the backslashes
      in the buffer itself, and the closing quote becomes the end of the string. */
  method Unescape(a: array<char>, start: nat) returns (found: bool)
    requires start < a.Length && Terminated(a[..], start)
    modifies a
    ensures a[..][..start] == old(a[..])[..start]
    ensures found ==> Terminated(a[..], start)
    ensures Unescaped(old(Text(a[..], start))) == if found then Some(Text(a[..], start)) else None
  {
    hide Unescaped, Text;
    ghost var z := a[..];
    var p2: nat := start;
    AtFirst(a[..], start);
    while true
      invariant Halfway(a[..], start, p2, z)
      decreases |Text(a[..], p2)|
    {
      var q := FindSpecial(a, p2);
      Skip(a[..], start, p2, q, z);
      p2 := q;
      if a[p2] == NUL {
        return false;
      }
      ghost var before := a[..];
      if a[p2] == QUOTE {
        a[p2] := NUL;
        Close(before, a[..], start, p2, z);
        return true;
      }
      var n := Length(a, p2);
      MoveDown(a, p2, n);
      Drop(before, a[..], start, p2, z);
      p2 := p2 + 1;
    }
  }

  /** What is read back in conf_set_sym_val after the quoted string has been copied into
      a line: the string itself. */
  lemma ReadBack(s: string, line: seq<char>, start: nat)
    requires NUL !in s
    requires start + |Quoted(s)| < |line| && line[start..start + |Quoted(s)|] == Quoted(s)
    requires line[start + |Quoted(s)|] == NUL
    ensures line[start] == QUOTE && Terminated(line, start + 1)
    ensures Unescaped(Text(line, start + 1)) == Some(s)
  {
    var t := Escaped(s) + [QUOTE];
    NulFree(s);
    assert Quoted(s) == [QUOTE] + t;
    assert line[start + 1..start + 1 + |t|] == Quoted(s)[1..] == t;
    TextIsUnique(line, start + 1, t);
    UnescapedEscaped(s, "");
    assert Escaped(s) + [QUOTE] + "" == t;
  }

  lemma {:induction false} NulFree(s: string)
    requires NUL !in s
    ensures NUL !in Escaped(s)
  {
    if s != "" { NulFree(s[1..]); }
  }

  /** Writing a string value and reading it again, in the buffer itself. */
  method EscapeThenUnescape(s: string) returns (res: array<char>, found: bool)
    requires NUL !in s
    ensures found && res.Length > 1 && Text(res[..], 1) == s
  {
    res := Escape(s);
    assert res[0] == QUOTE && res[0..0 + |Quoted(s)|] == Quoted(s);
    ReadBack(s, res[..], 0);
    found := Unescape(res, 1);
  }
}
