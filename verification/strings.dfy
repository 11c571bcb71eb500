/** Character classes, trimming, prefix and substring tests, and decimal
    digits, as the dashboard's JavaScript uses them: `String.prototype.trim`,
    `startsWith`, `includes`, the regex classes `\s` and `\d`, and the
    decimal text of a number. */
module Strings {

  /** JavaScript's WhiteSpace and LineTerminator code points: what `trim`
      strips and what the regex class `\s` matches. */
  predicate IsSpace(c: char) {
    c == '\t' || c == '\n' || c == '\U{B}' || c == '\U{C}' || c == '\r' || c == ' '
    || c == '\U{A0}' || c == '\U{1680}' || ('\U{2000}' <= c <= '\U{200A}')
    || c == '\U{2028}' || c == '\U{2029}' || c == '\U{202F}' || c == '\U{205F}'
    || c == '\U{3000}' || c == '\U{FEFF}'
  }

  /** Drops the leading white space. */
  function TrimStart(s: string): (r: string)
    ensures |r| <= |s|
    ensures r == [] || !IsSpace(r[0])
    ensures forall i :: 0 <= i < |s| - |r| ==> IsSpace(s[i])
  {
    if s != [] && IsSpace(s[0]) then TrimStart(s[1..]) else s
  }

  /** What is left is the rest of `s`. */
  lemma {:induction false} TrimStartIsSuffix(s: string)
    ensures TrimStart(s) == s[|s| - |TrimStart(s)|..]
  {
    if s != [] && IsSpace(s[0]) {
      TrimStartIsSuffix(s[1..]);
    }
  }

  /** Drops the trailing white space. */
  function TrimEnd(s: string): (r: string)
    ensures |r| <= |s|
    ensures r == [] || !IsSpace(r[|r| - 1])
    ensures forall i :: |r| <= i < |s| ==> IsSpace(s[i])
  {
    if s != [] && IsSpace(s[|s| - 1]) then TrimEnd(s[..|s| - 1]) else s
  }

  /** What is left is the start of `s`. */
  lemma {:induction false} TrimEndIsPrefix(s: string)
    ensures TrimEnd(s) == s[..|TrimEnd(s)|]
  {
    if s != [] && IsSpace(s[|s| - 1]) {
      TrimEndIsPrefix(s[..|s| - 1]);
    }
  }

  /** `String.prototype.trim`: the longest infix of `s` that neither starts
      nor ends with white space, obtained by removing white space only. */
  function Trim(s: string): (r: string)
    ensures |r| <= |s|
    ensures r == [] || (!IsSpace(r[0]) && !IsSpace(r[|r| - 1]))
    ensures forall c :: c in r ==> c in s
    ensures (s == [] || (!IsSpace(s[0]) && !IsSpace(s[|s| - 1]))) ==> r == s
    ensures exists i, j :: TrimmedAt(s, r, i, j)
  {
    var a := TrimStart(s);
    var r := TrimEnd(a);
    TrimStartIsSuffix(s);
    TrimEndIsPrefix(a);
    assert forall c :: c in r ==> c in a;
    assert forall c :: c in a ==> c in s;
    TrimEndOfStart(s);
    r
  }

  /** Trimming the end of the trimmed start cuts white space only. */
  lemma TrimEndOfStart(s: string)
    ensures var a := TrimStart(s);
            TrimmedAt(s, TrimEnd(a), |s| - |a|, |s| - |a| + |TrimEnd(a)|)
  {
    var a := TrimStart(s);
    TrimStartIsSuffix(s);
    TrimEndIsPrefix(a);
    CutBothEnds(s, a, TrimEnd(a), |s| - |a|);
  }

  /** Cutting white space from the end of what is left after cutting
      white space from the start leaves a slice with white space only
      outside it. */
  lemma CutBothEnds(s: string, a: string, r: string, i: nat)
    requires i <= |s| && a == s[i..] && |r| <= |a| && r == a[..|r|]
    requires forall k :: 0 <= k < i ==> IsSpace(s[k])
    requires forall k :: |r| <= k < |a| ==> IsSpace(a[k])
    ensures TrimmedAt(s, r, i, i + |r|)
  {
    assert r == s[i..i + |r|];
    forall k | i + |r| <= k < |s| ensures IsSpace(s[k]) {
      assert s[k] == a[k - i];
    }
  }

  /** `r` is `s[i..j]`, and only white space lies outside it. */
  predicate TrimmedAt(s: string, r: string, i: nat, j: nat) {
    && i <= j <= |s|
    && r == s[i..j]
    && (forall k :: 0 <= k < i ==> IsSpace(s[k]))
    && (forall k :: j <= k < |s| ==> IsSpace(s[k]))
  }

  predicate AllSpace(w: string) {
    forall k :: 0 <= k < |w| ==> IsSpace(w[k])
  }

  /** White space in front of a text is trimmed away entirely. */
  lemma {:induction false} TrimStartSpaces(w: string, y: string)
    requires AllSpace(w)
    ensures TrimStart(w + y) == TrimStart(y)
    decreases |w|
  {
    if w == [] {
      assert w + y == y;
    } else {
      assert (w + y)[1..] == w[1..] + y;
      TrimStartSpaces(w[1..], y);
    }
  }

  /** White space after a text is trimmed away entirely. */
  lemma {:induction false} TrimEndSpaces(y: string, w: string)
    requires AllSpace(w)
    ensures TrimEnd(y + w) == TrimEnd(y)
    decreases |w|
  {
    if w == [] {
      assert y + w == y;
    } else {
      var n := |w| - 1;
      assert (y + w)[..|y + w| - 1] == y + w[..n];
      TrimEndSpaces(y, w[..n]);
    }
  }

  lemma {:induction false} TrimStartThenSpaces(x: string, w: string)
    requires AllSpace(w)
    ensures TrimEnd(TrimStart(x + w)) == TrimEnd(TrimStart(x))
    decreases |x|
  {
    if x == [] {
      assert x + w == w + [];
      TrimStartSpaces(w, []);
    } else if IsSpace(x[0]) {
      assert (x + w)[1..] == x[1..] + w;
      TrimStartThenSpaces(x[1..], w);
    } else {
      TrimEndSpaces(x, w);
    }
  }

  /** `trim` ignores white space added at either end. */
  lemma TrimSpaces(w1: string, x: string, w2: string)
    requires AllSpace(w1) && AllSpace(w2)
    ensures Trim(w1 + x + w2) == Trim(x)
  {
    assert w1 + x + w2 == w1 + (x + w2);
    TrimStartSpaces(w1, x + w2);
    TrimStartThenSpaces(x, w2);
  }

  /** A text is its prefix followed by the rest. */
  lemma SplitAt(s: string, m: nat)
    requires m <= |s|
    ensures s[..m] + s[m..] == s
  {
  }

  /** A prefix grown by the next element. */
  lemma TakeOneMore<T>(s: seq<T>, i: nat)
    requires i < |s|
    ensures s[..i] + [s[i]] == s[..i + 1]
  {
  }

  lemma ConcatAssoc(a: string, b: string, c: string)
    ensures (a + b) + c == a + (b + c)
  {
  }

  predicate StartsWith(s: string, prefix: string) {
    |prefix| <= |s| && s[..|prefix|] == prefix
  }

  predicate EndsWith(s: string, suffix: string) {
    |suffix| <= |s| && s[|s| - |suffix|..] == suffix
  }

  /** `String.prototype.includes`: `t` occurs in `s` at some position. */
  predicate Contains(s: string, t: string)
    decreases |s|
  {
    StartsWith(s, t) || (s != [] && Contains(s[1..], t))
  }

  lemma {:induction false} ContainsAt(s: string, t: string, i: nat)
    requires i + |t| <= |s| && s[i..i + |t|] == t
    ensures Contains(s, t)
    decreases i
  {
    if i > 0 {
      assert s[1..][i - 1..i - 1 + |t|] == s[i..i + |t|];
      ContainsAt(s[1..], t, i - 1);
    }
  }

  lemma {:induction false} ContainsWitness(s: string, t: string) returns (i: nat)
    requires Contains(s, t)
    ensures i + |t| <= |s| && s[i..i + |t|] == t
    decreases |s|
  {
    if StartsWith(s, t) {
      i := 0;
    } else {
      var j := ContainsWitness(s[1..], t);
      assert s[1..][j..j + |t|] == s[j + 1..j + 1 + |t|];
      i := j + 1;
    }
  }

  // ---------- Decimal digits (the regex class \d is ASCII only) ----------

  predicate IsDigit(c: char) {
    '0' <= c <= '9'
  }

  predicate AllDigits(s: string) {
    forall i :: 0 <= i < |s| ==> IsDigit(s[i])
  }

  function DigitValue(c: char): (d: nat)
    requires IsDigit(c)
    ensures d < 10
  {
    c as int - '0' as int
  }

  function DigitChar(d: nat): (c: char)
    requires d < 10
    ensures IsDigit(c) && DigitValue(c) == d
  {
    ('0' as int + d) as char
  }

  /** Length of the maximal run of digits that `s` starts with. */
  function RunLen(s: string): (n: nat)
    ensures n <= |s|
    ensures forall i :: 0 <= i < n ==> IsDigit(s[i])
    ensures n < |s| ==> !IsDigit(s[n])
  {
    if s != [] && IsDigit(s[0]) then 1 + RunLen(s[1..]) else 0
  }

  lemma {:induction false} RunLenOfDigitsThen(d: string, rest: string)
    requires AllDigits(d)
    requires rest == [] || !IsDigit(rest[0])
    ensures RunLen(d + rest) == |d|
    decreases |d|
  {
    if d != [] {
      assert (d + rest)[1..] == d[1..] + rest;
      RunLenOfDigitsThen(d[1..], rest);
    } else {
      assert d + rest == rest;
    }
  }

  /** The number a digit string denotes (unary `+` on such a string). */
  function Value(s: string): nat
    requires AllDigits(s)
  {
    if s == [] then 0 else Value(s[..|s| - 1]) * 10 + DigitValue(s[|s| - 1])
  }

  function Pow10(n: nat): (p: nat)
    ensures p >= 1
  {
    if n == 0 then 1 else 10 * Pow10(n - 1)
  }

  /** The last `w` decimal digits of `n`, zero-padded on the left. */
  function Pad(n: nat, w: nat): (r: string)
    ensures |r| == w && AllDigits(r)
  {
    if w == 0 then [] else Pad(n / 10, w - 1) + [DigitChar(n % 10)]
  }

  lemma {:induction false} PadValue(n: nat, w: nat)
    requires n < Pow10(w)
    ensures Value(Pad(n, w)) == n
  {
    if w > 0 {
      var p := Pad(n / 10, w - 1);
      assert Pad(n, w)[..w - 1] == p;
      assert n / 10 < Pow10(w - 1);
      PadValue(n / 10, w - 1);
    }
  }

  /** Two digits read back as the number written. */
  lemma PadTwoValue(n: nat)
    requires n < 100
    ensures Value(Pad(n, 2)) == n
  {
    assert Pow10(2) == 100;
    PadValue(n, 2);
  }

  /** Four digits read back as the number written. */
  lemma PadFourValue(n: nat)
    requires n < 10000
    ensures Value(Pad(n, 4)) == n
  {
    assert Pow10(4) == 10000;
    PadValue(n, 4);
  }

  /** Decimal text of a natural number, without leading zeros. */
  function NatToString(n: nat): (r: string)
    ensures r != [] && AllDigits(r)
  {
    if n < 10 then [DigitChar(n)] else NatToString(n / 10) + [DigitChar(n % 10)]
  }

  lemma {:induction false} NatToStringValue(n: nat)
    ensures Value(NatToString(n)) == n
  {
    if n >= 10 {
      var p := NatToString(n / 10);
      assert NatToString(n)[..|NatToString(n)| - 1] == p;
      NatToStringValue(n / 10);
    }
  }

  /** `String(n)` for an integer number value. */
  function IntToString(n: int): (r: string)
    ensures r != []
  {
    if n < 0 then "-" + NatToString(-n) else NatToString(n)
  }
}
