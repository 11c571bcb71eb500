/** `norm` (script.js line 22): canonical decomposition with the combining
    marks U+0300..U+036F removed, then lower case, then `trim`.

    Decomposition is modelled for the precomposed Latin-1 letters (U+00C0 to
    U+00FF), which is what Spanish text needs: for each of them,
    decomposing and dropping the marks leaves the base letter. Lower case is
    modelled for ASCII and Latin-1. */
module Normalize {
  import opened Strings

  predicate IsCombiningMark(c: char) {
    '\U{300}' <= c <= '\U{36F}'
  }

  /** The base letter left by decomposing `c` and removing its marks. */
  function BaseLetter(c: char): char {
    if '\U{C0}' <= c <= '\U{C5}' then 'A'
    else if c == '\U{C7}' then 'C'
    else if '\U{C8}' <= c <= '\U{CB}' then 'E'
    else if '\U{CC}' <= c <= '\U{CF}' then 'I'
    else if c == '\U{D1}' then 'N'
    else if '\U{D2}' <= c <= '\U{D6}' then 'O'
    else if '\U{D9}' <= c <= '\U{DC}' then 'U'
    else if c == '\U{DD}' then 'Y'
    else if '\U{E0}' <= c <= '\U{E5}' then 'a'
    else if c == '\U{E7}' then 'c'
    else if '\U{E8}' <= c <= '\U{EB}' then 'e'
    else if '\U{EC}' <= c <= '\U{EF}' then 'i'
    else if c == '\U{F1}' then 'n'
    else if '\U{F2}' <= c <= '\U{F6}' then 'o'
    else if '\U{F9}' <= c <= '\U{FC}' then 'u'
    else if c == '\U{FD}' || c == '\U{FF}' then 'y'
    else c
  }

  /** `toLowerCase` on ASCII and on the Latin-1 capitals (U+00D7 is the
      multiplication sign, which has no case). */
  function LowerChar(c: char): char {
    if 'A' <= c <= 'Z' || ('\U{C0}' <= c <= '\U{DE}' && c != '\U{D7}') then
      (c as int + 32) as char
    else c
  }

  /** A character that `norm` leaves as it is. */
  predicate IsNormalChar(c: char) {
    !IsCombiningMark(c) && BaseLetter(c) == c && LowerChar(c) == c
  }

  predicate AllNormal(s: string) {
    forall i :: 0 <= i < |s| ==> IsNormalChar(s[i])
  }

  /** Decompose, drop the marks and lower-case, character by character. */
  function FoldLower(s: string): (r: string)
    ensures |r| <= |s|
  {
    if s == [] then []
    else if IsCombiningMark(s[0]) then FoldLower(s[1..])
    else [LowerChar(BaseLetter(s[0]))] + FoldLower(s[1..])
  }

  /** `norm` on a string. */
  function Norm(s: string): (r: string)
    ensures r == [] || (!IsSpace(r[0]) && !IsSpace(r[|r| - 1]))
  {
    Trim(FoldLower(s))
  }

  /** Folding leaves only characters that folding keeps as they are. */
  lemma {:induction false} FoldLowerNormal(s: string)
    ensures AllNormal(FoldLower(s))
  {
    if s != [] {
      FoldLowerNormal(s[1..]);
    }
  }

  /** So does `norm`, trimming only removing characters. */
  lemma NormNormal(s: string)
    ensures AllNormal(Norm(s))
  {
    var f := FoldLower(s);
    FoldLowerNormal(s);
    forall i | 0 <= i < |Norm(s)| ensures IsNormalChar(Norm(s)[i]) {
      assert Norm(s)[i] in f;
    }
  }

  lemma {:induction false} FoldLowerFixes(s: string)
    requires AllNormal(s)
    ensures FoldLower(s) == s
  {
    if s != [] {
      FoldLowerFixes(s[1..]);
    }
  }

  /** On unaccented letters and spaces, folding only lowers the case. */
  lemma {:induction false} FoldLowerPlain(s: string)
    requires forall i :: 0 <= i < |s| ==> 'A' <= s[i] <= 'Z' || 'a' <= s[i] <= 'z' || s[i] == ' '
    ensures |FoldLower(s)| == |s|
    ensures forall i :: 0 <= i < |s| ==> FoldLower(s)[i] == LowerChar(s[i])
  {
    if s != [] {
      FoldLowerPlain(s[1..]);
    }
  }

  /** `norm` of a text of unaccented letters and spaces, with no space at
      either end, is the text in lower case. */
  lemma LowerWord(s: string, t: string)
    requires |s| == |t|
    requires forall i :: 0 <= i < |s| ==> 'A' <= s[i] <= 'Z' || 'a' <= s[i] <= 'z' || s[i] == ' '
    requires forall i :: 0 <= i < |s| ==> t[i] == LowerChar(s[i])
    requires t != [] && t[0] != ' ' && t[|t| - 1] != ' '
    ensures Norm(s) == t
  {
    FoldLowerPlain(s);
    assert FoldLower(s) == t;
  }

  /** A text of lower-case letters without accents and without surrounding
      white space is its own normal form. */
  lemma NormalFixed(s: string)
    requires forall i :: 0 <= i < |s| ==> 'a' <= s[i] <= 'z' || s[i] == ' '
    requires s != [] && s[0] != ' ' && s[|s| - 1] != ' '
    ensures Norm(s) == s
  {
    forall i | 0 <= i < |s| ensures IsNormalChar(s[i]) {
      PlainLowerNormal(s[i]);
    }
    FoldLowerFixes(s);
    assert !IsSpace(s[0]) && !IsSpace(s[|s| - 1]);
  }

  lemma PlainLowerNormal(c: char)
    requires 'a' <= c <= 'z' || c == ' '
    ensures IsNormalChar(c)
  {
  }

  /** Normalising twice is normalising once. */
  lemma NormIdempotent(s: string)
    ensures Norm(Norm(s)) == Norm(s)
  {
    var n := Norm(s);
    NormNormal(s);
    FoldLowerFixes(n);
  }

  /** `norm` never yields an accented Latin-1 letter; so a header compared
      with a literal holding one (`'fecha límite'`) never matches. */
  lemma NormHasNoAccentedLetter(s: string, i: nat)
    requires i < |Norm(s)|
    ensures BaseLetter(Norm(s)[i]) == Norm(s)[i]
  {
    NormNormal(s);
  }

  /** Folding works character by character. */
  lemma {:induction false} FoldLowerAppend(a: string, b: string)
    ensures FoldLower(a + b) == FoldLower(a) + FoldLower(b)
    decreases |a|
  {
    if a == [] {
      assert a + b == b;
    } else {
      assert (a + b)[1..] == a[1..] + b;
      FoldLowerAppend(a[1..], b);
    }
  }

  /** Folding keeps white space. */
  lemma SpacesFixed(w: string)
    requires AllSpace(w)
    ensures FoldLower(w) == w
  {
    forall k | 0 <= k < |w| ensures IsNormalChar(w[k]) {
      assert IsSpace(w[k]);
    }
    FoldLowerFixes(w);
  }

  /** White space around a text does not change its normal form, so
      `norm('Responsable ')` is `norm('responsable')`. */
  lemma NormIgnoresSurroundingSpace(w1: string, s: string, w2: string)
    requires AllSpace(w1) && AllSpace(w2)
    ensures Norm(w1 + s + w2) == Norm(s)
  {
    FoldLowerAppend(w1 + s, w2);
    FoldLowerAppend(w1, s);
    SpacesFixed(w1);
    SpacesFixed(w2);
    TrimSpaces(w1, FoldLower(s), w2);
  }

  /** A single character other than white space and a combining mark
      normalises to its lower-case base letter: `norm('Á')` is `'a'`,
      `norm('Ñ')` is `'n'`. */
  lemma NormOneLetter(c: char)
    requires !IsSpace(c) && !IsCombiningMark(c)
    ensures Norm([c]) == [LowerChar(BaseLetter(c))]
  {
    assert [c][1..] == [];
    assert FoldLower([c]) == [LowerChar(BaseLetter(c))];
  }
}
