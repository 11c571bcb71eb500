/** HTML escaping (`esc`, script.js line 23) and its inverse. */
module Markup {
  import opened Strings

  /** The characters `esc` rewrites and that may therefore not appear raw in
      its output, `&` aside (it survives as the start of an entity). */
  predicate IsMarkupChar(c: char) {
    c == '<' || c == '>' || c == '"' || c == '\''
  }

  predicate NoRawMarkup(s: string) {
    forall i :: 0 <= i < |s| ==> !IsMarkupChar(s[i])
  }

  /** The fixed entity of each of `& < > " '`; every other character stands
      for itself. */
  function EscChar(c: char): string {
    if c == '&' then "&amp;"
    else if c == '<' then "&lt;"
    else if c == '>' then "&gt;"
    else if c == '"' then "&quot;"
    else if c == '\'' then "&#39;"
    else [c]
  }

  /** `esc`: every character replaced by `EscChar`, in order. */
  function Esc(s: string): (r: string)
    ensures NoRawMarkup(r)
    ensures |s| <= |r|
  {
    if s == [] then [] else EscChar(s[0]) + Esc(s[1..])
  }

  /** A text without `&` and markup characters is escaped as itself. */
  lemma {:induction false} EscPlain(s: string)
    requires forall i :: 0 <= i < |s| ==> s[i] != '&' && !IsMarkupChar(s[i])
    ensures Esc(s) == s
  {
    if s != [] {
      assert forall i :: 0 <= i < |s[1..]| ==> s[1..][i] == s[i + 1];
      EscPlain(s[1..]);
      assert s == [s[0]] + s[1..];
    }
  }

  /** Decodes the five entities `Esc` produces; anything else is copied. */
  function Unesc(s: string): string
    decreases |s|
  {
    if s == [] then []
    else if StartsWith(s, "&amp;") then "&" + Unesc(s[5..])
    else if StartsWith(s, "&lt;") then "<" + Unesc(s[4..])
    else if StartsWith(s, "&gt;") then ">" + Unesc(s[4..])
    else if StartsWith(s, "&quot;") then "\"" + Unesc(s[6..])
    else if StartsWith(s, "&#39;") then "'" + Unesc(s[5..])
    else [s[0]] + Unesc(s[1..])
  }

  /** Decoding undoes one escaped character. */
  lemma UnescEscChar(c: char, rest: string)
    ensures Unesc(EscChar(c) + rest) == [c] + Unesc(rest)
  {
    if c == '&' {
      UnescAmp(rest);
    } else if c == '<' {
      UnescLt(rest);
    } else if c == '>' {
      UnescGt(rest);
    } else if c == '"' {
      UnescQuot(rest);
    } else if c == '\'' {
      UnescApos(rest);
    } else {
      UnescPlain(c, rest);
    }
  }

  lemma UnescAmp(rest: string)
    ensures Unesc("&amp;" + rest) == "&" + Unesc(rest)
  {
    var t := "&amp;" + rest;
    assert t[..5] == "&amp;" && t[5..] == rest;
  }

  lemma UnescPlain(c: char, rest: string)
    requires c != '&'
    ensures Unesc([c] + rest) == [c] + Unesc(rest)
  {
    var t := [c] + rest;
    assert t[0] == c && t[1..] == rest;
    assert !StartsWith(t, "&amp;") && !StartsWith(t, "&lt;") && !StartsWith(t, "&gt;");
    assert !StartsWith(t, "&quot;") && !StartsWith(t, "&#39;");
  }

  lemma UnescLt(rest: string)
    ensures Unesc("&lt;" + rest) == "<" + Unesc(rest)
  {
    var t := "&lt;" + rest;
    assert t[..4] == "&lt;" && t[4..] == rest;
    assert t[1] == 'l' && !StartsWith(t, "&amp;");
  }

  lemma UnescGt(rest: string)
    ensures Unesc("&gt;" + rest) == ">" + Unesc(rest)
  {
    var t := "&gt;" + rest;
    assert t[..4] == "&gt;" && t[4..] == rest;
    assert t[1] == 'g' && !StartsWith(t, "&amp;") && !StartsWith(t, "&lt;");
  }

  lemma UnescQuot(rest: string)
    ensures Unesc("&quot;" + rest) == "\"" + Unesc(rest)
  {
    var t := "&quot;" + rest;
    assert t[..6] == "&quot;" && t[6..] == rest;
    assert t[1] == 'q' && !StartsWith(t, "&amp;") && !StartsWith(t, "&lt;") && !StartsWith(t, "&gt;");
  }

  lemma UnescApos(rest: string)
    ensures Unesc("&#39;" + rest) == "'" + Unesc(rest)
  {
    var t := "&#39;" + rest;
    assert t[..5] == "&#39;" && t[5..] == rest;
    assert t[1] == '#' && !StartsWith(t, "&amp;") && !StartsWith(t, "&lt;") && !StartsWith(t, "&gt;") && !StartsWith(t, "&quot;");
  }

  /** Escaping loses nothing: decoding the escaped text gives the text back. */
  lemma {:induction false} UnescEsc(s: string)
    ensures Unesc(Esc(s)) == s
  {
    if s != [] {
      UnescEscChar(s[0], Esc(s[1..]));
      UnescEsc(s[1..]);
    }
  }

  /** Escaping is injective: two texts with the same escaped form are equal. */
  lemma EscInjective(s: string, t: string)
    requires Esc(s) == Esc(t)
    ensures s == t
  {
    UnescEsc(s);
    UnescEsc(t);
  }
}
