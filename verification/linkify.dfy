/** `linkify` (script.js lines 184-192): every URL in a text becomes an
    anchor whose target and label are the escaped URL; the text between
    the URLs is copied as it is, without escaping.

    The URL pattern `https?:\/\/[^\s<>"]+[^<>)\s"']` is searched from the
    left; at each position the engine prefers the `s` and then the longest
    body, and after a match the search resumes right after it. */
module Links {
  import opened Strings
  import opened Values
  import opened Markup

  /** The characters `[^\s<>"]` excludes from the body of a URL. */
  predicate BadBody(c: char) {
    IsSpace(c) || c == '<' || c == '>' || c == '"'
  }

  /** The characters `[^<>)\s"']` excludes from the last character. */
  predicate BadEnd(c: char) {
    BadBody(c) || c == ')' || c == '\''
  }

  /** Length of the `https?://` prefix of `s`, 0 when there is none. */
  function SchemeLen(s: string): (n: nat)
    ensures n == 0 || n == 7 || n == 8
    ensures n <= |s|
  {
    if StartsWith(s, "https://") then 8
    else if StartsWith(s, "http://") then 7
    else 0
  }

  /** A whole URL as the pattern describes it: the scheme, at least one
      body character and a last character that may end a URL. */
  predicate UrlShape(u: string) {
    && SchemeLen(u) > 0
    && SchemeLen(u) + 2 <= |u|
    && (forall i :: SchemeLen(u) <= i < |u| - 1 ==> !BadBody(u[i]))
    && !BadEnd(u[|u| - 1])
  }

  /** Length of the maximal prefix of characters the body admits. */
  function BodyRun(s: string): (n: nat)
    ensures n <= |s|
  {
    if s != [] && !BadBody(s[0]) then 1 + BodyRun(s[1..]) else 0
  }

  /** The run holds only body characters and stops at the first one that
      is not. */
  lemma {:induction false} BodyRunMaximal(s: string)
    ensures forall i :: 0 <= i < BodyRun(s) ==> !BadBody(s[i])
    ensures BodyRun(s) < |s| ==> BadBody(s[BodyRun(s)])
  {
    if s != [] && !BadBody(s[0]) {
      BodyRunMaximal(s[1..]);
      forall i | 1 <= i < BodyRun(s) ensures !BadBody(s[i]) {
        assert s[i] == s[1..][i - 1];
      }
      assert BodyRun(s) < |s| ==> s[BodyRun(s)] == s[1..][BodyRun(s[1..])];
    }
  }

  /** The largest `j` with `1 <= j < n` such that `s[j]` may end a URL, or
      0 when there is none: where the greedy body gives back characters
      until the last one fits. */
  function LastEnd(s: string, n: nat): (j: nat)
    requires n <= |s|
    ensures j == 0 || (1 <= j < n && !BadEnd(s[j]))
  {
    if n <= 1 then 0
    else if !BadEnd(s[n - 1]) then n - 1
    else LastEnd(s, n - 1)
  }

  /** No character after it, up to `n`, may end a URL. */
  lemma {:induction false} LastEndIsLast(s: string, n: nat)
    requires n <= |s|
    ensures forall k :: LastEnd(s, n) < k < n && 1 <= k ==> BadEnd(s[k])
  {
    if n > 1 && BadEnd(s[n - 1]) {
      LastEndIsLast(s, n - 1);
    }
  }

  lemma SchemeOfPrefix(s: string, m: nat)
    requires 8 <= m <= |s|
    ensures SchemeLen(s[..m]) == SchemeLen(s)
  {
    assert s[..m][..8] == s[..8];
    assert s[..m][..7] == s[..7];
  }

  /** The last character of a URL at the start of `s` lies inside the run
      of body characters after the scheme, and may end a URL. */
  lemma UrlWithinBody(s: string, m: nat)
    requires SchemeLen(s) > 0 && m <= |s| && UrlShape(s[..m])
    ensures var e := m - 1 - SchemeLen(s);
            1 <= e < BodyRun(s[SchemeLen(s)..]) && !BadEnd(s[SchemeLen(s)..][e])
  {
    SchemeOfPrefix(s, m);
    var k := SchemeLen(s);
    var rest := s[k..];
    var e := m - 1 - k;
    BodyRunMaximal(rest);
    forall i | 0 <= i < e ensures !BadBody(rest[i]) {
      assert rest[i] == s[..m][k + i];
    }
    assert rest[e] == s[..m][m - 1];
  }

  /** Length of the URL the pattern matches at the start of `s`, 0 when it
      matches none there. */
  function UrlLen(s: string): (n: nat)
    ensures n <= |s|
    ensures n > 0 ==> UrlShape(s[..n])
  {
    var k := SchemeLen(s);
    if k == 0 then 0
    else
      var rest := s[k..];
      var j := LastEnd(rest, BodyRun(rest));
      if j == 0 then 0
      else
        assert UrlShape(s[..k + j + 1]) by {
          var u := s[..k + j + 1];
          SchemeOfPrefix(s, k + j + 1);
          BodyRunMaximal(rest);
          forall i | k <= i < |u| - 1 ensures !BadBody(u[i]) {
            assert u[i] == rest[i - k];
          }
          assert u[|u| - 1] == rest[j];
        }
        k + j + 1
  }

  /** The match is the longest prefix that is a URL. */
  lemma UrlLenLongest(s: string)
    ensures forall m :: UrlLen(s) < m <= |s| ==> !UrlShape(s[..m])
  {
    var k := SchemeLen(s);
    if k > 0 {
      LastEndIsLast(s[k..], BodyRun(s[k..]));
    }
    forall m | UrlLen(s) < m <= |s| && UrlShape(s[..m])
      ensures false
    {
      SchemeOfPrefix(s, m);
      UrlWithinBody(s, m);
    }
  }

  /** The text cut into the pieces the global replace sees: single
      characters copied as they are and the URLs it rewrites. */
  datatype Piece = Plain(c: char) | Link(url: string)

  /** How much of the text its first piece takes: the URL it starts with,
      or one character. */
  function FirstPieceLen(s: string): (m: nat)
    requires s != []
    ensures 0 < m <= |s|
  {
    if UrlLen(s) == 0 then 1 else UrlLen(s)
  }

  /** The first piece of a non-empty text, which gives back the text it
      takes. */
  function FirstPiece(s: string): (p: Piece)
    requires s != []
    ensures PieceText(p) == s[..FirstPieceLen(s)]
    ensures p.Link? <==> UrlLen(s) > 0
  {
    var n := UrlLen(s);
    if n == 0 then Plain(s[0]) else Link(s[..n])
  }

  function Pieces(s: string): (ps: seq<Piece>)
    decreases |s|
  {
    if s == [] then [] else [FirstPiece(s)] + Pieces(s[FirstPieceLen(s)..])
  }

  /** Every piece that becomes an anchor is a whole URL. */
  lemma {:induction false} PiecesAreUrls(s: string)
    ensures forall i :: 0 <= i < |Pieces(s)| && Pieces(s)[i].Link? ==> UrlShape(Pieces(s)[i].url)
    decreases |s|
  {
    if s != [] {
      var m := if UrlLen(s) == 0 then 1 else UrlLen(s);
      PiecesAreUrls(s[m..]);
      var ps := Pieces(s);
      assert ps[1..] == Pieces(s[m..]);
      forall i | 1 <= i < |ps| && ps[i].Link? ensures UrlShape(ps[i].url) {
        assert ps[i] == Pieces(s[m..])[i - 1];
      }
    }
  }

  /** The text a piece was cut from. */
  function PieceText(p: Piece): string {
    match p
    case Plain(c) => [c]
    case Link(u) => u
  }

  /** The text a sequence of pieces was cut from. */
  function Join(ps: seq<Piece>): string {
    if ps == [] then [] else PieceText(ps[0]) + Join(ps[1..])
  }

  lemma JoinCons(p: Piece, ps: seq<Piece>)
    ensures Join([p] + ps) == PieceText(p) + Join(ps)
  {
    assert ([p] + ps)[1..] == ps;
  }

  /** The anchor a URL becomes. */
  function Anchor(u: string): string {
    "<a href=\"" + Esc(u) + "\" target=\"_blank\" rel=\"noopener\">" + Esc(u) + "</a>"
  }

  /** The replaced text: plain characters as they are, URLs as anchors. */
  function Render(ps: seq<Piece>): (r: string)
    ensures |Join(ps)| <= |r|
  {
    if ps == [] then []
    else (match ps[0] case Plain(c) => [c] case Link(u) => Anchor(u)) + Render(ps[1..])
  }

  /** `linkify(text)`: `''` for an empty (or null) value, otherwise every
      URL replaced by its anchor. */
  function Linkify(v: Cell): (r: string)
    ensures r == [] <==> StrNullish(v) == []
  {
    var s := StrNullish(v);
    if s == [] then [] else
      JoinPieces(s);
      Render(Pieces(s))
  }

  /** The pieces put back together are the text: nothing is lost, added or
      reordered. */
  lemma {:induction false} JoinPieces(s: string)
    ensures Join(Pieces(s)) == s
    decreases |s|
  {
    if s != [] {
      var m := FirstPieceLen(s);
      JoinPieces(s[m..]);
      JoinStep(s);
    }
  }

  /** The first piece gives back the first character, or the URL the text
      starts with, so the whole text comes back when the rest does. */
  lemma JoinStep(s: string)
    requires s != []
    requires Join(Pieces(s[FirstPieceLen(s)..])) == s[FirstPieceLen(s)..]
    ensures Join(Pieces(s)) == s
  {
    var m := FirstPieceLen(s);
    JoinCons(FirstPiece(s), Pieces(s[m..]));
    SplitAt(s, m);
  }

  /** A URL followed by a character that may not continue it (or by
      nothing) is matched whole. */
  lemma UrlThenStop(u: string, rest: string)
    requires UrlShape(u)
    requires rest == [] || BadBody(rest[0])
    ensures UrlLen(u + rest) == |u|
  {
    var s := u + rest;
    assert s[..|u|] == u;
    UrlLenLongest(s);
    forall m | |u| < m <= |s|
      ensures !UrlShape(s[..m])
    {
      SchemeOfPrefix(s, m);
      SchemeOfPrefix(s, |u|);
      if m - 1 == |u| {
        assert s[..m][m - 1] == rest[0];
      } else {
        assert s[..m][|u|] == rest[0];
      }
    }
  }

  /** Such a URL becomes exactly one anchor, and the rest of the text is
      processed on its own. */
  lemma LinkAtStart(u: string, rest: string)
    requires UrlShape(u)
    requires rest == [] || BadBody(rest[0])
    ensures Pieces(u + rest) == [Link(u)] + Pieces(rest)
    ensures Render(Pieces(u + rest)) == Anchor(u) + Render(Pieces(rest))
  {
    UrlThenStop(u, rest);
    assert (u + rest)[..|u|] == u && (u + rest)[|u|..] == rest;
    assert ([Link(u)] + Pieces(rest))[1..] == Pieces(rest);
  }

  /** A text that is one URL is rendered as its anchor. */
  lemma LinkifyUrl(u: string)
    requires UrlShape(u)
    ensures Linkify(Text(u)) == Anchor(u)
  {
    LinkAtStart(u, []);
    assert u + [] == u;
  }

  /** No URL starts at position `i` of `s`. */
  predicate NoUrlAt(s: string, i: nat) {
    i <= |s| && UrlLen(s[i..]) == 0
  }

  /** Where no URL starts, the text is copied character by character. */
  lemma {:induction false} NoUrlIdentity(s: string)
    requires forall i :: 0 <= i < |s| ==> NoUrlAt(s, i)
    ensures Render(Pieces(s)) == s
    decreases |s|
  {
    if s != [] {
      assert NoUrlAt(s, 0) && s[0..] == s;
      forall i | 0 <= i < |s[1..]| ensures NoUrlAt(s[1..], i) {
        assert NoUrlAt(s, i + 1) && s[1..][i..] == s[i + 1..];
      }
      NoUrlIdentity(s[1..]);
      SplitAt(s, 1);
    }
  }

  /** A text without `http://` or `https://` anywhere is returned as it
      stands, any markup in it included. */
  lemma LinkifyWithoutScheme(s: string)
    requires forall i :: 0 <= i < |s| ==> !StartsWith(s[i..], "http://") && !StartsWith(s[i..], "https://")
    ensures Linkify(Text(s)) == s
  {
    forall i | 0 <= i < |s| ensures NoUrlAt(s, i) {
      assert SchemeLen(s[i..]) == 0;
    }
    NoUrlIdentity(s);
  }

  /** The text around a URL is not escaped: markup in a cell reaches the
      page as markup. */
  lemma LinkifyKeepsMarkup()
    ensures Linkify(Text("<br>")) == "<br>"
  {
    LinkifyWithoutScheme("<br>");
  }
}
