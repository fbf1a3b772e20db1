/**
  renderTodoTitle: a title is split on the global pattern `(https?://[^\s]+)`
  with ECMAScript `String.prototype.split` semantics (the captured URLs are
  spliced in between the surrounding text), and each piece is then shown as a
  link when the pattern matches it and as plain text otherwise.

  Strings are sequences of code points here; the pattern works on UTF-16 code
  units in JavaScript, which only differs for characters the pattern never
  looks at individually (all whitespace characters are in the BMP).
 */
module TitleLinks {

  /** A rendered piece of a title. */
  datatype Segment = Text(s: string) | Link(s: string)

  const Https: string := "https://"
  const Http: string := "http://"

  /** ECMAScript `\s`: the WhiteSpace and LineTerminator code points of
      ECMA-262 (section 12.2 and 12.3), with the Zs category as of Unicode 15. */
  predicate IsSpace(c: char) {
    // in ASCII: space, and TAB, LF, VT, FF, CR (U+0009 to U+000D)
    || c == ' ' || '\t' <= c <= '\r'
    // beyond ASCII: NBSP, the other Zs characters, LS, PS and ZWNBSP
    || ('\U{00A0}' <= c &&
         (|| c == '\U{00A0}' || c == '\U{1680}' || '\U{2000}' <= c <= '\U{200A}'
          || c == '\U{2028}' || c == '\U{2029}' || c == '\U{202F}' || c == '\U{205F}'
          || c == '\U{3000}' || c == '\U{FEFF}'))
  }

  /** `w` occurs in `s` starting at index `q`, compared character by character. */
  predicate StartsAt(s: string, q: nat, w: string) {
    q + |w| <= |s| && forall k :: 0 <= k < |w| ==> s[q + k] == w[k]
  }

  /** The pattern matches at index `q`: "https://" or "http://" followed by at
      least one non-whitespace character. The greedy `s?` is tried first; when
      it fails, dropping the `s` cannot help, since "http" is then followed by
      an `s` and not by "://". */
  predicate UrlAt(s: string, q: nat) {
    || (StartsAt(s, q, Https) && q + 8 < |s| && !IsSpace(s[q + 8]))
    || (StartsAt(s, q, Http) && q + 7 < |s| && !IsSpace(s[q + 7]))
  }

  /** Length of the scheme of a match at `q`: 8 for "https://", 7 for "http://". */
  function SchemeLength(s: string, q: nat): (n: nat)
    requires UrlAt(s, q)
    ensures n == 8 ==> StartsAt(s, q, Https)
    ensures n == 7 ==> StartsAt(s, q, Http)
    ensures (n == 8 || n == 7) && q + n < |s| && !IsSpace(s[q + n])
  {
    if StartsAt(s, q, Https) && q + 8 < |s| && !IsSpace(s[q + 8]) then 8 else 7
  }

  /** The scheme a match at `q` starts with. */
  function Scheme(s: string, q: nat): string
    requires UrlAt(s, q)
  {
    if SchemeLength(s, q) == 8 then Https else Http
  }

  /** End of the longest run of non-whitespace characters starting at `k`:
      what the greedy `[^\s]+` consumes. */
  function RunEnd(s: string, k: nat): (e: nat)
    requires k <= |s|
    ensures k <= e <= |s|
    decreases |s| - k
  {
    if k == |s| || IsSpace(s[k]) then k else RunEnd(s, k + 1)
  }

  /** End of the match that starts at `q`. */
  function UrlEnd(s: string, q: nat): (e: nat)
    requires UrlAt(s, q)
    ensures q < e <= |s|
  {
    RunEnd(s, q + SchemeLength(s, q))
  }

  /** `part.match(urlRegex)` is truthy: the pattern matches somewhere in `part`. */
  predicate HasUrl(part: string) {
    exists j :: 0 <= j < |part| && UrlAt(part, j)
  }

  /** The first index at or after `q` where the pattern matches, or `|s|`:
      the inner loop of RegExp.prototype[@@split] (ECMA-262 section
      22.2.6.14), which moves `q` on by one wherever the sticky match fails. */
  function NextMatch(s: string, q: nat): (m: nat)
    requires q <= |s|
    ensures q <= m <= |s|
    ensures m < |s| ==> UrlAt(s, m)
    decreases |s| - q
  {
    if q == |s| || UrlAt(s, q) then q else NextMatch(s, q + 1)
  }

  /** The outer loop of RegExp.prototype[@@split], with `p` the end of the
      last match: the text up to the next match and the match itself (the one
      capture group is the whole match) are emitted, and the scan goes on
      after the match. A match can never be empty, so the standard's "e = p"
      step is never taken. When no match is left, what remains is the last piece. */
  function SplitFrom(s: string, p: nat): (r: seq<string>)
    requires p <= |s|
    ensures |r| % 2 == 1
    decreases |s| - p
  {
    var m := NextMatch(s, p);
    if m == |s| then [s[p..]]
    else
      var e := UrlEnd(s, m);
      [s[p..m], s[m..e]] + SplitFrom(s, e)
  }

  /** `title.split(urlRegex)`. For the empty string the standard returns
      `[""]` because the pattern cannot match it, which is also what the loop gives. */
  function SplitOnUrls(title: string): (r: seq<string>)
    ensures |r| % 2 == 1
  {
    SplitFrom(title, 0)
  }

  /** What one piece renders as. */
  function Classify(part: string): (g: Segment)
    ensures g.s == part
  {
    if HasUrl(part) then Link(part) else Text(part)
  }

  /** `.map(...)` over the pieces: each piece classified, in order. */
  function Render(parts: seq<string>): (r: seq<Segment>)
    ensures |r| == |parts| && forall i :: 0 <= i < |r| ==> r[i].s == parts[i]
  {
    seq(|parts|, i requires 0 <= i < |parts| => Classify(parts[i]))
  }

  /** renderTodoTitle: the pieces of the split, each classified. */
  function RenderTodoTitle(title: string): (r: seq<Segment>)
    ensures |r| % 2 == 1
  {
    Render(SplitOnUrls(title))
  }

  /** The concatenation of a list of strings. */
  function Join(parts: seq<string>): string {
    if parts == [] then "" else parts[0] + Join(parts[1..])
  }

  /** The text a list of segments displays. */
  function Shown(segs: seq<Segment>): string {
    if segs == [] then "" else segs[0].s + Shown(segs[1..])
  }

  /** A well-formed link token: a scheme, at least one more character, and no whitespace. */
  predicate IsUrlToken(x: string) {
    && ((StartsAt(x, 0, Https) && |x| > 8) || (StartsAt(x, 0, Http) && |x| > 7))
    && forall k :: 0 <= k < |x| ==> !IsSpace(x[k])
  }

  // ---------------------------------------------------------------------------
  // The character-level facts behind the pattern

  /** Two strings that agree on the characters a word would cover agree on
      whether the word occurs there. */
  lemma StartsAtSame(s: string, q: nat, t: string, r: nat, w: string)
    requires q + |w| <= |s| && r + |w| <= |t|
    requires forall i :: q <= i < q + |w| ==> s[i] == t[i - q + r]
    ensures StartsAt(s, q, w) == StartsAt(t, r, w)
  {
    forall k | 0 <= k < |w| ensures s[q + k] == w[k] <==> t[r + k] == w[k] {
      assert s[q + k] == t[(q + k) - q + r];
    }
  }

  /** No character of a scheme is whitespace. */
  lemma SchemeCharsNotSpace()
    ensures forall k :: 0 <= k < |Https| ==> !IsSpace(Https[k])
    ensures forall k :: 0 <= k < |Http| ==> !IsSpace(Http[k])
  {
    forall k | 0 <= k < |Https| ensures !IsSpace(Https[k]) { assert Https[k] in Https; }
    forall k | 0 <= k < |Http| ensures !IsSpace(Http[k]) { assert Http[k] in Http; }
  }

  /** The scheme of a match and the character after it are not whitespace. */
  lemma SchemeNotSpace(s: string, q: nat)
    requires UrlAt(s, q)
    ensures forall k :: q <= k <= q + SchemeLength(s, q) ==> !IsSpace(s[k])
  {
    var n, w := SchemeLength(s, q), Scheme(s, q);
    SchemeCharsNotSpace();
    forall k | q <= k < q + n ensures !IsSpace(s[k]) {
      assert s[q + (k - q)] == w[k - q];
    }
  }

  /** The run consumed by `[^\s]+` holds no whitespace and is followed by
      whitespace or the end of the input. */
  lemma {:induction false} RunEndSpec(s: string, k: nat)
    requires k <= |s|
    ensures RunEnd(s, k) == |s| || IsSpace(s[RunEnd(s, k)])
    ensures forall j :: k <= j < RunEnd(s, k) ==> !IsSpace(s[j])
    decreases |s| - k
  {
    if k < |s| && !IsSpace(s[k]) {
      RunEndSpec(s, k + 1);
    }
  }

  /** The greedy run is the only one that is followed by whitespace or the end. */
  lemma RunEndUnique(s: string, k: nat, e: nat)
    requires k <= e <= |s|
    requires forall j :: k <= j < e ==> !IsSpace(s[j])
    requires e == |s| || IsSpace(s[e])
    ensures RunEnd(s, k) == e
  {
    RunEndSpec(s, k);
  }

  /** A match runs past its scheme, holds no whitespace, and is followed by
      whitespace or the end of the input. */
  lemma UrlEndSpec(s: string, q: nat)
    requires UrlAt(s, q)
    ensures q + SchemeLength(s, q) < UrlEnd(s, q)
    ensures UrlEnd(s, q) == |s| || IsSpace(s[UrlEnd(s, q)])
    ensures forall j :: q <= j < UrlEnd(s, q) ==> !IsSpace(s[j])
  {
    SchemeNotSpace(s, q);
    RunEndSpec(s, q + SchemeLength(s, q));
  }

  /** No match starts before the one NextMatch finds. */
  lemma {:induction false} NextMatchFirst(s: string, q: nat)
    requires q <= |s|
    ensures forall j :: q <= j < NextMatch(s, q) ==> !UrlAt(s, j)
    decreases |s| - q
  {
    if q < |s| && !UrlAt(s, q) {
      NextMatchFirst(s, q + 1);
    }
  }

  /** The first match is the only index with no match before it and a
      match (or the end of the input) at it. */
  lemma NextMatchUnique(s: string, q: nat, m: nat)
    requires q <= m <= |s|
    requires forall j :: q <= j < m ==> !UrlAt(s, j)
    requires m == |s| || UrlAt(s, m)
    ensures NextMatch(s, q) == m
  {
    NextMatchFirst(s, q);
  }

  /** A match inside a slice is a match in the whole string. */
  lemma UrlAtSlice(s: string, a: nat, b: nat, j: nat)
    requires a <= b <= |s| && j < b - a
    ensures UrlAt(s[a..b], j) ==> UrlAt(s, a + j)
  {
    var t := s[a..b];
    if UrlAt(t, j) {
      var n, w := SchemeLength(t, j), Scheme(t, j);
      StartsAtSame(t, j, s, a + j, w);
      assert t[j + n] == s[a + j + n];
    }
  }

  /** A stretch in which no match starts shows no URL. */
  lemma NoUrlInSlice(s: string, a: nat, b: nat)
    requires a <= b <= |s|
    requires forall j :: a <= j < b ==> !UrlAt(s, j)
    ensures !HasUrl(s[a..b])
  {
    forall j | 0 <= j < b - a
      ensures !UrlAt(s[a..b], j)
    {
      UrlAtSlice(s, a, b, j);
    }
  }

  /** The text of a match is a link token that the pattern matches. */
  lemma MatchIsToken(s: string, q: nat)
    requires UrlAt(s, q)
    ensures IsUrlToken(s[q..UrlEnd(s, q)]) && HasUrl(s[q..UrlEnd(s, q)])
  {
    var e, n, w := UrlEnd(s, q), SchemeLength(s, q), Scheme(s, q);
    var x := s[q..e];
    UrlEndSpec(s, q);
    StartsAtSame(s, q, x, 0, w);
    forall k | 0 <= k < |x| ensures !IsSpace(x[k]) {
      assert x[k] == s[q + k];
    }
    assert x[n] == s[q + n];
    assert UrlAt(x, 0);
  }

  // ---------------------------------------------------------------------------
  // Lemmas about the split

  /** A step of the split at a match: the text before it and the match are
      emitted, and the scan goes on after the match. */
  lemma SplitLink(s: string, p: nat, m: nat, e: nat)
    requires p <= |s| && m == NextMatch(s, p) && m < |s| && e == UrlEnd(s, m)
    ensures SplitFrom(s, p) == [s[p..m], s[m..e]] + SplitFrom(s, e)
  {
  }

  /** A suffix cut at two points. */
  lemma SliceThree(s: string, p: nat, m: nat, e: nat)
    requires p <= m <= e <= |s|
    ensures s[p..] == s[p..m] + (s[m..e] + s[e..])
  {
  }

  /** Joining two leading pieces. */
  lemma JoinTwo(x: string, y: string, rest: seq<string>)
    ensures Join([x, y] + rest) == x + (y + Join(rest))
  {
    assert ([x, y] + rest)[1..] == [y] + rest;
    assert ([y] + rest)[1..] == rest;
  }

  /** The pieces of the split join back to the scanned input. */
  lemma {:induction false} SplitFromJoin(s: string, p: nat)
    requires p <= |s|
    ensures Join(SplitFrom(s, p)) == s[p..]
    decreases |s| - p
  {
    var m := NextMatch(s, p);
    if m == |s| {
      assert Join([s[p..]]) == s[p..] + Join([]);
    } else {
      var e := UrlEnd(s, m);
      SplitLink(s, p, m, e);
      SplitFromJoin(s, e);
      JoinTwo(s[p..m], s[m..e], SplitFrom(s, e));
      SliceThree(s, p, m, e);
    }
  }

  /** The shape of a split: a text showing no URL, then any number of link
      tokens each followed by such a text; the text after a link is either
      the empty last piece or starts with whitespace. */
  predicate SplitShape(r: seq<string>)
    decreases |r|
  {
    && |r| > 0 && !HasUrl(r[0])
    && (|r| == 1 ||
         (&& |r| >= 3 && IsUrlToken(r[1]) && HasUrl(r[1])
          && ((r[2] == "" && |r| == 3) || (r[2] != "" && IsSpace(r[2][0])))
          && SplitShape(r[2..])))
  }

  /** Right after a match (where the input ends or has whitespace) the first
      piece is empty and alone, or starts with that whitespace. */
  lemma SplitFromFirst(s: string, e: nat)
    requires e <= |s| && (e == |s| || IsSpace(s[e]))
    ensures var r := SplitFrom(s, e);
            (r[0] == "" && |r| == 1) || (r[0] != "" && IsSpace(r[0][0]))
  {
    var m := NextMatch(s, e);
    if e < |s| {
      assert !UrlAt(s, e) by {
        assert !IsSpace('h') && Https[0] == 'h' && Http[0] == 'h';
      }
      assert s[e..m][0] == s[e];
    }
  }

  /** Every split has that shape. */
  lemma {:induction false} SplitFromShape(s: string, p: nat)
    requires p <= |s|
    ensures SplitShape(SplitFrom(s, p))
    decreases |s| - p
  {
    var m := NextMatch(s, p);
    NextMatchFirst(s, p);
    NoUrlInSlice(s, p, m);
    if m == |s| {
      assert s[p..] == s[p..m];
    } else {
      var e := UrlEnd(s, m);
      var rest := SplitFrom(s, e);
      SplitLink(s, p, m, e);
      UrlEndSpec(s, m);
      SplitFromShape(s, e);
      SplitFromFirst(s, e);
      MatchIsToken(s, m);
      var r := [s[p..m], s[m..e]] + rest;
      assert r[2..] == rest && r[2] == rest[0];
    }
  }

  /** A shape has odd length. */
  lemma {:induction false} ShapeOddLength(r: seq<string>)
    requires SplitShape(r)
    ensures |r| % 2 == 1
    decreases |r|
  {
    if |r| > 1 {
      ShapeOddLength(r[2..]);
    }
  }

  /** The pieces at even indices show no URL. */
  lemma {:induction false} ShapeTexts(r: seq<string>)
    requires SplitShape(r)
    ensures forall i :: 0 <= i < |r| && i % 2 == 0 ==> !HasUrl(r[i])
    decreases |r|
  {
    if |r| > 1 {
      var rest := r[2..];
      ShapeTexts(rest);
      forall i | 2 <= i < |r| && i % 2 == 0 ensures !HasUrl(r[i]) {
        assert r[i] == rest[i - 2] && (i - 2) % 2 == 0;
      }
    }
  }

  /** The pieces at odd indices are link tokens that the pattern matches. */
  lemma {:induction false} ShapeLinks(r: seq<string>)
    requires SplitShape(r)
    ensures forall i :: 0 <= i < |r| && i % 2 == 1 ==> IsUrlToken(r[i]) && HasUrl(r[i])
    decreases |r|
  {
    if |r| > 1 {
      var rest := r[2..];
      ShapeLinks(rest);
      forall i | 3 <= i < |r| && i % 2 == 1 ensures IsUrlToken(r[i]) && HasUrl(r[i]) {
        assert r[i] == rest[i - 2] && (i - 2) % 2 == 1;
      }
    }
  }

  /** The piece after a link token is the empty last piece or starts with whitespace. */
  predicate AfterLink(r: seq<string>, i: nat) {
    i + 1 < |r| && ((r[i + 1] == "" && i + 2 == |r|) || (r[i + 1] != "" && IsSpace(r[i + 1][0])))
  }

  /** Every piece at an odd index is followed by the empty last piece or by
      a piece that starts with whitespace. */
  lemma {:induction false} ShapeAfterLinks(r: seq<string>)
    requires SplitShape(r)
    ensures forall i :: 0 <= i < |r| && i % 2 == 1 ==> AfterLink(r, i)
    decreases |r|
  {
    if |r| > 1 {
      var rest := r[2..];
      ShapeAfterLinks(rest);
      forall i | 3 <= i < |r| && i % 2 == 1 ensures AfterLink(r, i) {
        assert AfterLink(rest, i - 2);
        assert r[i + 1] == rest[i - 1];
      }
    }
  }

  // ---------------------------------------------------------------------------
  // Properties of renderTodoTitle

  /** Classifying keeps the text of each piece. */
  lemma {:induction false} ShownClassified(parts: seq<string>)
    ensures Shown(Render(parts)) == Join(parts)
    decreases |parts|
  {
    if parts != [] {
      ShownClassified(parts[1..]);
      assert Render(parts)[1..] == Render(parts[1..]);
    }
  }

  /** The rendered segments display the title exactly. */
  lemma RoundTrip(title: string)
    ensures Shown(RenderTodoTitle(title)) == title
  {
    ShownClassified(SplitOnUrls(title));
    SplitFromJoin(title, 0);
  }

  /** An empty title renders as one empty text segment. */
  lemma EmptyTitle()
    ensures RenderTodoTitle("") == [Text("")]
  {
    assert SplitOnUrls("") == [""];
    assert !HasUrl("");
  }

  /** The segments alternate Text, Link, Text, ..., starting and ending with
      Text; texts show no URL and links are well-formed tokens. */
  lemma Alternation(title: string)
    ensures var r := RenderTodoTitle(title);
            && |r| % 2 == 1 && r[0].Text? && r[|r| - 1].Text?
            && (forall i :: 0 <= i < |r| ==> (r[i].Link? <==> i % 2 == 1))
            && (forall i :: 0 <= i < |r| && r[i].Text? ==> !HasUrl(r[i].s))
            && (forall i :: 0 <= i < |r| && r[i].Link? ==> IsUrlToken(r[i].s))
  {
    var parts, r := SplitOnUrls(title), RenderTodoTitle(title);
    SplitFromShape(title, 0);
    ShapeOddLength(parts);
    ShapeTexts(parts);
    ShapeLinks(parts);
    forall i | 0 <= i < |r|
      ensures (r[i].Link? <==> i % 2 == 1)
      ensures r[i].Text? ==> !HasUrl(r[i].s)
      ensures r[i].Link? ==> IsUrlToken(r[i].s)
    {
      assert r[i] == Classify(parts[i]);
    }
  }

  /** A title in which the pattern matches nowhere renders as one text segment
      equal to the title, and a title in which it matches somewhere does not. */
  lemma NoUrlSingleText(title: string)
    ensures RenderTodoTitle(title) == [Text(title)] <==> !HasUrl(title)
  {
    var parts := SplitOnUrls(title);
    var m := NextMatch(title, 0);
    if m == |title| {
      NextMatchFirst(title, 0);
      assert parts == [title[0..]] && title[0..] == title;
      assert RenderTodoTitle(title)[0] == Classify(title);
    } else {
      assert UrlAt(title, m);
      assert |RenderTodoTitle(title)| != 1;
    }
  }

  /** Every link is followed by whitespace or by the end of the title. */
  lemma LinksAreMaximal(title: string)
    ensures var r := RenderTodoTitle(title);
            forall i :: 0 <= i < |r| && r[i].Link? ==>
              i + 1 < |r| && ((r[i + 1].s == "" && i + 2 == |r|) || (r[i + 1].s != "" && IsSpace(r[i + 1].s[0])))
  {
    var parts, r := SplitOnUrls(title), RenderTodoTitle(title);
    SplitFromShape(title, 0);
    ShapeTexts(parts);
    ShapeAfterLinks(parts);
    forall i | 0 <= i < |r| && r[i].Link?
      ensures i + 1 < |r| && ((r[i + 1].s == "" && i + 2 == |r|) || (r[i + 1].s != "" && IsSpace(r[i + 1].s[0])))
    {
      assert r[i] == Classify(parts[i]);
      assert i % 2 == 1;
      assert AfterLink(parts, i);
      assert r[i + 1].s == parts[i + 1];
    }
  }

  /** A match begins with 'h', and an "http" followed by ':' is the
      scheme "http://", which must be followed by a non-space character. */
  lemma UrlAtFirstChars(s: string, q: nat)
    requires q + 4 < |s|
    ensures UrlAt(s, q) ==> s[q] == 'h'
    ensures UrlAt(s, q) && s[q + 4] == ':' ==> q + 7 < |s| && !IsSpace(s[q + 7])
  {
    if UrlAt(s, q) {
      var w := Scheme(s, q);
      assert s[q] == w[0] == 'h';
      if s[q + 4] == ':' {
        assert w[4] == ':';
        assert w == Http;
      }
    }
  }

  /** "http://" followed by a space is no match. */
  lemma BareSchemeNoMatch()
    ensures !HasUrl("go http:// now")
  {
    var t := "go http:// now";
    assert t[..3] == "go " && t[4..] == "ttp:// now";
    forall j | 0 <= j < |t|
      ensures !UrlAt(t, j)
    {
      if j + 4 < |t| {
        UrlAtFirstChars(t, j);
      }
      if j < 3 {
        assert t[j] in t[..3];
      } else if j > 3 {
        assert t[j] == t[4..][j - 4];
        assert t[j] in t[4..];
      } else {
        assert t[7] == ':' && t[10] == ' ';
      }
    }
  }

  /** A scheme followed by whitespace is not a link: it stays in the text. */
  lemma BareSchemeIsText()
    ensures RenderTodoTitle("go http:// now") == [Text("go http:// now")]
  {
    BareSchemeNoMatch();
    NoUrlSingleText("go http:// now");
  }

  /** A link token is matched whole at its start. */
  lemma TokenMatch(u: string)
    requires IsUrlToken(u)
    ensures UrlAt(u, 0) && UrlEnd(u, 0) == |u|
  {
    var w := if StartsAt(u, 0, Https) && |u| > 8 then Https else Http;
    assert !IsSpace(u[|w|]);
    if w == Http {
      assert u[4] == Http[4] != Https[4];
    }
    assert SchemeLength(u, 0) == |w|;
    RunEndUnique(u, |w|, |u|);
  }

  /** A title that is one link token renders as that link between two empty texts. */
  lemma WholeTitleLink(u: string)
    requires IsUrlToken(u)
    ensures RenderTodoTitle(u) == [Text(""), Link(u), Text("")]
  {
    TokenMatch(u);
    assert NextMatch(u, 0) == 0;
    assert NextMatch(u, |u|) == |u|;
    assert u[|u|..] == "";
    assert SplitFrom(u, |u|) == [""];
    assert SplitOnUrls(u) == ["", u, ""] by {
      SplitLink(u, 0, 0, |u|);
      assert u[0..0] == "" && u[0..|u|] == u;
    }
    assert HasUrl(u) && !HasUrl("");
  }

  // ---------------------------------------------------------------------------
  // The pieces are the leftmost, greedy matches

  /** No match starts in the `n` characters of `s` from index `o`. */
  predicate TextAt(s: string, o: nat, n: nat) {
    forall j :: o <= j < o + n ==> !UrlAt(s, j)
  }

  /** The match that starts at index `o` of `s` is `n` characters long. */
  predicate LinkAt(s: string, o: nat, n: nat) {
    UrlAt(s, o) && o + n == UrlEnd(s, o)
  }

  /** The prefix of a split past its first two pieces. */
  lemma JoinPrefixTwo(r: seq<string>, i: nat)
    requires 2 <= i <= |r|
    ensures Join(r[..i]) == r[0] + (r[1] + Join(r[2..][..i - 2]))
  {
    assert r[..i] == [r[0], r[1]] + r[2..][..i - 2];
    JoinTwo(r[0], r[1], r[2..][..i - 2]);
  }

  /** The length of a prefix of pieces past the first two. */
  lemma JoinPrefixLength(r: seq<string>, i: nat)
    requires 2 <= i <= |r|
    ensures |Join(r[..i])| == |r[0]| + |r[1]| + |Join(r[2..][..i - 2])|
  {
    JoinPrefixTwo(r, i);
  }

  /** Where the first pieces of a split from `p` start, and how long they are. */
  lemma SplitHeads(s: string, p: nat)
    requires p <= |s|
    ensures var m, r := NextMatch(s, p), SplitFrom(s, p);
            && |Join(r[..0])| == 0 && |r[0]| == m - p
            && (m < |s| ==> p + |Join(r[..1])| == m && m + |r[1]| == UrlEnd(s, m))
  {
    var m, r := NextMatch(s, p), SplitFrom(s, p);
    assert r[..0] == [];
    if m == |s| {
      assert r == [s[p..]];
    } else {
      SplitLink(s, p, m, UrlEnd(s, m));
      assert r[..1] == [r[0]] && Join([r[0]]) == r[0] + Join([]);
    }
  }

  /** Past its first two pieces, a split from `p` is the split from the end of
      the first match, shifted to where that match ends. */
  lemma SplitShift(s: string, p: nat, i: nat)
    requires p <= |s| && NextMatch(s, p) < |s| && 2 <= i < |SplitFrom(s, p)|
    ensures var r, e := SplitFrom(s, p), UrlEnd(s, NextMatch(s, p));
            && i - 2 < |SplitFrom(s, e)|
            && p + |Join(r[..i])| == e + |Join(SplitFrom(s, e)[..i - 2])|
            && |r[i]| == |SplitFrom(s, e)[i - 2]|
  {
    var m, r := NextMatch(s, p), SplitFrom(s, p);
    var e := UrlEnd(s, m);
    SplitLink(s, p, m, e);
    assert r[2..] == SplitFrom(s, e);
    JoinPrefixLength(r, i);
  }

  /** Where piece `i` of the split from `p` starts in `s`. */
  function PieceStart(s: string, p: nat, i: nat): nat
    requires p <= |s| && i <= |SplitFrom(s, p)|
  {
    p + |Join(SplitFrom(s, p)[..i])|
  }

  /** A piece past the first two starts where the piece two places earlier
      in the split after the first match starts, and has its length. */
  lemma PieceShift(s: string, p: nat, i: nat)
    requires p <= |s| && NextMatch(s, p) < |s| && 2 <= i < |SplitFrom(s, p)|
    ensures var e := UrlEnd(s, NextMatch(s, p));
            && i - 2 < |SplitFrom(s, e)|
            && PieceStart(s, p, i) == PieceStart(s, e, i - 2)
            && |SplitFrom(s, p)[i]| == |SplitFrom(s, e)[i - 2]|
  {
    SplitShift(s, p, i);
  }

  /** Pieces `2k` and `2k + 1` of the split from `p`: no match starts in the
      text piece `2k`, and the link piece `2k + 1` is exactly the match that
      starts where it starts. */
  lemma {:induction false} SplitPiece(s: string, p: nat, k: nat)
    requires p <= |s|
    ensures var r := SplitFrom(s, p);
            2 * k < |r| ==> TextAt(s, PieceStart(s, p, 2 * k), |r[2 * k]|)
    ensures var r := SplitFrom(s, p);
            2 * k + 1 < |r| ==> LinkAt(s, PieceStart(s, p, 2 * k + 1), |r[2 * k + 1]|)
    decreases |s| - p
  {
    var m, r := NextMatch(s, p), SplitFrom(s, p);
    SplitHeads(s, p);
    if k == 0 {
      NextMatchFirst(s, p);
      assert TextAt(s, p, m - p);
      if 1 < |r| {
        assert LinkAt(s, m, UrlEnd(s, m) - m);
      }
    } else if 2 * k < |r| {
      var e, i := UrlEnd(s, m), 2 * k;
      SplitPiece(s, e, k - 1);
      PieceShift(s, p, i);
      if i + 1 < |r| {
        PieceShift(s, p, i + 1);
      }
    }
  }

  /** The text shown before segment `i` is as long as the pieces before it. */
  lemma ShownPrefix(title: string, i: nat)
    requires i < |RenderTodoTitle(title)|
    ensures |Shown(RenderTodoTitle(title)[..i])| == PieceStart(title, 0, i)
  {
    var parts := SplitOnUrls(title);
    assert RenderTodoTitle(title)[..i] == Render(parts[..i]);
    ShownClassified(parts[..i]);
  }

  /** Each rendered segment is the stretch of the title that starts at the
      length of the text shown before it: a Link is exactly the match that
      starts there, and no match starts inside a Text. */
  lemma LeftmostGreedy(title: string)
    ensures var r := RenderTodoTitle(title);
            forall i :: 0 <= i < |r| ==>
              && (r[i].Text? ==> TextAt(title, |Shown(r[..i])|, |r[i].s|))
              && (r[i].Link? ==> LinkAt(title, |Shown(r[..i])|, |r[i].s|))
  {
    var r := RenderTodoTitle(title);
    Alternation(title);
    forall i | 0 <= i < |r|
      ensures r[i].Text? ==> TextAt(title, |Shown(r[..i])|, |r[i].s|)
      ensures r[i].Link? ==> LinkAt(title, |Shown(r[..i])|, |r[i].s|)
    {
      var k := i / 2;
      SplitPiece(title, 0, k);
      ShownPrefix(title, i);
      if r[i].Link? {
        assert i == 2 * k + 1;
      } else {
        assert i == 2 * k;
      }
    }
  }
}
