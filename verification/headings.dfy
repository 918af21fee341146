/**
 * Heading extraction and the table of contents: the first article span of
 * a page, the `<h2>` headings inside it with their tags removed and their
 * surrounding whitespace trimmed, and the numbered list that links to
 * `#sec-1` … `#sec-N`.
 */
module Headings {
  import opened Wrappers
  import opened Text

  const ArticleOpen: string := "<article"
  const ArticleEnd: string := "</article>"
  const H2Open: string := "<h2"
  const H2Close: string := "</h2>"

  /** Neither tag word can overlap itself. */
  lemma TagsHeadUnique()
    ensures HeadUnique(H2Open) && HeadUnique(H2Close)
  {
    assert H2Open[1..] == ['h', '2'];
    assert H2Close[1..] == ['/', 'h', '2', '>'];
  }

  // ---------------------------------------------------------------------
  // The article span

  /**
   * A match of `word[^>]*>(.*?)closer`: where the opener starts, where its
   * tag ends (the `>`), and where the first closing tag after that starts.
   */
  datatype ElementMatch = ElementMatch(open: nat, tagEnd: nat, close: nat)

  /** The search for `c` from `k` is pinned down by "`c` at `j`, nowhere in between". */
  lemma FindCharIs(s: string, c: char, k: nat, j: nat)
    requires k <= j < |s| && s[j] == c
    requires forall i :: k <= i < j ==> s[i] != c
    ensures FindChar(s, c, k) == Some(j)
    decreases j - k
  {
    if k < j {
      FindCharIs(s, c, k + 1, j);
    }
  }

  /**
   * The leftmost match of `word[^>]*>(.*?)closer` at or after `k`, with `.`
   * matching newlines: the first opener, the first `>` after the word (the
   * attributes `[^>]*` cannot pass a `>`), and the first closing tag after
   * that. Lazy `.*?` stops at that closing tag, and when it is missing no
   * other choice for this opener can succeed, so neither can a later opener.
   */
  function FindElement(s: string, word: string, closer: string, k: nat): (r: Option<ElementMatch>)
    ensures r.Some? ==> FindFrom(s, word, k) == Some(r.value.open) && r == FindTagEnd(s, word, closer, r.value.open)
  {
    match FindFrom(s, word, k)
    case None => None
    case Some(i) => FindTagEnd(s, word, closer, i)
  }

  /** The match for the opener at `i`, if its tag ends and a closing tag follows. */
  function FindTagEnd(s: string, word: string, closer: string, i: nat): (r: Option<ElementMatch>)
    ensures r.Some? ==> r.value.open == i && FindChar(s, '>', i + |word|) == Some(r.value.tagEnd)
    ensures r.Some? ==> r == FindCloser(s, closer, i, r.value.tagEnd)
  {
    match FindChar(s, '>', i + |word|)
    case None => None
    case Some(g) => FindCloser(s, closer, i, g)
  }

  /** The match for the opener at `i` whose tag ends at `g`, if a closing tag follows. */
  function FindCloser(s: string, closer: string, i: nat, g: nat): (r: Option<ElementMatch>)
    ensures r.Some? ==> r.value.open == i && r.value.tagEnd == g && FindFrom(s, closer, g + 1) == Some(r.value.close)
    ensures r.Some? ==> g < r.value.close && r.value.close + |closer| <= |s|
  {
    match FindFrom(s, closer, g + 1)
    case None => None
    case Some(c) => Some(ElementMatch(i, g, c))
  }

  /** A match lies in the text in order: opener, tag end, closing tag. */
  lemma ElementBounds(s: string, word: string, closer: string, k: nat, m: ElementMatch)
    requires FindElement(s, word, closer, k) == Some(m)
    ensures k <= m.open && m.open + |word| <= m.tagEnd < m.close && m.close + |closer| <= |s|
  {
    assert FindTagEnd(s, word, closer, m.open) == Some(m);
    assert FindCloser(s, closer, m.open, m.tagEnd) == Some(m);
  }

  /** A match's closing tag is the first one after its tag end. */
  lemma ElementCloser(s: string, word: string, closer: string, k: nat, m: ElementMatch)
    requires FindElement(s, word, closer, k) == Some(m)
    ensures FindFrom(s, closer, m.tagEnd + 1) == Some(m.close)
  {
    assert FindTagEnd(s, word, closer, m.open) == Some(m);
    assert FindCloser(s, closer, m.open, m.tagEnd) == Some(m);
  }

  /** The three searches pin down the match. */
  lemma ElementIs(s: string, word: string, closer: string, k: nat, i: nat, g: nat, c: nat)
    requires FindFrom(s, word, k) == Some(i)
    requires FindChar(s, '>', i + |word|) == Some(g)
    requires FindFrom(s, closer, g + 1) == Some(c)
    ensures FindElement(s, word, closer, k) == Some(ElementMatch(i, g, c))
  {
    CloserIs(s, closer, i, g, c);
    TagEndIs(s, word, closer, i, g, Some(ElementMatch(i, g, c)));
  }

  lemma CloserIs(s: string, closer: string, i: nat, g: nat, c: nat)
    requires FindFrom(s, closer, g + 1) == Some(c)
    ensures FindCloser(s, closer, i, g) == Some(ElementMatch(i, g, c))
  {
  }

  lemma TagEndIs(s: string, word: string, closer: string, i: nat, g: nat, r: Option<ElementMatch>)
    requires FindChar(s, '>', i + |word|) == Some(g)
    requires FindCloser(s, closer, i, g) == r
    ensures FindTagEnd(s, word, closer, i) == r
  {
  }

  /**
   * The element opened by `word` at `i` cannot be completed by
   * `word[^>]*>…closer`: its tag has no `>`, or no `closer` follows the
   * first `>` (the only place the tag can end).
   */
  predicate Unclosed(s: string, word: string, closer: string, i: nat) {
    match FindChar(s, '>', i + |word|)
    case None => true
    case Some(g) => FindFrom(s, closer, g + 1).None?
  }

  /** When the first opener from `k` cannot be completed, no later one can. */
  lemma UnclosedAfterFirst(s: string, word: string, closer: string, k: nat, i: nat)
    requires FindFrom(s, word, k) == Some(i) && Unclosed(s, word, closer, i)
    ensures forall j: nat :: k <= j && OccursAt(s, word, j) ==> Unclosed(s, word, closer, j)
  {
    forall j: nat | k <= j && OccursAt(s, word, j)
      ensures Unclosed(s, word, closer, j)
    {
      UnclosedLater(s, word, closer, k, i, j);
    }
  }

  lemma UnclosedLater(s: string, word: string, closer: string, k: nat, i: nat, j: nat)
    requires FindFrom(s, word, k) == Some(i) && Unclosed(s, word, closer, i)
    requires k <= j && OccursAt(s, word, j)
    ensures Unclosed(s, word, closer, j)
  {
    assert i <= j;
    match FindChar(s, '>', j + |word|)
    case None =>
    case Some(h) =>
      var g := FindChar(s, '>', i + |word|).value;
      assert g <= h;
  }

  /** When there is no match from `k`, no opener from `k` on can be completed. */
  lemma ElementMissing(s: string, word: string, closer: string, k: nat)
    requires FindElement(s, word, closer, k).None?
    ensures forall i: nat :: k <= i && OccursAt(s, word, i) ==> Unclosed(s, word, closer, i)
  {
    match FindFrom(s, word, k)
    case None =>
    case Some(i) =>
      assert FindTagEnd(s, word, closer, i).None?;
      UnclosedAfterFirst(s, word, closer, k, i);
  }

  /** The group of a match: from just after its tag to its closing tag. */
  function Body(t: string, m: ElementMatch): string
    requires m.tagEnd < m.close <= |t|
  {
    t[m.tagEnd + 1..m.close]
  }

  // ---------------------------------------------------------------------
  // Headings inside the article

  /** The next opener of `<h2[^>]*>(.*?)</h2>` that has a closing tag after its tag. */
  function NextHeading(t: string): (r: Option<ElementMatch>)
    ensures r.Some? ==> r.value.open + |H2Open| <= r.value.tagEnd < r.value.close && r.value.close + |H2Close| <= |t|
  {
    var r := FindElement(t, H2Open, H2Close, 0);
    if r.Some? then ElementBounds(t, H2Open, H2Close, 0, r.value); r else r
  }

  /**
   * What the opener of `m` contributes to `re.findall(r'<h2[^>]*>(.*?)</h2>', t)`
   * and where the search resumes: without DOTALL the body cannot hold a
   * newline, so an opener whose first closing tag comes after a newline
   * does not match and the search moves on by one character; otherwise
   * the body is found and the search resumes after the closing tag.
   */
  function Found(t: string, m: ElementMatch): seq<string>
    requires m.tagEnd < m.close <= |t|
  {
    if '\n' in Body(t, m) then [] else [Body(t, m)]
  }

  function Resume(t: string, m: ElementMatch): nat
    requires m.tagEnd < m.close <= |t|
  {
    if '\n' in Body(t, m) then m.open + 1 else m.close + |H2Close|
  }

  /** The raw headings of `re.findall(r'<h2[^>]*>(.*?)</h2>', t)`, in document order. */
  function ScanHeadings(t: string): seq<string>
    decreases |t|
  {
    match NextHeading(t)
    case None => []
    case Some(m) => Found(t, m) + ScanHeadings(t[Resume(t, m)..])
  }

  /** Every heading of `hs` holds no newline and no closing tag. */
  predicate Shaped(hs: seq<string>) {
    forall j :: 0 <= j < |hs| ==> '\n' !in hs[j] && !Contains(hs[j], H2Close)
  }

  lemma ShapedConcat(a: seq<string>, b: seq<string>)
    requires Shaped(a) && Shaped(b)
    ensures Shaped(a + b)
  {
    forall j | 0 <= j < |a + b|
      ensures '\n' !in (a + b)[j] && !Contains((a + b)[j], H2Close)
    {
      if j >= |a| {
        assert (a + b)[j] == b[j - |a|];
      }
    }
  }

  /** What one opener contributes holds no newline and no closing tag. */
  lemma FoundShaped(t: string, m: ElementMatch)
    requires NextHeading(t) == Some(m)
    ensures Shaped(Found(t, m))
  {
    if '\n' !in Body(t, m) {
      TagsHeadUnique();
      ElementCloser(t, H2Open, H2Close, 0, m);
      NotContainsBeforeFirst(t, H2Close, m.tagEnd + 1, m.close);
    }
  }

  /** A found heading holds no newline and no closing tag. */
  lemma {:induction false} ScanHeadingsShape(t: string)
    ensures Shaped(ScanHeadings(t))
    decreases |t|
  {
    match NextHeading(t)
    case None =>
    case Some(m) =>
      ScanHeadingsShape(t[Resume(t, m)..]);
      FoundShaped(t, m);
      ScanUnfold(t, m);
      ShapedConcat(Found(t, m), ScanHeadings(t[Resume(t, m)..]));
  }

  /** Without an opener there is no heading. */
  lemma ScanWithoutOpener(t: string)
    requires !Contains(t, H2Open)
    ensures ScanHeadings(t) == []
  {
    FindIffContains(t, H2Open);
  }

  /** One heading of a page as written: the text before it, the opener's attributes and the heading text. */
  datatype HeadingSource = HeadingSource(before: string, attrs: string, text: string)

  /** The source can be read back: nothing before it opens a heading, and neither the attributes nor the text end early. */
  predicate Plain(x: HeadingSource) {
    !Contains(x.before, H2Open) && '>' !in x.attrs && '\n' !in x.text && !Contains(x.text, H2Close)
  }

  /** The page text of a run of headings followed by `tail`. */
  function Render(xs: seq<HeadingSource>, tail: string): string
    decreases |xs|
  {
    if |xs| == 0 then tail
    else xs[0].before + H2Open + xs[0].attrs + ">" + xs[0].text + H2Close + Render(xs[1..], tail)
  }

  function Texts(xs: seq<HeadingSource>): (ts: seq<string>)
    ensures |ts| == |xs| && forall j :: 0 <= j < |xs| ==> ts[j] == xs[j].text
  {
    if |xs| == 0 then [] else [xs[0].text] + Texts(xs[1..])
  }

  /** One step of the scan, as its definition gives it. */
  lemma ScanUnfold(t: string, m: ElementMatch)
    requires NextHeading(t) == Some(m)
    ensures ScanHeadings(t) == Found(t, m) + ScanHeadings(t[Resume(t, m)..])
  {
  }

  /** A body without a newline is a heading, and the search resumes after its closing tag. */
  lemma FoundPlain(t: string, m: ElementMatch)
    requires m.tagEnd < m.close <= |t|
    requires '\n' !in Body(t, m)
    ensures Found(t, m) == [Body(t, m)] && Resume(t, m) == m.close + |H2Close|
  {
  }

  lemma ScanPlainStep(t: string, m: ElementMatch)
    requires NextHeading(t) == Some(m)
    requires '\n' !in Body(t, m)
    ensures ScanHeadings(t) == [Body(t, m)] + ScanHeadings(t[Resume(t, m)..])
    ensures Resume(t, m) == m.close + |H2Close|
  {
    ScanUnfold(t, m);
    FoundPlain(t, m);
  }

  /** The scan's step at a heading whose body has no newline. */
  lemma ScanStep(t: string, m: ElementMatch, h: string, u: string)
    requires NextHeading(t) == Some(m)
    requires Body(t, m) == h && '\n' !in h
    requires t[m.close + |H2Close|..] == u
    ensures ScanHeadings(t) == [h] + ScanHeadings(u)
  {
    ScanPlainStep(t, m);
    assert t[Resume(t, m)..] == u;
  }

  /** A rendered heading, seen through the text it sits in, is the next match, with its text as the body. */
  lemma LocateHeading(t: string, before: string, attrs: string, text: string, rest: string, m: ElementMatch)
    requires !Contains(before, H2Open) && '>' !in attrs && !Contains(text, H2Close)
    requires FramedAt(t, before, H2Open, attrs, text, H2Close, rest)
    requires m == ElementMatch(|before|, |before| + |H2Open| + |attrs|, |before| + |H2Open| + |attrs| + 1 + |text|)
    ensures NextHeading(t) == Some(m) && m.tagEnd < m.close <= |t| && Body(t, m) == text
  {
    TagsHeadUnique();
    LocateElement(t, before, H2Open, attrs, text, H2Close, rest, m.open, m.tagEnd, m.close);
  }

  /**
   * An element written as `before word attrs > body closer after` is the
   * first match, opening at `i`, with its tag ending at `g` and its closing
   * tag at `c`, and `body` is its group.
   */
  lemma LocateElement(t: string, before: string, word: string, attrs: string, body: string, closer: string, after: string, i: nat, g: nat, c: nat)
    requires HeadUnique(word) && HeadUnique(closer)
    requires !Contains(before, word) && '>' !in attrs && !Contains(body, closer)
    requires FramedAt(t, before, word, attrs, body, closer, after)
    requires i == |before| && g == i + |word| + |attrs| && c == g + 1 + |body|
    ensures FindElement(t, word, closer, 0) == Some(ElementMatch(i, g, c))
    ensures g < c <= |t| && t[g + 1..c] == body
  {
    LocateElementOpener(t, before, word, attrs, body, closer, after, i, g);
    LocateElementCloser(t, before, word, attrs, body, closer, after, g, c);
    ElementFound(t, word, closer, i, g, c);
  }

  /** The three searches pin down the match. */
  lemma ElementFound(t: string, word: string, closer: string, i: nat, g: nat, c: nat)
    requires Find(t, word) == Some(i) && FindChar(t, '>', i + |word|) == Some(g)
    requires FindFrom(t, closer, g + 1) == Some(c)
    ensures FindElement(t, word, closer, 0) == Some(ElementMatch(i, g, c))
  {
    assert FindFrom(t, word, 0) == Some(i);
    ElementIs(t, word, closer, 0, i, g, c);
  }

  lemma LocateElementOpener(t: string, before: string, word: string, attrs: string, body: string, closer: string, after: string, i: nat, g: nat)
    requires HeadUnique(word) && !Contains(before, word) && '>' !in attrs
    requires FramedAt(t, before, word, attrs, body, closer, after)
    requires i == |before| && g == i + |word| + |attrs|
    ensures Find(t, word) == Some(i) && FindChar(t, '>', i + |word|) == Some(g)
  {
    LocateOpener(t, before, word, attrs, i, g);
  }

  lemma LocateElementCloser(t: string, before: string, word: string, attrs: string, body: string, closer: string, after: string, g: nat, c: nat)
    requires HeadUnique(closer) && !Contains(body, closer)
    requires FramedAt(t, before, word, attrs, body, closer, after)
    requires g == |before| + |word| + |attrs| && c == g + 1 + |body|
    ensures FindFrom(t, closer, g + 1) == Some(c)
    ensures c <= |t| && t[g + 1..c] == body
  {
    assert |before + word + attrs + ">"| == g + 1;
    LocateCloser(t, g + 1, body, closer, c);
  }

  /** Where a rendered element's opener and tag end are found. */
  lemma LocateOpener(t: string, before: string, word: string, attrs: string, i: nat, g: nat)
    requires HeadUnique(word) && !Contains(before, word) && '>' !in attrs
    requires |before + word + attrs + ">"| <= |t| && t[..|before + word + attrs + ">"|] == before + word + attrs + ">"
    requires i == |before| && g == i + |word| + |attrs|
    ensures Find(t, word) == Some(i) && FindChar(t, '>', i + |word|) == Some(g)
  {
    OpenerSlices(t, before, word, attrs);
    LocateWord(t, before, word);
    LocateTagEnd(t, i + |word|, attrs, g);
  }

  /** The pieces of an opener at the front of `t`, by index. */
  lemma OpenerSlices(t: string, before: string, word: string, attrs: string)
    requires |before + word + attrs + ">"| <= |t| && t[..|before + word + attrs + ">"|] == before + word + attrs + ">"
    ensures t[..|before|] == before && OccursAt(t, word, |before|)
    ensures |before| + |word| + |attrs| + 1 <= |t|
    ensures t[|before| + |word|..|before| + |word| + |attrs| + 1] == attrs + ">"
  {
    var a := before + word + attrs + ">";
    var i := |before|;
    assert a[..i] == before;
    assert a[i..i + |word|] == word;
    assert a[i + |word|..] == attrs + ">";
    assert t[..i] == a[..i];
    assert t[i..i + |word|] == a[i..i + |word|];
    assert t[i + |word|..|a|] == a[i + |word|..];
  }

  /** The first occurrence of `word` in a text that starts with `before word` is at `|before|`. */
  lemma LocateWord(t: string, before: string, word: string)
    requires HeadUnique(word) && !Contains(before, word)
    requires |before| <= |t| && t[..|before|] == before && OccursAt(t, word, |before|)
    ensures Find(t, word) == Some(|before|)
  {
    assert t[0..|before|] == before;
    FindAfterClean(t, word, 0, |before|);
  }

  /** The first `>` from `k` on is the one right after `attrs`. */
  lemma LocateTagEnd(t: string, k: nat, attrs: string, g: nat)
    requires '>' !in attrs && g == k + |attrs|
    requires g + 1 <= |t| && t[k..g + 1] == attrs + ">"
    ensures FindChar(t, '>', k) == Some(g)
  {
    forall j | k <= j < g
      ensures t[j] != '>'
    {
      assert t[j] == t[k..g + 1][j - k] == attrs[j - k];
    }
    assert t[g] == t[k..g + 1][|attrs|] == '>';
    FindCharIs(t, '>', k, g);
  }

  /** Where a rendered element's closing tag is found. */
  lemma LocateCloser(t: string, k: nat, text: string, closer: string, c: nat)
    requires HeadUnique(closer) && !Contains(text, closer) && c == k + |text|
    requires k + |text + closer| <= |t| && t[k..k + |text + closer|] == text + closer
    ensures FindFrom(t, closer, k) == Some(c)
    ensures t[k..c] == text
  {
    var w := text + closer;
    assert t[k..c] == text by {
      assert w[..|text|] == text;
      assert t[k..c] == t[k..k + |w|][..|text|];
    }
    assert OccursAt(t, closer, c) by {
      assert w[|text|..] == closer;
      assert t[c..c + |closer|] == t[k..k + |w|][|text|..];
    }
    FindAfterClean(t, closer, k, c);
  }

  /** How an element `word attrs > text closer` at the front of `t` lies in it, in the terms the searches use. */
  predicate FramedAt(t: string, before: string, word: string, attrs: string, text: string, closer: string, rest: string) {
    && |before + word + attrs + ">"| + |text + closer| <= |t|
    && t[..|before + word + attrs + ">"|] == before + word + attrs + ">"
    && t[|before + word + attrs + ">"|..|before + word + attrs + ">"| + |text + closer|] == text + closer
    && t[|before + word + attrs + ">"| + |text + closer|..] == rest
  }

  lemma FramedSlices(t: string, before: string, word: string, attrs: string, text: string, closer: string, rest: string)
    requires t == before + word + attrs + ">" + text + closer + rest
    ensures FramedAt(t, before, word, attrs, text, closer, rest)
  {
    var a := before + word + attrs + ">";
    var b := a + text;
    var c := b + closer;
    assert t == c + rest;
    assert t[|c|..] == rest;
    assert t[..|c|] == c;
    assert c[..|a|] == a by {
      assert c[..|b|] == b;
    }
    assert t[..|a|] == a;
    assert t[|a|..|a| + |text + closer|] == text + closer by {
      assert c[|a|..] == text + closer;
      assert t[|a|..|c|] == c[|a|..];
    }
  }

  lemma ScanOneAt(x: HeadingSource, rest: string, t: string)
    requires Plain(x) && FramedAt(t, x.before, H2Open, x.attrs, x.text, H2Close, rest)
    ensures ScanHeadings(t) == [x.text] + ScanHeadings(rest)
  {
    var g := |x.before| + |H2Open| + |x.attrs|;
    var m := ElementMatch(|x.before|, g, g + 1 + |x.text|);
    LocateHeading(t, x.before, x.attrs, x.text, rest, m);
    assert |x.before + H2Open + x.attrs + ">"| + |x.text + H2Close| == m.close + |H2Close|;
    ScanStep(t, m, x.text, rest);
  }

  /** One rendered heading is found where it was written, and the scan continues after it. */
  lemma ScanOne(x: HeadingSource, rest: string)
    requires Plain(x)
    ensures ScanHeadings(x.before + H2Open + x.attrs + ">" + x.text + H2Close + rest) == [x.text] + ScanHeadings(rest)
  {
    var t := x.before + H2Open + x.attrs + ">" + x.text + H2Close + rest;
    FramedSlices(t, x.before, H2Open, x.attrs, x.text, H2Close, rest);
    ScanOneAt(x, rest, t);
  }

  /** The scan returns one heading per rendered `<h2…>…</h2>`, in document order. */
  lemma {:induction false} ScanRendered(xs: seq<HeadingSource>, tail: string)
    requires forall j :: 0 <= j < |xs| ==> Plain(xs[j])
    requires !Contains(tail, H2Open)
    ensures ScanHeadings(Render(xs, tail)) == Texts(xs)
    decreases |xs|
  {
    if |xs| > 0 {
      ScanOne(xs[0], Render(xs[1..], tail));
      ScanRendered(xs[1..], tail);
    } else {
      ScanWithoutOpener(tail);
    }
  }

  // ---------------------------------------------------------------------
  // Cleaning a heading

  /**
   * The length of the tag `<[^>]+>` at the start of `h`, or 0 when `h` does
   * not start with one: a `<`, at least one character other than `>`, and
   * the first `>` after it. The tag text may itself hold a `<`.
   */
  function TagLength(h: string): (n: nat)
    ensures n == 0 || (3 <= n <= |h| && h[0] == '<' && h[n - 1] == '>' && '>' !in h[1..n - 1])
  {
    if |h| > 0 && h[0] == '<' then
      match FindChar(h, '>', 1)
      case Some(g) =>
        if g >= 2 then
          assert forall q :: 0 <= q < g - 1 ==> h[1..g][q] == h[q + 1];
          g + 1
        else 0
      case None => 0
    else 0
  }

  /** `re.sub(r'<[^>]+>', '', h)`: tags are removed, scanning from the left. */
  function StripTags(h: string): (r: string)
    decreases |h|
    ensures |r| <= |h|
    ensures forall c :: c in r ==> c in h
    ensures |h| > 0 && h[0] != '<' ==> |r| > 0 && r[0] == h[0]
  {
    if |h| == 0 then ""
    else
      var n := TagLength(h);
      (if n > 0 then "" else [h[0]]) + StripTags(h[if n > 0 then n else 1..])
  }

  /** No `<[^>]+>` match is left: every `<` is followed by `>` at once, or by no `>` at all. */
  predicate NoTag(r: string) {
    forall i :: 0 <= i < |r| && r[i] == '<' ==> (i + 1 < |r| && r[i + 1] == '>') || '>' !in r[i + 1..]
  }

  /** After stripping, no tag is left. */
  lemma {:induction false} StripTagsLeavesNoTag(h: string)
    ensures NoTag(StripTags(h))
    decreases |h|
  {
    if |h| > 0 {
      if TagLength(h) > 0 {
        StripTagsLeavesNoTag(h[TagLength(h)..]);
      } else {
        StripTagsLeavesNoTag(h[1..]);
        var rest := StripTags(h[1..]);
        if h[0] == '<' {
          match FindChar(h, '>', 1)
          case Some(g) =>
          case None =>
            assert '>' !in h[1..];
        }
        ConsNoTag(h[0], rest);
      }
    }
  }

  /** A character put before a tag-free text keeps it tag-free unless it opens a tag. */
  lemma ConsNoTag(c: char, rest: string)
    requires NoTag(rest)
    requires c == '<' ==> (|rest| > 0 && rest[0] == '>') || '>' !in rest
    ensures NoTag([c] + rest)
  {
    var r := [c] + rest;
    forall i | 0 <= i < |r| && r[i] == '<'
      ensures (i + 1 < |r| && r[i + 1] == '>') || '>' !in r[i + 1..]
    {
      if i == 0 {
        assert r[1..] == rest;
      } else {
        assert r[i] == rest[i - 1];
        assert r[i + 1..] == rest[i..];
        if i + 1 < |r| {
          assert r[i + 1] == rest[i];
        }
      }
    }
  }

  /** A text without tags is left as it is, so stripping twice is stripping once. */
  lemma {:induction false} StripTagsKeepsTagFree(h: string)
    requires NoTag(h)
    ensures StripTags(h) == h
    decreases |h|
  {
    if |h| > 0 {
      NoTagTail(h, h[1..]);
      StripTagsKeepsTagFree(h[1..]);
      NoTagNoTagLength(h);
      StripPlainStep(h);
      assert h == [h[0]] + h[1..];
    }
  }

  /** A text that does not start with a tag keeps its first character. */
  lemma StripPlainStep(h: string)
    requires |h| > 0 && TagLength(h) == 0
    ensures StripTags(h) == [h[0]] + StripTags(h[1..])
  {
  }

  /** The tail of a tag-free text is tag-free. */
  lemma NoTagTail(h: string, t: string)
    requires |h| > 0 && NoTag(h) && t == h[1..]
    ensures NoTag(t)
  {
    forall i | 0 <= i < |t| && t[i] == '<'
      ensures (i + 1 < |t| && t[i + 1] == '>') || '>' !in t[i + 1..]
    {
      assert h[i + 1] == '<';
      assert t[i + 1..] == h[i + 2..];
    }
  }

  /** A tag-free text does not start with a tag. */
  lemma NoTagNoTagLength(h: string)
    requires |h| > 0 && NoTag(h)
    ensures TagLength(h) == 0
  {
    if h[0] == '<' {
      match FindChar(h, '>', 1)
      case Some(g) =>
        assert h[g] == '>' && '>' in h[1..];
        assert g == 1;
      case None =>
    }
  }

  lemma StripTagsIdempotent(h: string)
    ensures StripTags(StripTags(h)) == StripTags(h)
  {
    StripTagsLeavesNoTag(h);
    StripTagsKeepsTagFree(StripTags(h));
  }

  /** One heading as the table of contents shows it: tags removed, then whitespace trimmed. */
  function Clean(h: string): (r: string)
    ensures |r| <= |h|
    ensures |r| > 0 ==> !IsSpace(r[0]) && !IsSpace(r[|r| - 1])
  {
    Trim(StripTags(h))
  }

  /** Trimming cannot bring a tag back: a cleaned heading holds no `<[^>]+>`. */
  lemma CleanLeavesNoTag(h: string)
    ensures NoTag(Clean(h))
  {
    var s := StripTags(h);
    StripTagsLeavesNoTag(h);
    var a, b := TrimRemovesOnlySpace(s);
    NoTagInfix(s, a, b, Trim(s));
  }

  /** Cutting whitespace off the end of a tag-free text leaves it tag-free. */
  lemma NoTagInfix(s: string, a: nat, b: nat, r: string)
    requires a <= b <= |s| && NoTag(s) && AllSpace(s[b..]) && r == s[a..b]
    ensures NoTag(r)
  {
    forall i | 0 <= i < |r| && r[i] == '<'
      ensures (i + 1 < |r| && r[i + 1] == '>') || '>' !in r[i + 1..]
    {
      assert s[a + i] == '<';
      if a + i + 1 < |s| && s[a + i + 1] == '>' {
        if a + i + 1 >= b {
          assert s[b..][a + i + 1 - b] == '>';
        }
      } else {
        assert '>' !in s[a + i + 1..];
        assert r[i + 1..] == s[a + i + 1..b];
        assert s[a + i + 1..b] == s[a + i + 1..][..b - (a + i + 1)];
      }
    }
  }

  function CleanAll(hs: seq<string>): (r: seq<string>)
    ensures |r| == |hs| && forall j :: 0 <= j < |hs| ==> r[j] == Clean(hs[j])
  {
    if |hs| == 0 then [] else [Clean(hs[0])] + CleanAll(hs[1..])
  }

  /** The first article element of a page, `<article[^>]*>(.*?)</article>` with `.` matching newlines. */
  function FindArticle(s: string): (r: Option<ElementMatch>)
    ensures r.Some? ==> r.value.open + |ArticleOpen| <= r.value.tagEnd < r.value.close && r.value.close + |ArticleEnd| <= |s|
  {
    var r := FindElement(s, ArticleOpen, ArticleEnd, 0);
    if r.Some? then ElementBounds(s, ArticleOpen, ArticleEnd, 0, r.value); r else r
  }

  /**
   * The headings of the first article span, cleaned, in document order; no
   * article span, no headings.
   */
  function ExtractHeadings(s: string): (hs: seq<string>)
    ensures FindArticle(s).None? ==> hs == []
  {
    match FindArticle(s)
    case None => []
    case Some(m) => CleanAll(ScanHeadings(Body(s, m)))
  }

  /** A page in which no `<article` opener is completed by a closing tag has no headings. */
  lemma NoArticleNoHeadings(s: string)
    requires forall i: nat :: OccursAt(s, ArticleOpen, i) ==> Unclosed(s, ArticleOpen, ArticleEnd, i)
    ensures ExtractHeadings(s) == []
  {
    match FindFrom(s, ArticleOpen, 0)
    case None =>
    case Some(i) =>
      assert Unclosed(s, ArticleOpen, ArticleEnd, i);
      assert FindTagEnd(s, ArticleOpen, ArticleEnd, i).None?;
  }

  /** When the page yields no headings for want of an article, no `<article` opener is completed. */
  lemma NoHeadingsNoArticle(s: string)
    requires FindArticle(s).None?
    ensures forall i: nat :: OccursAt(s, ArticleOpen, i) ==> Unclosed(s, ArticleOpen, ArticleEnd, i)
  {
    ElementMissing(s, ArticleOpen, ArticleEnd, 0);
  }

  /** Every extracted heading is tag-free and trimmed. */
  lemma ExtractedAreClean(s: string)
    ensures forall j :: 0 <= j < |ExtractHeadings(s)| ==> NoTag(ExtractHeadings(s)[j])
    ensures forall j :: 0 <= j < |ExtractHeadings(s)| ==> |ExtractHeadings(s)[j]| == 0 || !IsSpace(ExtractHeadings(s)[j][0])
  {
    var hs := ExtractHeadings(s);
    forall j | 0 <= j < |hs|
      ensures NoTag(hs[j])
    {
      match FindArticle(s)
      case Some(m) =>
        CleanLeavesNoTag(ScanHeadings(Body(s, m))[j]);
    }
  }

  /** Neither article tag can overlap itself. */
  lemma ArticleTagsHeadUnique()
    ensures HeadUnique(ArticleOpen) && HeadUnique(ArticleEnd)
  {
    assert ArticleOpen[1..] == ['a', 'r', 't', 'i', 'c', 'l', 'e'];
    assert ArticleEnd[1..] == ['/', 'a', 'r', 't', 'i', 'c', 'l', 'e', '>'];
  }

  /** A page's first article element is the match, and its group is the article's body. */
  lemma LocateArticle(s: string, before: string, attrs: string, body: string, after: string, m: ElementMatch)
    requires !Contains(before, ArticleOpen) && '>' !in attrs && !Contains(body, ArticleEnd)
    requires FramedAt(s, before, ArticleOpen, attrs, body, ArticleEnd, after)
    requires m == ElementMatch(|before|, |before| + |ArticleOpen| + |attrs|, |before| + |ArticleOpen| + |attrs| + 1 + |body|)
    ensures FindArticle(s) == Some(m) && m.tagEnd < m.close <= |s| && Body(s, m) == body
  {
    ArticleTagsHeadUnique();
    LocateElement(s, before, ArticleOpen, attrs, body, ArticleEnd, after, m.open, m.tagEnd, m.close);
  }

  /** The headings of a page are those of its first article, cleaned. */
  lemma ExtractFromArticle(before: string, attrs: string, body: string, after: string)
    requires !Contains(before, ArticleOpen) && '>' !in attrs && !Contains(body, ArticleEnd)
    ensures ExtractHeadings(before + ArticleOpen + attrs + ">" + body + ArticleEnd + after) == CleanAll(ScanHeadings(body))
  {
    var s := before + ArticleOpen + attrs + ">" + body + ArticleEnd + after;
    FramedSlices(s, before, ArticleOpen, attrs, body, ArticleEnd, after);
    var g := |before| + |ArticleOpen| + |attrs|;
    LocateArticle(s, before, attrs, body, after, ElementMatch(|before|, g, g + 1 + |body|));
  }

  /**
   * The headings of a page whose article renders `xs` are the texts of
   * `xs`, in order, each with its tags removed and its ends trimmed.
   */
  lemma ExtractRendered(before: string, attrs: string, xs: seq<HeadingSource>, tail: string, after: string)
    requires !Contains(before, ArticleOpen) && '>' !in attrs && !Contains(Render(xs, tail), ArticleEnd)
    requires forall j :: 0 <= j < |xs| ==> Plain(xs[j])
    requires !Contains(tail, H2Open)
    ensures ExtractHeadings(before + ArticleOpen + attrs + ">" + Render(xs, tail) + ArticleEnd + after) == CleanAll(Texts(xs))
  {
    ExtractFromArticle(before, attrs, Render(xs, tail), after);
    ScanRendered(xs, tail);
  }

  // ---------------------------------------------------------------------
  // The table of contents

  /** The marker that says a page already has a table of contents. */
  const TocMarker: string := "<div class=\"toc\">"
  const TocPre: string := "\n" + "    <!-- 目次 -->\n" + "    "
  const TocPost: string := "\n" + "      <div class=\"toc-title\">目次</div>\n" + "      <ol>\n"
  const TocHead: string := TocPre + TocMarker + TocPost
  const TocTail: string := "\n" + "      </ol>\n" + "    </div>\n"
  const ItemOpen: string := "      <li><a href=\"#sec-"
  const ItemMid: string := "\">"
  const ItemClose: string := "</a></li>"

  /** The list item that links to `#sec-i` and shows `h`. */
  function Item(i: nat, h: string): string {
    ItemOpen + NatToString(i) + ItemMid + h + ItemClose
  }

  /** The items of `hs`, numbered from `i` (`enumerate(headings, 1)` starts at 1). */
  function Items(hs: seq<string>, i: nat): (r: seq<string>)
    decreases |hs|
    ensures |r| == |hs| && forall j :: 0 <= j < |hs| ==> r[j] == Item(i + j, hs[j])
  {
    if |hs| == 0 then [] else [Item(i, hs[0])] + Items(hs[1..], i + 1)
  }

  /** Lines joined by line breaks between a front and a back. */
  function Wrap(head: string, lines: seq<string>, tail: string): string {
    head + Join(lines, "\n") + tail
  }

  /** The table of contents for `hs`: nothing at all when there is no heading. */
  function GenerateToc(hs: seq<string>): (r: string)
    ensures r == "" <==> |hs| == 0
  {
    if |hs| == 0 then "" else Wrap(TocHead, Items(hs, 1), TocTail)
  }

  /** A link number and the text it shows. */
  datatype ItemFields = ItemFields(number: nat, text: string)

  /** Reads a list item back: its number and its text, when the line has the item's shape. */
  function ParseItem(line: string): Option<ItemFields> {
    if |line| < |ItemOpen| + |ItemClose| || line[..|ItemOpen|] != ItemOpen || line[|line| - |ItemClose|..] != ItemClose then None
    else
      var mid := line[|ItemOpen|..|line| - |ItemClose|];
      match FindChar(mid, '"', 0)
      case None => None
      case Some(d) =>
        if d == 0 || d + |ItemMid| > |mid| || mid[d..d + |ItemMid|] != ItemMid || exists q :: 0 <= q < d && !IsDigit(mid[q]) then None
        else Some(ItemFields(ParseDecimal(mid[..d]), mid[d + |ItemMid|..]))
  }

  /** The lines between a known front and a known back, when the text has them. */
  function Unwrap(text: string, head: string, tail: string): Option<seq<string>> {
    if |text| < |head| + |tail| || text[..|head|] != head || text[|text| - |tail|..] != tail then None
    else Some(Split(text[|head|..|text| - |tail|], "\n"))
  }

  /** Reads a table of contents back into its lines, when it has the table's frame. */
  function TocLines(toc: string): Option<seq<string>> {
    Unwrap(toc, TocHead, TocTail)
  }

  /** Lines without line breaks come back out of their frame unchanged. */
  lemma UnwrapWrap(head: string, lines: seq<string>, tail: string)
    requires |lines| >= 1 && forall j :: 0 <= j < |lines| ==> '\n' !in lines[j]
    ensures Unwrap(Wrap(head, lines, tail), head, tail) == Some(lines)
  {
    var m := Join(lines, "\n");
    var text := head + m + tail;
    assert text[..|head|] == head && text[|text| - |tail|..] == tail;
    assert text[|head|..|text| - |tail|] == m;
    SplitJoinChar(lines, '\n');
  }

  /** Every item reads back as its number and its text. */
  lemma ParseItemRoundTrip(line: string, i: nat, h: string)
    requires line == Item(i, h)
    ensures ParseItem(line) == Some(ItemFields(i, h))
  {
    var n := NatToString(i);
    var mid := n + ItemMid + h;
    assert line == ItemOpen + mid + ItemClose;
    assert line[..|ItemOpen|] == ItemOpen && line[|line| - |ItemClose|..] == ItemClose;
    assert line[|ItemOpen|..|line| - |ItemClose|] == mid;
    assert mid[|n|] == '"';
    FindCharIs(mid, '"', 0, |n|);
    assert mid[..|n|] == n;
    assert mid[|n|..|n| + |ItemMid|] == ItemMid;
    assert mid[|n| + |ItemMid|..] == h;
    DecimalRoundTrip(i);
  }

  /** No item holds a line break when its heading holds none. */
  lemma ItemsOneLine(hs: seq<string>, i: nat)
    requires forall j :: 0 <= j < |hs| ==> '\n' !in hs[j]
    ensures forall j :: 0 <= j < |hs| ==> '\n' !in Items(hs, i)[j]
  {
    assert '\n' !in ItemOpen && '\n' !in ItemMid && '\n' !in ItemClose;
    forall j | 0 <= j < |hs|
      ensures '\n' !in Items(hs, i)[j]
    {
      assert '\n' !in NatToString(i + j);
    }
  }

  /** Each item reads back as its position, counted from `i`, and its heading. */
  lemma ItemsReadBack(hs: seq<string>, i: nat)
    ensures forall j :: 0 <= j < |hs| ==> ParseItem(Items(hs, i)[j]) == Some(ItemFields(i + j, hs[j]))
  {
    forall j | 0 <= j < |hs|
      ensures ParseItem(Items(hs, i)[j]) == Some(ItemFields(i + j, hs[j]))
    {
      ParseItemRoundTrip(Items(hs, i)[j], i + j, hs[j]);
    }
  }

  /**
   * The table of contents of N one-line headings reads back as N items,
   * the j-th linking to `#sec-(j+1)` and showing the j-th heading.
   */
  lemma TocReadBack(hs: seq<string>)
    requires |hs| > 0 && forall j :: 0 <= j < |hs| ==> '\n' !in hs[j]
    ensures TocLines(GenerateToc(hs)) == Some(Items(hs, 1))
    ensures forall j :: 0 <= j < |hs| ==> ParseItem(Items(hs, 1)[j]) == Some(ItemFields(j + 1, hs[j]))
  {
    ItemsOneLine(hs, 1);
    UnwrapWrap(TocHead, Items(hs, 1), TocTail);
    ItemsReadBack(hs, 1);
  }

  /** A table of contents carries its marker. */
  lemma TocHasMarker(hs: seq<string>)
    requires |hs| > 0
    ensures Contains(GenerateToc(hs), TocMarker)
  {
    MarkerInFrame(TocPre, TocMarker, TocPost, Join(Items(hs, 1), "\n"), TocTail);
  }

  lemma MarkerInFrame(pre: string, m: string, post: string, mid: string, tail: string)
    ensures Contains((pre + m + post) + mid + tail, m)
  {
    OccursAfterPrefix(pre, m, post + mid + tail);
    assert (pre + m + post) + mid + tail == pre + m + (post + mid + tail);
  }
}
