/**
 * Heading ids (`add_h2_ids`): inside every article element the k-th
 * `<h2…>` opener becomes `<h2 id="sec-k"…>`, unless it already carries
 * `id=` or k is past the cap of 50. The count restarts at every article,
 * and an opener that keeps its own id still takes up its number.
 */
module H2Ids {
  import opened Wrappers
  import opened Text
  import opened Headings

  /** The test `'id=' in tag`. */
  const IdWord: string := "id="
  /** Openers past this position keep their tag. */
  const Cap: nat := 50

  /** The attribute given to the n-th heading: ` id="sec-n"`. */
  function IdAttr(n: nat): string {
    " " + IdWord + "\"sec-" + NatToString(n) + "\""
  }

  /** `replace_h2` for the opener `tag`, the n-th of its article (the counter is raised before the id test). */
  function RetagOne(tag: string, n: nat): (r: string)
    ensures Contains(tag, IdWord) || n > Cap ==> r == tag
  {
    if Contains(tag, IdWord) then tag
    else if n <= Cap then ReplaceAll(tag, H2Open, H2Open + IdAttr(n))
    else tag
  }

  /** What becomes of the attributes `a` of the n-th opener `<h2 a>`. */
  function RetagAttrs(a: string, n: nat): string {
    if Contains(H2Open + a + ">", IdWord) || n > Cap then a
    else IdAttr(n) + ReplaceAll(a, H2Open, H2Open + IdAttr(n))
  }

  /** An opener keeps its shape: the id goes right after the word `<h2`, and the tag still ends at its one `>`. */
  lemma RetagOneOpener(a: string, n: nat)
    requires '>' !in a
    ensures RetagOne(H2Open + a + ">", n) == H2Open + RetagAttrs(a, n) + ">"
    ensures '>' !in RetagAttrs(a, n)
  {
    IdAttrNoClose(n);
    if !(Contains(H2Open + a + ">", IdWord) || n > Cap) {
      ReplaceLeading(H2Open, a, H2Open + IdAttr(n), '>');
      ReplaceAllKeepsChar(a, H2Open, H2Open + IdAttr(n), '>');
    }
  }

  /** Replacing in a text that opens with `p` and ends with a character foreign to `p`. */
  lemma ReplaceLeading(p: string, a: string, q: string, c: char)
    requires |p| > 0 && c !in p
    ensures ReplaceAll(p + a + [c], p, q) == q + ReplaceAll(a, p, q) + [c]
  {
    var u := p + a;
    ReplaceAllAppendChar(u, p, q, c);
    assert OccursAt(u, p, 0) by {
      assert u[..|p|] == p;
    }
    FindFromIs(u, p, 0, 0);
    ReplaceAllStep(u, p, q, 0);
    assert u[|p|..] == a;
  }

  lemma IdAttrNoClose(n: nat)
    ensures '>' !in IdAttr(n) && '>' !in H2Open + IdAttr(n)
  {
    assert IdAttr(n) == (" " + IdWord + "\"sec-") + NatToString(n) + "\"";
    assert '>' !in " " + IdWord + "\"sec-";
    assert H2Open == ['<', 'h', '2'];
  }

  /** An opener that was given its id carries `id=`, so a second pass keeps it. */
  lemma RetagAttrsIdempotent(a: string, n: nat)
    ensures RetagAttrs(RetagAttrs(a, n), n) == RetagAttrs(a, n)
  {
    if !(Contains(H2Open + a + ">", IdWord) || n > Cap) {
      FreshGetsId(a, n);
    }
  }

  /**
   * The n-th opener keeps its attributes exactly when it already holds
   * `id=` or n is past the cap; otherwise its new id comes first, right
   * after `<h2`. Either way an opener within the cap ends up with an id.
   */
  lemma RetagAttrsCases(a: string, n: nat)
    ensures RetagAttrs(a, n) == a <==> Contains(H2Open + a + ">", IdWord) || n > Cap
    ensures n <= Cap ==> Contains(H2Open + RetagAttrs(a, n) + ">", IdWord)
    ensures !Contains(H2Open + a + ">", IdWord) && n <= Cap ==>
      |IdAttr(n)| <= |RetagAttrs(a, n)| && RetagAttrs(a, n)[..|IdAttr(n)|] == IdAttr(n)
  {
    if !(Contains(H2Open + a + ">", IdWord) || n > Cap) {
      FreshGetsId(a, n);
    }
  }

  lemma FreshGetsId(a: string, n: nat)
    requires !Contains(H2Open + a + ">", IdWord) && n <= Cap
    ensures Contains(H2Open + RetagAttrs(a, n) + ">", IdWord)
  {
    var a1 := RetagAttrs(a, n);
    var rest := "\"sec-" + NatToString(n) + "\"" + ReplaceAll(a, H2Open, H2Open + IdAttr(n)) + ">";
    var x := H2Open + a1 + ">";
    assert x == (H2Open + " ") + IdWord + rest;
    OccursAfterPrefix(H2Open + " ", IdWord, rest);
    assert 0 <= |H2Open + " "| <= |x| - |IdWord|;
  }

  // ---------------------------------------------------------------------
  // The openers of one article

  /** A match of `<h2[^>]*>`: where the opener starts and where its `>` is. */
  datatype TagSpan = TagSpan(open: nat, tagEnd: nat)

  /**
   * The next match of `<h2[^>]*>`: the first opener and the first `>`
   * after its word. When that opener has no `>` after it, no later one has.
   */
  function NextTag(t: string): (r: Option<TagSpan>)
    ensures r.Some? ==> Find(t, H2Open) == Some(r.value.open) && r == TagEndFrom(t, r.value.open)
    ensures r.Some? ==> r.value.open + |H2Open| <= r.value.tagEnd < |t|
  {
    match Find(t, H2Open)
    case None => None
    case Some(i) => TagEndFrom(t, i)
  }

  function TagEndFrom(t: string, i: nat): (r: Option<TagSpan>)
    ensures r.Some? ==> r.value.open == i && FindChar(t, '>', i + |H2Open|) == Some(r.value.tagEnd)
    ensures r.Some? ==> i + |H2Open| <= r.value.tagEnd < |t|
  {
    match FindChar(t, '>', i + |H2Open|)
    case None => None
    case Some(g) => Some(TagSpan(i, g))
  }

  /** `re.sub(r'<h2[^>]*>', replace_h2, t)` with the counter at `n` before the first opener. */
  function RetagFrom(t: string, n: nat): string
    decreases |t|
  {
    match NextTag(t)
    case None => t
    case Some(m) => Before(t, m) + RetagOne(TagText(t, m), n + 1) + RetagFrom(After(t, m), n + 1)
  }

  /** The text before the opener `m`. */
  function Before(t: string, m: TagSpan): string
    requires m.open + |H2Open| <= m.tagEnd < |t|
  {
    t[..m.open]
  }

  /** The opener `m` itself, from `<h2` to its `>`. */
  function TagText(t: string, m: TagSpan): string
    requires m.open + |H2Open| <= m.tagEnd < |t|
  {
    t[m.open..m.tagEnd + 1]
  }

  /** The attributes of the opener `m`, between `<h2` and `>`. */
  function AttrsOf(t: string, m: TagSpan): string
    requires m.open + |H2Open| <= m.tagEnd < |t|
  {
    t[m.open + |H2Open|..m.tagEnd]
  }

  /** The text after the opener `m`. */
  function After(t: string, m: TagSpan): (r: string)
    requires m.open + |H2Open| <= m.tagEnd < |t|
    ensures |r| < |t|
  {
    t[m.tagEnd + 1..]
  }

  /** The text before an opener, and the opener's attributes. */
  datatype TagSource = TagSource(before: string, attrs: string)

  /** The opener can be read back: nothing before it opens a heading and its attributes hold no `>`. */
  predicate PlainTag(x: TagSource) {
    !Contains(x.before, H2Open) && '>' !in x.attrs
  }

  /** The text of a run of openers followed by `tail`. */
  function Tags(xs: seq<TagSource>, tail: string): string
    decreases |xs|
  {
    if |xs| == 0 then tail else xs[0].before + H2Open + xs[0].attrs + ">" + Tags(xs[1..], tail)
  }

  /** The openers of `t`, in order, and the text after the last one. */
  function ParseTags(t: string): (seq<TagSource>, string)
    decreases |t|
  {
    match NextTag(t)
    case None => ([], t)
    case Some(m) => Prepend(TagSource(Before(t, m), AttrsOf(t, m)), ParseTags(After(t, m)))
  }

  function Prepend(x: TagSource, p: (seq<TagSource>, string)): (seq<TagSource>, string) {
    ([x] + p.0, p.1)
  }

  /** The first three searches of `NextTag`, found, pin it down. */
  lemma NextTagIs(t: string, i: nat, g: nat)
    requires Find(t, H2Open) == Some(i) && FindChar(t, '>', i + |H2Open|) == Some(g)
    ensures NextTag(t) == Some(TagSpan(i, g))
  {
    TagEndIs(t, i, g);
  }

  lemma TagEndIs(t: string, i: nat, g: nat)
    requires FindChar(t, '>', i + |H2Open|) == Some(g)
    ensures TagEndFrom(t, i) == Some(TagSpan(i, g))
  {
  }

  /** What a found opener is made of: the text before it has no opener, and its tag is `<h2`, attributes without `>`, and `>`. */
  lemma TagSlices(t: string, m: TagSpan)
    requires NextTag(t) == Some(m)
    ensures !Contains(Before(t, m), H2Open)
    ensures '>' !in AttrsOf(t, m)
    ensures TagText(t, m) == H2Open + AttrsOf(t, m) + ">"
    ensures t == Before(t, m) + TagText(t, m) + After(t, m)
  {
    PrefixBeforeFirst(t, H2Open, m.open);
    AttrsNoClose(t, m);
    TagTextShape(t, m);
    assert t == t[..m.open] + t[m.open..m.tagEnd + 1] + t[m.tagEnd + 1..];
  }

  lemma AttrsNoClose(t: string, m: TagSpan)
    requires NextTag(t) == Some(m)
    ensures '>' !in AttrsOf(t, m)
  {
    assert TagEndFrom(t, m.open) == Some(m);
    var a := AttrsOf(t, m);
    forall q | 0 <= q < |a|
      ensures a[q] != '>'
    {
      assert a[q] == t[m.open + |H2Open| + q];
    }
  }

  lemma TagTextShape(t: string, m: TagSpan)
    requires NextTag(t) == Some(m)
    ensures TagText(t, m) == H2Open + AttrsOf(t, m) + ">"
  {
    assert TagEndFrom(t, m.open) == Some(m);
    var u := TagText(t, m);
    assert u[..|H2Open|] == t[m.open..m.open + |H2Open|] == H2Open;
    assert u[|u| - 1..] == [t[m.tagEnd]] == ">";
    assert u[|H2Open|..|u| - 1] == AttrsOf(t, m);
    assert u == u[..|H2Open|] + u[|H2Open|..|u| - 1] + u[|u| - 1..];
  }

  /** The text of openers `[x] + xs`, one opener at a time. */
  lemma TagsCons(x: TagSource, xs: seq<TagSource>, tail: string)
    ensures Tags([x] + xs, tail) == x.before + (H2Open + x.attrs + ">") + Tags(xs, tail)
  {
    assert ([x] + xs)[1..] == xs;
  }

  /** Where the opener of a rendered `x` is found. */
  lemma LocateTag(t: string, x: TagSource, rest: string, m: TagSpan)
    requires PlainTag(x) && t == x.before + (H2Open + x.attrs + ">") + rest
    requires m == TagSpan(|x.before|, |x.before| + |H2Open| + |x.attrs|)
    ensures NextTag(t) == Some(m)
    ensures Before(t, m) == x.before && AttrsOf(t, m) == x.attrs && After(t, m) == rest
  {
    FindTag(t, x, rest);
    TagParts(t, x, rest, m);
  }

  lemma FindTag(t: string, x: TagSource, rest: string)
    requires PlainTag(x) && t == x.before + (H2Open + x.attrs + ">") + rest
    ensures NextTag(t) == Some(TagSpan(|x.before|, |x.before| + |H2Open| + |x.attrs|))
  {
    var w := x.before + H2Open + x.attrs + ">";
    assert t[..|w|] == w;
    TagsHeadUnique();
    LocateOpener(t, x.before, H2Open, x.attrs, |x.before|, |x.before| + |H2Open| + |x.attrs|);
    NextTagIs(t, |x.before|, |x.before| + |H2Open| + |x.attrs|);
  }

  lemma TagParts(t: string, x: TagSource, rest: string, m: TagSpan)
    requires t == x.before + (H2Open + x.attrs + ">") + rest
    requires m == TagSpan(|x.before|, |x.before| + |H2Open| + |x.attrs|)
    ensures m.open + |H2Open| <= m.tagEnd < |t|
    ensures Before(t, m) == x.before && AttrsOf(t, m) == x.attrs && After(t, m) == rest
  {
    var tag := H2Open + x.attrs + ">";
    assert tag[|H2Open|..|H2Open| + |x.attrs|] == x.attrs;
    assert t[|x.before|..|x.before| + |tag|] == tag;
  }

  /** One step of `ParseTags`, as its definition gives it. */
  lemma ParseStep(t: string, m: TagSpan)
    requires NextTag(t) == Some(m)
    ensures ParseTags(t) == Prepend(TagSource(Before(t, m), AttrsOf(t, m)), ParseTags(After(t, m)))
  {
  }

  /** Reading the openers of a text and writing them back gives the text. */
  lemma {:induction false} TagsOfParse(t: string)
    ensures Tags(ParseTags(t).0, ParseTags(t).1) == t
    decreases |t|
  {
    if NextTag(t).Some? {
      var m := NextTag(t).value;
      ParseStep(t, m);
      TagSlices(t, m);
      TagsOfParse(After(t, m));
      var r := ParseTags(After(t, m));
      TagsCons(TagSource(Before(t, m), AttrsOf(t, m)), r.0, r.1);
    }
  }

  /** The openers read from a text can be read back, and after the last one no opener is completed. */
  lemma {:induction false} ParseTagsPlain(t: string)
    ensures forall j :: 0 <= j < |ParseTags(t).0| ==> PlainTag(ParseTags(t).0[j])
    ensures NextTag(ParseTags(t).1).None?
    decreases |t|
  {
    match NextTag(t)
    case None =>
    case Some(m) =>
      ParseStep(t, m);
      TagSlices(t, m);
      ParseTagsPlain(After(t, m));
      var xs := ParseTags(t).0;
      var ys := ParseTags(After(t, m)).0;
      forall j | 0 <= j < |xs|
        ensures PlainTag(xs[j])
      {
        if j > 0 {
          assert xs[j] == ys[j - 1];
        }
      }
  }

  /** Writing plain openers and reading them back gives the openers. */
  lemma {:induction false} ParseOfTags(xs: seq<TagSource>, tail: string)
    requires forall j :: 0 <= j < |xs| ==> PlainTag(xs[j])
    requires NextTag(tail).None?
    ensures ParseTags(Tags(xs, tail)) == (xs, tail)
    decreases |xs|
  {
    if |xs| > 0 {
      var t := Tags(xs, tail);
      var m := TagSpan(|xs[0].before|, |xs[0].before| + |H2Open| + |xs[0].attrs|);
      assert [xs[0]] + xs[1..] == xs;
      TagsCons(xs[0], xs[1..], tail);
      LocateTag(t, xs[0], Tags(xs[1..], tail), m);
      ParseOfTags(xs[1..], tail);
      ParseStep(t, m);
      assert [xs[0]] + xs[1..] == xs;
    }
  }

  /** The openers after numbering: the j-th, counted from the counter `n`, has its attributes retagged as number `n + j + 1`. */
  function Renumber(xs: seq<TagSource>, n: nat): (r: seq<TagSource>)
    decreases |xs|
    ensures |r| == |xs| && forall j :: 0 <= j < |xs| ==> r[j] == TagSource(xs[j].before, RetagAttrs(xs[j].attrs, n + j + 1))
  {
    if |xs| == 0 then [] else [TagSource(xs[0].before, RetagAttrs(xs[0].attrs, n + 1))] + Renumber(xs[1..], n + 1)
  }

  /** One step of `RetagFrom`, as its definition gives it. */
  lemma RetagStep(t: string, n: nat, m: TagSpan)
    requires NextTag(t) == Some(m)
    ensures RetagFrom(t, n) == Before(t, m) + RetagOne(TagText(t, m), n + 1) + RetagFrom(After(t, m), n + 1)
  {
  }

  /**
   * Numbering a text of plain openers retags the j-th of them as number
   * `n + j + 1` and leaves everything else, the text between them and the
   * tail, as it was.
   */
  lemma {:induction false} RetagTags(xs: seq<TagSource>, tail: string, n: nat)
    requires forall j :: 0 <= j < |xs| ==> PlainTag(xs[j])
    requires NextTag(tail).None?
    ensures RetagFrom(Tags(xs, tail), n) == Tags(Renumber(xs, n), tail)
    decreases |xs|
  {
    if |xs| > 0 {
      var x := xs[0];
      var t := Tags(xs, tail);
      var m := TagSpan(|x.before|, |x.before| + |H2Open| + |x.attrs|);
      assert [x] + xs[1..] == xs;
      TagsCons(x, xs[1..], tail);
      LocateTag(t, x, Tags(xs[1..], tail), m);
      RetagStep(t, n, m);
      TagTextShape(t, m);
      RetagOneOpener(x.attrs, n + 1);
      RetagTags(xs[1..], tail, n + 1);
      var y := TagSource(x.before, RetagAttrs(x.attrs, n + 1));
      RenumberCons(xs, n);
      TagsCons(y, Renumber(xs[1..], n + 1), tail);
    }
  }

  lemma RenumberCons(xs: seq<TagSource>, n: nat)
    requires |xs| > 0
    ensures Renumber(xs, n) == [TagSource(xs[0].before, RetagAttrs(xs[0].attrs, n + 1))] + Renumber(xs[1..], n + 1)
  {
  }

  /** Numbering keeps openers plain: the retagged attributes hold no `>` either. */
  lemma RenumberPlain(xs: seq<TagSource>, n: nat)
    requires forall j :: 0 <= j < |xs| ==> PlainTag(xs[j])
    ensures forall j :: 0 <= j < |xs| ==> PlainTag(Renumber(xs, n)[j])
  {
    forall j | 0 <= j < |xs|
      ensures PlainTag(Renumber(xs, n)[j])
    {
      RetagOneOpener(xs[j].attrs, n + j + 1);
    }
  }

  /** Numbering the numbered openers again changes nothing. */
  lemma RenumberIdempotent(xs: seq<TagSource>, n: nat)
    ensures Renumber(Renumber(xs, n), n) == Renumber(xs, n)
  {
    var ys := Renumber(xs, n);
    forall j | 0 <= j < |xs|
      ensures Renumber(ys, n)[j] == ys[j]
    {
      RetagAttrsIdempotent(xs[j].attrs, n + j + 1);
    }
  }

  /**
   * `re.sub(r'<h2[^>]*>', replace_h2, t)` in full: the openers of `t` are
   * read off, the j-th is retagged as number `n + j + 1`, and the rest of the
   * text stays as it was.
   */
  lemma RetagIsRenumber(t: string, n: nat)
    ensures RetagFrom(t, n) == Tags(Renumber(ParseTags(t).0, n), ParseTags(t).1)
  {
    TagsOfParse(t);
    ParseTagsPlain(t);
    RetagTags(ParseTags(t).0, ParseTags(t).1, n);
  }

  /** Numbering the openers of an article twice is numbering them once. */
  lemma RetagIdempotent(t: string, n: nat)
    ensures RetagFrom(RetagFrom(t, n), n) == RetagFrom(t, n)
  {
    var xs := ParseTags(t).0;
    var tail := ParseTags(t).1;
    RetagIsRenumber(t, n);
    ParseTagsPlain(t);
    RenumberPlain(xs, n);
    RetagTags(Renumber(xs, n), tail, n);
    RenumberIdempotent(xs, n);
  }

  /** An opener that gains an id gains no closing article tag with it. */
  lemma RetagOneNoCloser(tag: string, k: nat)
    requires !Contains(tag, ArticleEnd)
    ensures !Contains(RetagOne(tag, k), ArticleEnd)
  {
    if !Contains(tag, IdWord) && k <= Cap {
      var q := H2Open + IdAttr(k);
      IdAttrNoSlash(k);
      assert ArticleEnd[1] == '/';
      MissingCharNoOccurrence(q, ArticleEnd, 1);
      assert q[0] == '<' && q[|q| - 1] == '"';
      assert ArticleEnd[1..] == "/article>" && ArticleEnd[..|ArticleEnd| - 1] == "</article";
      ReplaceAllKeepsAbsent(tag, H2Open, q, ArticleEnd);
    }
  }

  lemma IdAttrNoSlash(n: nat)
    ensures '/' !in H2Open + IdAttr(n)
  {
    assert H2Open + IdAttr(n) == (H2Open + " " + IdWord + "\"sec-") + NatToString(n) + "\"";
    assert '/' !in H2Open + " " + IdWord + "\"sec-";
  }

  /** Numbering the openers of an article body creates no closing article tag. */
  lemma {:induction false} RetagKeepsNoCloser(t: string, n: nat)
    requires !Contains(t, ArticleEnd)
    ensures !Contains(RetagFrom(t, n), ArticleEnd)
    decreases |t|
  {
    if NextTag(t).Some? {
      var m := NextTag(t).value;
      RetagStep(t, n, m);
      PartsNoCloser(t, m);
      RetagOneNoCloser(TagText(t, m), n + 1);
      RetagKeepsNoCloser(After(t, m), n + 1);
      RetaggedEnds(t, m, n + 1);
      JoinNoCloser(Before(t, m), RetagOne(TagText(t, m), n + 1), RetagFrom(After(t, m), n + 1));
    }
  }

  lemma PartsNoCloser(t: string, m: TagSpan)
    requires NextTag(t) == Some(m) && !Contains(t, ArticleEnd)
    ensures !Contains(Before(t, m), ArticleEnd) && !Contains(TagText(t, m), ArticleEnd) && !Contains(After(t, m), ArticleEnd)
  {
    NotContainsInfix(t, ArticleEnd, 0, m.open);
    NotContainsInfix(t, ArticleEnd, m.open, m.tagEnd + 1);
    NotContainsInfix(t, ArticleEnd, m.tagEnd + 1, |t|);
    assert Before(t, m) == t[0..m.open] && After(t, m) == t[m.tagEnd + 1..|t|];
  }

  /** A retagged opener still starts with `<` and ends with `>`. */
  lemma RetaggedEnds(t: string, m: TagSpan, k: nat)
    requires NextTag(t) == Some(m)
    ensures var tag := RetagOne(TagText(t, m), k); |tag| > 0 && tag[0] == '<' && tag[|tag| - 1] == '>'
  {
    TagSlices(t, m);
    RetagOneOpener(AttrsOf(t, m), k);
  }

  /** Three pieces free of `</article>` joined at a `<` and at a `>` stay free of it. */
  lemma JoinNoCloser(b: string, tag: string, rest: string)
    requires |tag| > 0 && tag[0] == '<' && tag[|tag| - 1] == '>'
    requires !Contains(b, ArticleEnd) && !Contains(tag, ArticleEnd) && !Contains(rest, ArticleEnd)
    ensures !Contains(b + tag + rest, ArticleEnd)
  {
    assert ArticleEnd[1..] == "/article>" && ArticleEnd[..|ArticleEnd| - 1] == "</article";
    NoOccurrenceJoinAtEnd(tag, rest, ArticleEnd);
    assert (tag + rest)[0] == '<';
    NoOccurrenceJoinAtStart(b, tag + rest, ArticleEnd);
    assert b + tag + rest == b + (tag + rest);
  }

  // ---------------------------------------------------------------------
  // The articles of a page

  /** Bounds of an article match, as `FindArticle` gives them. */
  predicate ArticleSpan(s: string, m: ElementMatch) {
    m.open + |ArticleOpen| <= m.tagEnd < m.close && m.close + |ArticleEnd| <= |s|
  }

  /** The text before the article `m`. */
  function ArticleBefore(s: string, m: ElementMatch): string
    requires ArticleSpan(s, m)
  {
    s[..m.open]
  }

  /** The attributes of the opening tag of the article `m`. */
  function ArticleAttrs(s: string, m: ElementMatch): string
    requires ArticleSpan(s, m)
  {
    s[m.open + |ArticleOpen|..m.tagEnd]
  }

  /** The text from the start of the page to the end of the opening tag of the article `m`. */
  function ArticleHead(s: string, m: ElementMatch): string
    requires ArticleSpan(s, m)
  {
    s[..m.tagEnd + 1]
  }

  /** The text after the closing tag of the article `m`. */
  function ArticleRest(s: string, m: ElementMatch): (r: string)
    requires ArticleSpan(s, m)
    ensures |r| < |s|
  {
    s[m.close + |ArticleEnd|..]
  }

  /**
   * `add_h2_ids`: `re.sub(r'<article[^>]*>(.*?)</article>', process_article,
   * s, flags=re.DOTALL)`. Each article keeps its opening tag, has the
   * openers of its body numbered from a counter reset to 0, and is closed
   * again; the search goes on after its closing tag.
   */
  function AddIds(s: string): string
    decreases |s|
  {
    match FindArticle(s)
    case None => s
    case Some(m) => ArticleHead(s, m) + RetagFrom(Body(s, m), 0) + ArticleEnd + AddIds(ArticleRest(s, m))
  }

  /** The text before an article, its opening tag's attributes, and its body. */
  datatype ArticleSource = ArticleSource(before: string, attrs: string, body: string)

  /** The article can be read back: nothing before it opens an article, its tag has one `>`, and its body does not close it early. */
  predicate PlainArticle(x: ArticleSource) {
    !Contains(x.before, ArticleOpen) && '>' !in x.attrs && !Contains(x.body, ArticleEnd)
  }

  /** The text of a run of articles followed by `tail`. */
  function Articles(xs: seq<ArticleSource>, tail: string): string
    decreases |xs|
  {
    if |xs| == 0 then tail else xs[0].before + ArticleOpen + xs[0].attrs + ">" + xs[0].body + ArticleEnd + Articles(xs[1..], tail)
  }

  /** The articles of `s`, in order, and the text after the last one. */
  function ParseArticles(s: string): (seq<ArticleSource>, string)
    decreases |s|
  {
    match FindArticle(s)
    case None => ([], s)
    case Some(m) => PrependArticle(ArticleSource(ArticleBefore(s, m), ArticleAttrs(s, m), Body(s, m)), ParseArticles(ArticleRest(s, m)))
  }

  function PrependArticle(x: ArticleSource, p: (seq<ArticleSource>, string)): (seq<ArticleSource>, string) {
    ([x] + p.0, p.1)
  }

  /** The articles with the openers of every body numbered from 1. */
  function RetagBodies(xs: seq<ArticleSource>): (r: seq<ArticleSource>)
    decreases |xs|
    ensures |r| == |xs| && forall j :: 0 <= j < |xs| ==> r[j] == ArticleSource(xs[j].before, xs[j].attrs, RetagFrom(xs[j].body, 0))
  {
    if |xs| == 0 then [] else [ArticleSource(xs[0].before, xs[0].attrs, RetagFrom(xs[0].body, 0))] + RetagBodies(xs[1..])
  }

  lemma ArticleMatchSpan(s: string, m: ElementMatch)
    requires FindArticle(s) == Some(m)
    ensures ArticleSpan(s, m)
  {
  }

  /** What a found article is made of. */
  lemma ArticleSlices(s: string, m: ElementMatch)
    requires FindArticle(s) == Some(m)
    ensures ArticleSpan(s, m)
    ensures PlainArticle(ArticleSource(ArticleBefore(s, m), ArticleAttrs(s, m), Body(s, m)))
    ensures s == ArticleBefore(s, m) + ArticleOpen + ArticleAttrs(s, m) + ">" + Body(s, m) + ArticleEnd + ArticleRest(s, m)
  {
    ArticleOpenerFacts(s, m);
    ArticleBodyFacts(s, m);
    ArticleDecompose(s, m);
  }

  lemma ArticleOpenerFacts(s: string, m: ElementMatch)
    requires FindArticle(s) == Some(m)
    ensures ArticleSpan(s, m)
    ensures !Contains(ArticleBefore(s, m), ArticleOpen) && '>' !in ArticleAttrs(s, m)
  {
    assert FindTagEnd(s, ArticleOpen, ArticleEnd, m.open) == Some(m);
    PrefixBeforeFirst(s, ArticleOpen, m.open);
    var a := ArticleAttrs(s, m);
    forall q | 0 <= q < |a|
      ensures a[q] != '>'
    {
      assert a[q] == s[m.open + |ArticleOpen| + q];
    }
  }

  lemma ArticleBodyFacts(s: string, m: ElementMatch)
    requires FindArticle(s) == Some(m)
    ensures ArticleSpan(s, m) && !Contains(Body(s, m), ArticleEnd)
  {
    ElementCloser(s, ArticleOpen, ArticleEnd, 0, m);
    NotContainsBeforeFirst(s, ArticleEnd, m.tagEnd + 1, m.close);
  }

  lemma ArticleDecompose(s: string, m: ElementMatch)
    requires FindArticle(s) == Some(m)
    ensures ArticleSpan(s, m)
    ensures s == ArticleBefore(s, m) + ArticleOpen + ArticleAttrs(s, m) + ">" + Body(s, m) + ArticleEnd + ArticleRest(s, m)
  {
    ArticleMarks(s, m);
    ArticleCut(s, m);
  }

  lemma ArticleMarks(s: string, m: ElementMatch)
    requires FindArticle(s) == Some(m)
    ensures OccursAt(s, ArticleOpen, m.open) && m.tagEnd < |s| && s[m.tagEnd] == '>' && OccursAt(s, ArticleEnd, m.close)
  {
    assert FindTagEnd(s, ArticleOpen, ArticleEnd, m.open) == Some(m);
    ElementCloser(s, ArticleOpen, ArticleEnd, 0, m);
  }

  lemma ArticleCut(s: string, m: ElementMatch)
    requires ArticleSpan(s, m)
    requires OccursAt(s, ArticleOpen, m.open) && s[m.tagEnd] == '>' && OccursAt(s, ArticleEnd, m.close)
    ensures s == ArticleBefore(s, m) + ArticleOpen + ArticleAttrs(s, m) + ">" + Body(s, m) + ArticleEnd + ArticleRest(s, m)
  {
    FrameParts(s, ArticleOpen, ArticleEnd, m.open, m.tagEnd, m.close);
  }

  /** A text cut at an element's opener word, its `>` and its closer. */
  lemma FrameParts(s: string, word: string, closer: string, i: nat, g: nat, c: nat)
    requires i + |word| <= g < c && c + |closer| <= |s|
    requires OccursAt(s, word, i) && s[g] == '>' && OccursAt(s, closer, c)
    ensures s == s[..i] + word + s[i + |word|..g] + ">" + s[g + 1..c] + closer + s[c + |closer|..]
  {
    var u := s[..i] + word + s[i + |word|..g] + ">";
    assert u == s[..g + 1];
    var v := s[g + 1..c] + closer + s[c + |closer|..];
    assert v == s[g + 1..];
  }

  /** Where the first rendered article of a page is found, and what it is cut into. */
  lemma LocateArticleOf(t: string, x: ArticleSource, rest: string, m: ElementMatch)
    requires PlainArticle(x)
    requires t == x.before + ArticleOpen + x.attrs + ">" + x.body + ArticleEnd + rest
    requires m == ElementMatch(|x.before|, |x.before| + |ArticleOpen| + |x.attrs|, |x.before| + |ArticleOpen| + |x.attrs| + 1 + |x.body|)
    ensures FindArticle(t) == Some(m) && ArticleSpan(t, m)
    ensures ArticleBefore(t, m) == x.before && ArticleAttrs(t, m) == x.attrs && Body(t, m) == x.body
    ensures ArticleHead(t, m) == x.before + ArticleOpen + x.attrs + ">" && ArticleRest(t, m) == rest
  {
    FramedSlices(t, x.before, ArticleOpen, x.attrs, x.body, ArticleEnd, rest);
    LocateArticle(t, x.before, x.attrs, x.body, rest, m);
    ArticleParts(t, x, rest, m);
  }

  lemma ArticleParts(t: string, x: ArticleSource, rest: string, m: ElementMatch)
    requires t == x.before + ArticleOpen + x.attrs + ">" + x.body + ArticleEnd + rest
    requires m == ElementMatch(|x.before|, |x.before| + |ArticleOpen| + |x.attrs|, |x.before| + |ArticleOpen| + |x.attrs| + 1 + |x.body|)
    ensures ArticleSpan(t, m)
    ensures ArticleBefore(t, m) == x.before && ArticleAttrs(t, m) == x.attrs
    ensures ArticleHead(t, m) == x.before + ArticleOpen + x.attrs + ">" && ArticleRest(t, m) == rest
  {
    var head := x.before + ArticleOpen + x.attrs + ">";
    assert t[..|head|] == head;
    assert head[..|x.before|] == x.before;
    assert head[|x.before| + |ArticleOpen|..|head| - 1] == x.attrs;
    assert t[|head| + |x.body| + |ArticleEnd|..] == rest;
  }

  /** The text of articles `[x] + xs`, one article at a time. */
  lemma ArticlesCons(x: ArticleSource, xs: seq<ArticleSource>, tail: string)
    ensures Articles([x] + xs, tail) == x.before + ArticleOpen + x.attrs + ">" + x.body + ArticleEnd + Articles(xs, tail)
  {
    assert ([x] + xs)[1..] == xs;
  }

  /** One step of `AddIds`, as its definition gives it. */
  lemma AddIdsStep(s: string, m: ElementMatch)
    requires FindArticle(s) == Some(m)
    ensures ArticleSpan(s, m)
    ensures AddIds(s) == ArticleHead(s, m) + RetagFrom(Body(s, m), 0) + ArticleEnd + AddIds(ArticleRest(s, m))
  {
  }

  /** One step of `ParseArticles`, as its definition gives it. */
  lemma ParseArticlesStep(s: string, m: ElementMatch)
    requires FindArticle(s) == Some(m)
    ensures ArticleSpan(s, m)
    ensures ParseArticles(s) == PrependArticle(ArticleSource(ArticleBefore(s, m), ArticleAttrs(s, m), Body(s, m)), ParseArticles(ArticleRest(s, m)))
  {
  }

  lemma RetagBodiesCons(xs: seq<ArticleSource>)
    requires |xs| > 0
    ensures RetagBodies(xs) == [ArticleSource(xs[0].before, xs[0].attrs, RetagFrom(xs[0].body, 0))] + RetagBodies(xs[1..])
  {
  }

  /** Reading the articles of a page and writing them back gives the page. */
  lemma {:induction false} ArticlesOfParse(s: string)
    ensures Articles(ParseArticles(s).0, ParseArticles(s).1) == s
    decreases |s|
  {
    if FindArticle(s).Some? {
      var m := FindArticle(s).value;
      ParseArticlesStep(s, m);
      ArticleSlices(s, m);
      ArticlesOfParse(ArticleRest(s, m));
      var r := ParseArticles(ArticleRest(s, m));
      ArticlesCons(ArticleSource(ArticleBefore(s, m), ArticleAttrs(s, m), Body(s, m)), r.0, r.1);
    }
  }

  /** The articles read from a page can be read back, and the text after the last one holds no complete article. */
  lemma {:induction false} ParseArticlesPlain(s: string)
    ensures forall j :: 0 <= j < |ParseArticles(s).0| ==> PlainArticle(ParseArticles(s).0[j])
    ensures FindArticle(ParseArticles(s).1).None?
    decreases |s|
  {
    if FindArticle(s).Some? {
      var m := FindArticle(s).value;
      ParseArticlesStep(s, m);
      ArticleSlices(s, m);
      ParseArticlesPlain(ArticleRest(s, m));
      var xs := ParseArticles(s).0;
      var ys := ParseArticles(ArticleRest(s, m)).0;
      forall j | 0 <= j < |xs|
        ensures PlainArticle(xs[j])
      {
        if j > 0 {
          assert xs[j] == ys[j - 1];
        }
      }
    }
  }

  /** Writing plain articles and reading them back gives the articles. */
  lemma {:induction false} ParseOfArticles(xs: seq<ArticleSource>, tail: string)
    requires forall j :: 0 <= j < |xs| ==> PlainArticle(xs[j])
    requires FindArticle(tail).None?
    ensures ParseArticles(Articles(xs, tail)) == (xs, tail)
    decreases |xs|
  {
    if |xs| > 0 {
      var x := xs[0];
      var t := Articles(xs, tail);
      var m := ElementMatch(|x.before|, |x.before| + |ArticleOpen| + |x.attrs|, |x.before| + |ArticleOpen| + |x.attrs| + 1 + |x.body|);
      assert [x] + xs[1..] == xs;
      ArticlesCons(x, xs[1..], tail);
      LocateArticleOf(t, x, Articles(xs[1..], tail), m);
      ParseOfArticles(xs[1..], tail);
      ParseArticlesStep(t, m);
    }
  }

  /**
   * `add_h2_ids` on a page of plain articles: every article keeps the text
   * before it and its opening tag, and has the openers of its body numbered
   * from 1; the text after the last article is kept.
   */
  lemma {:induction false} AddIdsArticles(xs: seq<ArticleSource>, tail: string)
    requires forall j :: 0 <= j < |xs| ==> PlainArticle(xs[j])
    requires FindArticle(tail).None?
    ensures AddIds(Articles(xs, tail)) == Articles(RetagBodies(xs), tail)
    decreases |xs|
  {
    if |xs| > 0 {
      var x := xs[0];
      var t := Articles(xs, tail);
      var m := ElementMatch(|x.before|, |x.before| + |ArticleOpen| + |x.attrs|, |x.before| + |ArticleOpen| + |x.attrs| + 1 + |x.body|);
      assert [x] + xs[1..] == xs;
      ArticlesCons(x, xs[1..], tail);
      LocateArticleOf(t, x, Articles(xs[1..], tail), m);
      AddIdsStep(t, m);
      AddIdsArticles(xs[1..], tail);
      RetagBodiesCons(xs);
      var y := ArticleSource(x.before, x.attrs, RetagFrom(x.body, 0));
      ArticlesCons(y, RetagBodies(xs[1..]), tail);
    }
  }

  /** `add_h2_ids` in full: the articles of the page are read off and each body is numbered from 1. */
  lemma AddIdsIsRetag(s: string)
    ensures AddIds(s) == Articles(RetagBodies(ParseArticles(s).0), ParseArticles(s).1)
  {
    ArticlesOfParse(s);
    ParseArticlesPlain(s);
    AddIdsArticles(ParseArticles(s).0, ParseArticles(s).1);
  }

  /** Numbering keeps articles plain: no body gains a closing article tag. */
  lemma RetagBodiesPlain(xs: seq<ArticleSource>)
    requires forall j :: 0 <= j < |xs| ==> PlainArticle(xs[j])
    ensures forall j :: 0 <= j < |xs| ==> PlainArticle(RetagBodies(xs)[j])
  {
    forall j | 0 <= j < |xs|
      ensures PlainArticle(RetagBodies(xs)[j])
    {
      RetagKeepsNoCloser(xs[j].body, 0);
    }
  }

  lemma RetagBodiesIdempotent(xs: seq<ArticleSource>)
    ensures RetagBodies(RetagBodies(xs)) == RetagBodies(xs)
  {
    var ys := RetagBodies(xs);
    forall j | 0 <= j < |xs|
      ensures RetagBodies(ys)[j] == ys[j]
    {
      RetagIdempotent(xs[j].body, 0);
    }
  }

  /** Adding heading ids a second time changes nothing. */
  lemma AddIdsIdempotent(s: string)
    ensures AddIds(AddIds(s)) == AddIds(s)
  {
    var xs := ParseArticles(s).0;
    var tail := ParseArticles(s).1;
    AddIdsIsRetag(s);
    ParseArticlesPlain(s);
    RetagBodiesPlain(xs);
    AddIdsArticles(RetagBodies(xs), tail);
    RetagBodiesIdempotent(xs);
  }
}
