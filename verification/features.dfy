/**
 * The text transform applied to one article page: the breadcrumb before
 * the hero block, the reading-time box after it, the share buttons after
 * the first feedback block, the removal of the old next-read blocks, and
 * the related-articles section before the closing article tag. A page that
 * already carries the breadcrumb marker is left alone.
 */
module Features {
  import opened Wrappers
  import opened Text
  import opened Catalog

  /** The comment that marks a page as already processed. */
  const Marker: string := "<!-- パンくずリスト -->"

  const Hero: string := "<div class=\"hero\">"
  const HeroEnd: string := "</div>\n</div>\n\n<div class=\"content-wrapper\">"
  const HeroEndAlt: string := "</div>\n\n<div class=\"content-wrapper\">"
  const FeedbackOpen: string := "<div class=\"feedback-section\">"
  const NextReadOpen: string := "<div class=\"next-read\">"
  const DivClose: string := "</div>"
  const ArticleClose: string := "  </article>"

  /** The outcome of processing a page: skipped, or rewritten to new text. */
  datatype Outcome = AlreadyProcessed | Rewritten(html: string)

  // ---------------------------------------------------------------------
  // Breadcrumb

  /** The style sheet of the navigation line. */
  const BreadcrumbStyle: string :=
    "<style>\n"
    + ".breadcrumb {\n"
    + "  font-size: 12px;\n"
    + "  color: #999;\n"
    + "  padding: 8px 24px;\n"
    + "  background: #fff;\n"
    + "  border-bottom: 1px solid #eee;\n"
    + "}\n"
    + ".breadcrumb a {\n"
    + "  color: #e63946;\n"
    + "  text-decoration: none;\n"
    + "}\n"
    + ".breadcrumb a:hover {\n"
    + "  text-decoration: underline;\n"
    + "}\n"
    + ".breadcrumb .current {\n"
    + "  color: #333;\n"
    + "}\n"
    + "</style>\n"

  /** The schema.org list up to the category name. */
  const SchemaHead: string :=
    "\n"
    + "<!-- Schema.org BreadcrumbList -->\n"
    + "<script type=\"application/ld+json\">\n"
    + "{\n"
    + "  \"@context\": \"https://schema.org\",\n"
    + "  \"@type\": \"BreadcrumbList\",\n"
    + "  \"itemListElement\": [\n"
    + "    {\n"
    + "      \"@type\": \"ListItem\",\n"
    + "      \"position\": 1,\n"
    + "      \"name\": \"Home\",\n"
    + "      \"item\": \"https://daisuki-koshian.github.io/blog/\"\n"
    + "    },\n"
    + "    {\n"
    + "      \"@type\": \"ListItem\",\n"
    + "      \"position\": 2,\n"
    + "      \"name\": \""

  /** From the category name to the article name. */
  const SchemaMiddle: string :=
    "\",\n"
    + "      \"item\": \"https://daisuki-koshian.github.io/blog/#\"\n"
    + "    },\n"
    + "    {\n"
    + "      \"@type\": \"ListItem\",\n"
    + "      \"position\": 3,\n"
    + "      \"name\": \""

  /** From the article name to the article slug in its address. */
  const SchemaItem: string :=
    "\",\n"
    + "      \"item\": \"https://daisuki-koshian.github.io/blog/"

  /** The end of the schema.org list. */
  const SchemaTail: string :=
    "/\"\n"
    + "    }\n"
    + "  ]\n"
    + "}\n"
    + "</script>\n"

  /** The category label as the page shows it; a slug outside every category prints Python's `None`. */
  function CategoryLabel(slug: string): (shown: string)
    ensures forall c: Category :: slug in Articles(c) ==> shown == Label(c)
    ensures (forall c: Category :: slug !in Articles(c)) ==> shown == "None"
  {
    CategoryOfListed(slug);
    match GetCategory(slug)
    case None => "None"
    case Some(c) => Label(c)
  }

  /** The navigation line: home, then the category label, then the current article title. */
  function Nav(lab: string, title: string): (html: string)
    ensures Contains(html, lab) && Contains(html, title)
  {
    var head := "<nav class=\"breadcrumb\" aria-label=\"Breadcrumb\">\n  <a href=\"../\">Home</a> &gt; <span>";
    var middle := "</span> &gt; <span class=\"current\">";
    var tail := "</span>\n</nav>\n";
    ContainsSelf(lab);
    ContainsSelf(title);
    ContainsInInfix(head, lab, middle + title + tail, lab);
    ContainsInInfix(head + lab + middle, title, tail, title);
    assert head + lab + (middle + title + tail) == head + lab + middle + title + tail;
    head + lab + middle + title + tail
  }

  /** The schema.org list of the three breadcrumb levels. */
  function Schema(lab: string, title: string, slug: string): string {
    SchemaHead + lab + SchemaMiddle + title + SchemaItem + slug + SchemaTail
  }

  /** The breadcrumb block after the marker line: the navigation line, its style sheet and the schema.org list. */
  function BreadcrumbBody(lab: string, title: string, slug: string): (html: string)
    ensures Contains(html, lab) && Contains(html, title)
  {
    var nav := Nav(lab, title);
    var rest := "\n" + BreadcrumbStyle + Schema(lab, title, slug);
    ContainsInInfix("\n", nav, rest, lab);
    ContainsInInfix("\n", nav, rest, title);
    "\n" + nav + rest
  }

  /**
   * The breadcrumb block of an article: a newline, the marker, and the rest
   * of the block, for the article's category label, title and slug.
   */
  function Breadcrumb(lab: string, title: string, slug: string): (html: string) {
    "\n" + Marker + BreadcrumbBody(lab, title, slug)
  }

  /** The breadcrumb starts with a newline and the marker, and shows the category label and the article title. */
  lemma BreadcrumbContents(lab: string, title: string, slug: string)
    ensures OccursAt(Breadcrumb(lab, title, slug), Marker, 1)
    ensures Contains(Breadcrumb(lab, title, slug), lab) && Contains(Breadcrumb(lab, title, slug), title)
  {
    var body := BreadcrumbBody(lab, title, slug);
    OccursAfterPrefix("\n", Marker, body);
    ContainsExtendLeft("\n" + Marker, body, lab);
    ContainsExtendLeft("\n" + Marker, body, title);
  }

  /** Step 1: the breadcrumb block and a newline go immediately before every hero block, and nothing else changes. */
  function AddBreadcrumb(html: string, crumb: string): (r: string)
    ensures r == Join(Split(html, Hero), crumb + "\n" + Hero)
  {
    ReplaceAllIsJoinOfSplit(html, Hero, crumb + "\n" + Hero);
    ReplaceAll(html, Hero, crumb + "\n" + Hero)
  }

  /** A block that carries the marker leaves the marker on a page with a hero block. */
  lemma MarkedBlockMarksPage(html: string, crumb: string)
    requires Contains(html, Hero) && Contains(crumb, Marker)
    ensures Contains(AddBreadcrumb(html, crumb), Marker)
  {
    ContainsExtendRight(crumb, "\n", Marker);
    ContainsExtendRight(crumb + "\n", Hero, Marker);
    ReplacementContentPresent(html, Hero, crumb + "\n" + Hero, Marker);
  }

  // ---------------------------------------------------------------------
  // Reading time

  /** What replaces the first hero-end anchor: the two closing tags, the box, the content wrapper. */
  function PrimaryBox(box: string): string {
    "</div>\n</div>\n" + box + "\n<div class=\"content-wrapper\">"
  }

  /** What replaces the second hero-end anchor. */
  function AlternateBox(box: string): string {
    "</div>\n" + box + "\n<div class=\"content-wrapper\">"
  }

  /**
   * Step 2: the reading-time box goes between the end of the hero block and
   * the content wrapper. The first anchor is used when present, the second
   * one only when the first is absent, and the page is unchanged otherwise.
   */
  function AddReadingTime(html: string, box: string): (r: string)
    ensures Contains(html, HeroEnd) ==> r == Join(Split(html, HeroEnd), PrimaryBox(box))
    ensures !Contains(html, HeroEnd) && Contains(html, HeroEndAlt) ==> r == Join(Split(html, HeroEndAlt), AlternateBox(box))
    ensures !Contains(html, HeroEnd) && !Contains(html, HeroEndAlt) ==> r == html
  {
    if Contains(html, HeroEnd) then
      ReplaceAllIsJoinOfSplit(html, HeroEnd, PrimaryBox(box));
      ReplaceAll(html, HeroEnd, PrimaryBox(box))
    else if Contains(html, HeroEndAlt) then
      ReplaceAllIsJoinOfSplit(html, HeroEndAlt, AlternateBox(box));
      ReplaceAll(html, HeroEndAlt, AlternateBox(box))
    else html
  }

  /** When either anchor is present, the page ends up with the box. */
  lemma ReadingTimePlaced(html: string, box: string)
    requires Contains(html, HeroEnd) || Contains(html, HeroEndAlt)
    ensures Contains(AddReadingTime(html, box), box)
  {
    ContainsSelf(box);
    if Contains(html, HeroEnd) {
      ContainsExtendLeft("</div>\n</div>\n", box, box);
      ContainsExtendRight("</div>\n</div>\n" + box, "\n<div class=\"content-wrapper\">", box);
      ReplacementContentPresent(html, HeroEnd, PrimaryBox(box), box);
      ReplaceAllIsJoinOfSplit(html, HeroEnd, PrimaryBox(box));
    } else {
      ContainsExtendLeft("</div>\n", box, box);
      ContainsExtendRight("</div>\n" + box, "\n<div class=\"content-wrapper\">", box);
      ReplacementContentPresent(html, HeroEndAlt, AlternateBox(box), box);
      ReplaceAllIsJoinOfSplit(html, HeroEndAlt, AlternateBox(box));
    }
  }

  // ---------------------------------------------------------------------
  // Share buttons

  /**
   * The end of the leftmost match of the lazy pattern
   * `(<div class="feedback-section">.*?</div>)` with `.` matching newlines:
   * the first opener, then the first `</div>` after it. The regex engine
   * tries the openers from the left and, for each, the closers from the
   * left; once the first opener has no closer after it, no later opener has
   * one either.
   */
  function FindFeedback(s: string): (r: Option<nat>)
    ensures r.Some? ==> Find(s, FeedbackOpen).Some? && |DivClose| <= r.value <= |s|
    ensures r.Some? ==> FindFrom(s, DivClose, Find(s, FeedbackOpen).value + |FeedbackOpen|) == Some(r.value - |DivClose|)
    ensures r.None? ==> forall i, q :: OccursAt(s, FeedbackOpen, i) && i + |FeedbackOpen| <= q ==> !OccursAt(s, DivClose, q)
  {
    match Find(s, FeedbackOpen)
    case None => None
    case Some(i) =>
      match FindFrom(s, DivClose, i + |FeedbackOpen|)
      case None =>
        NoPairAfterFirst(s, FeedbackOpen, DivClose, i);
        None
      case Some(q) => Some(q + |DivClose|)
  }

  /** Step 3: a newline and the share buttons go right after the first feedback block, if there is one. */
  function InsertShare(html: string, share: string): (r: string)
    ensures FindFeedback(html).None? ==> r == html
    ensures FindFeedback(html).Some? ==> |r| == |html| + 1 + |share|
    ensures FindFeedback(html).Some? ==>
              var e := FindFeedback(html).value;
              r[..e] == html[..e] && r[e..e + 1 + |share|] == "\n" + share && r[e + 1 + |share|..] == html[e..]
  {
    match FindFeedback(html)
    case None => html
    case Some(e) =>
      var r := html[..e] + "\n" + share + html[e..];
      assert r[..e] == html[..e];
      assert r[e..e + 1 + |share|] == "\n" + share;
      assert r[e + 1 + |share|..] == html[e..];
      r
  }

  // ---------------------------------------------------------------------
  // Next-read removal

  /** The tail `</div>\s*</div>` of the next-read pattern matches at `q`. */
  predicate CloseAt(s: string, q: nat) {
    OccursAt(s, DivClose, q) && OccursAt(s, DivClose, SkipSpace(s, q + |DivClose|))
  }

  /** The first index at or after `k` where `</div>\s*</div>` matches. */
  function NextClose(s: string, k: nat): (r: Option<nat>)
    decreases |s| - k
    ensures r.Some? ==> k <= r.value && CloseAt(s, r.value)
    ensures r.Some? ==> forall q :: k <= q < r.value ==> !CloseAt(s, q)
    ensures r.None? ==> forall q :: k <= q ==> !CloseAt(s, q)
  {
    if k + |DivClose| > |s| then None
    else if CloseAt(s, k) then Some(k)
    else NextClose(s, k + 1)
  }

  /**
   * A match of `<div class="next-read">.*?</div>\s*</div>`: where it starts,
   * where its closing `</div>\s*</div>` starts, and where it ends.
   */
  datatype Span = Span(start: nat, close: nat, end: nat)

  /** When the first opener has no closing pair after it, no opener has. */
  lemma NoCloseAfterFirst(s: string, i: nat)
    requires Find(s, NextReadOpen) == Some(i) && NextClose(s, i + |NextReadOpen|).None?
    ensures forall j, q: nat :: OccursAt(s, NextReadOpen, j) && j + |NextReadOpen| <= q ==> !CloseAt(s, q)
  {
    forall j, q: nat | OccursAt(s, NextReadOpen, j) && j + |NextReadOpen| <= q
      ensures !CloseAt(s, q)
    {
      assert i <= j;
    }
  }

  /**
   * The leftmost match of the next-read pattern with `.` matching newlines:
   * the first opener, then the first place after it where `</div>`,
   * whitespace and `</div>` follow. The greedy `\s*` never gives a character
   * back, because `</div>` starts with a non-space.
   */
  function FindNextRead(s: string): (r: Option<Span>)
    ensures r.Some? ==> r.value.start + |NextReadOpen| <= r.value.close
    ensures r.Some? ==> r.value.close + |DivClose| <= r.value.end <= |s|
    ensures r.None? ==> forall i, q: nat :: OccursAt(s, NextReadOpen, i) && i + |NextReadOpen| <= q ==> !CloseAt(s, q)
  {
    match Find(s, NextReadOpen)
    case None => None
    case Some(i) =>
      var r := NextReadFrom(s, i);
      if r.None? then NoCloseAfterFirst(s, i); r else r
  }

  /** The match whose opener is at `i`: the first closing pair after the opener. */
  function NextReadFrom(s: string, i: nat): (r: Option<Span>)
    ensures r.None? <==> NextClose(s, i + |NextReadOpen|).None?
    ensures r.Some? ==> r.value.start + |NextReadOpen| <= r.value.close
    ensures r.Some? ==> r.value.close + |DivClose| <= r.value.end <= |s|
  {
    match NextClose(s, i + |NextReadOpen|)
    case None => None
    case Some(q) => Some(Span(i, q, SkipSpace(s, q + |DivClose|) + |DivClose|))
  }

  /**
   * The match found is the first opener with the first closing pair after
   * it, and the match ends after the second `</div>`.
   */
  lemma FindNextReadIs(s: string, i: nat, q: nat)
    requires Find(s, NextReadOpen) == Some(i) && NextClose(s, i + |NextReadOpen|) == Some(q)
    ensures FindNextRead(s) == Some(Span(i, q, SkipSpace(s, q + |DivClose|) + |DivClose|))
  {
    NextReadFromIs(s, i, q);
  }

  lemma NextReadFromIs(s: string, i: nat, q: nat)
    requires NextClose(s, i + |NextReadOpen|) == Some(q)
    ensures NextReadFrom(s, i) == Some(Span(i, q, SkipSpace(s, q + |DivClose|) + |DivClose|))
  {
  }

  /**
   * Step 4: `re.sub` of the next-read pattern with the empty string: the
   * matches are removed from left to right, each search starting where the
   * previous match ended.
   */
  function RemoveNextRead(s: string): (r: string)
    decreases |s|
    ensures |r| <= |s|
  {
    match FindNextRead(s)
    case None => s
    case Some(m) => s[..m.start] + RemoveNextRead(s[m.end..])
  }

  /** A page with no complete next-read block is unchanged; otherwise the text before the first block is kept and the page gets shorter. */
  lemma RemoveNextReadEffect(s: string)
    ensures FindNextRead(s).None? ==> RemoveNextRead(s) == s
    ensures FindNextRead(s).Some? ==>
              var i := FindNextRead(s).value.start;
              |RemoveNextRead(s)| < |s| && RemoveNextRead(s)[..i] == s[..i]
  {
    match FindNextRead(s)
    case None =>
    case Some(m) =>
      var rest := RemoveNextRead(s[m.end..]);
      assert RemoveNextRead(s) == s[..m.start] + rest;
      assert (s[..m.start] + rest)[..m.start] == s[..m.start];
  }

  /** A page without a next-read opener keeps all of its text. */
  lemma NoNextReadUnchanged(s: string)
    requires !Contains(s, NextReadOpen)
    ensures RemoveNextRead(s) == s
  {
    FindIffContains(s, NextReadOpen);
  }

  // ---------------------------------------------------------------------
  // Related articles

  /** Step 5: the related section and a newline go before every closing article tag, and nothing else changes. */
  function AddRelated(html: string, related: string): (r: string)
    ensures r == Join(Split(html, ArticleClose), related + "\n" + ArticleClose)
  {
    ReplaceAllIsJoinOfSplit(html, ArticleClose, related + "\n" + ArticleClose);
    ReplaceAll(html, ArticleClose, related + "\n" + ArticleClose)
  }

  // ---------------------------------------------------------------------
  // The whole page

  /**
   * The transform of one article page, given the blocks it inserts: the
   * breadcrumb, the reading-time box, the share buttons and the related
   * section.
   */
  function Transform(html: string, crumb: string, box: string, share: string, related: string): (r: Outcome)
    ensures r == AlreadyProcessed <==> Contains(html, Marker)
  {
    if Contains(html, Marker) then AlreadyProcessed
    else
      var step1 := AddBreadcrumb(html, crumb);
      var step2 := AddReadingTime(step1, box);
      var step3 := InsertShare(step2, share);
      var step4 := RemoveNextRead(step3);
      Rewritten(AddRelated(step4, related))
  }

  /**
   * The transform of the article page of `slug`. `share` is the page's
   * share-button block, whose links carry the percent-encoded address and
   * title.
   */
  function ProcessArticle(html: string, slug: string, share: string): Outcome
  {
    Transform(html, Breadcrumb(CategoryLabel(slug), Title(slug), slug), CreateReadingTime(slug), share,
              CreateRelatedArticles(slug))
  }
}
