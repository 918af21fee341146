/**
 * The page transform of `enhance_article`: six steps, each guarded by a
 * marker that shows it has been done, run in order on the text of one
 * article page. The style sheets and the script the steps splice in are
 * fixed texts of the program; here they are the fields of `Assets`, and
 * only where they go, and which markers they carry, matters.
 */
module Enhance {
  import opened Wrappers
  import opened Text
  import opened Headings
  import opened H2Ids
  import opened Markup

  /** `TOC_CSS`, `PROGRESS_BAR_CSS`, `SECTION_NUMBER_CSS`, `BACK_TO_TOP_CSS` and `MOBILE_ENHANCEMENTS_JS`. */
  datatype Assets = Assets(tocCss: string, progressCss: string, sectionCss: string, backCss: string, script: string)

  /** Words whose joint presence means the page was enhanced before. */
  const ProgressWord: string := "progress-bar"
  const BackWord: string := "back-to-top"
  /** The first statement of the back-to-top part of the script; also the marker of step 6. */
  const ScriptMarker: string := "var btn = document.getElementById('backToTop')"

  /** Step 1 marks its work with `toc {` and inserts before `</style>`. */
  const TocCssMarker: string := "toc {"
  const StyleEnd: string := "</style>"
  /** Step 2 inserts the bar right after `<body>`. */
  const BodyOpen: string := "<body>"
  const ProgressOpen: string := "<div class=\"progress-bar\""
  const ProgressDiv: string := ProgressOpen + " id=\"progressBar\"></div>"
  /** Step 5 inserts the button before `</body>`; step 6 inserts the script before the button. */
  const ButtonOpen: string := ButtonTag + ButtonClassKey + ButtonClass
  const ButtonTag: string := "<button"
  const ButtonClassKey: string := " class="
  const ButtonClass: string := "\"back-to-top\""
  const ButtonRest: string := " id=\"backToTop\">\U{2191}</button>"
  const Button: string := ButtonOpen + ButtonRest

  /** The skip test at the top of `enhance_article`. */
  predicate AlreadyEnhanced(c: string) {
    Contains(c, ProgressWord) && Contains(c, BackWord) && Contains(c, ScriptMarker)
  }

  /**
   * A guarded step: when `marker` is not in the page, every `p` is
   * replaced by `r` (`content.replace(p, r)`); otherwise nothing happens.
   */
  function Guarded(c: string, marker: string, p: string, r: string): string
    requires |p| > 0
  {
    if Contains(c, marker) then c else ReplaceAll(c, p, r)
  }

  /** A guarded step does nothing when its marker is present, or when the text it anchors on is absent. */
  lemma GuardedNoOp(c: string, marker: string, p: string, r: string)
    requires |p| > 0
    ensures Contains(c, marker) || !Contains(c, p) ==> Guarded(c, marker, p, r) == c
  {
    if !Contains(c, marker) && !Contains(c, p) {
      ReplaceAbsent(c, p, r);
    }
  }

  /** A step whose replacement carries its marker leaves the marker behind whenever it does anything. */
  lemma GuardedLeavesMarker(c: string, marker: string, p: string, r: string)
    requires |p| > 0 && Contains(r, marker) && Contains(c, p)
    ensures Contains(Guarded(c, marker, p, r), marker)
  {
    if !Contains(c, marker) {
      ReplacementContentPresent(c, p, r, marker);
    }
  }

  /** Such a step run twice is the step run once. */
  lemma GuardedTwice(c: string, marker: string, p: string, r: string)
    requires |p| > 0 && Contains(r, marker)
    ensures Guarded(Guarded(c, marker, p, r), marker, p, r) == Guarded(c, marker, p, r)
  {
    GuardedNoOp(c, marker, p, r);
    if Contains(c, p) {
      GuardedLeavesMarker(c, marker, p, r);
    }
  }

  /** An insert-before step can be undone: removing every inserted `x` gives the page back. */
  lemma GuardedUndo(c: string, marker: string, p: string, x: string)
    requires HeadUnique(p) && |x| > 0 && x[0] !in p[1..] && !Contains(x, p)
    requires !Contains(c, marker)
    ensures ReplaceAll(Guarded(c, marker, p, x + p), x + p, p) == c
  {
    InsertBeforeRoundTrip(c, p, x);
  }

  // ---------------------------------------------------------------------
  // Steps 1, 2, 5 and 6

  /** The style block spliced in before `</style>`. */
  function CssBlock(a: Assets): string {
    a.tocCss + "\n" + a.progressCss + "\n" + a.sectionCss + "\n" + a.backCss + "\n"
  }

  /** Step 1: the style sheets, unless `toc {` is already in the page. */
  function AddCss(c: string, a: Assets): string {
    Guarded(c, TocCssMarker, StyleEnd, CssBlock(a) + StyleEnd)
  }

  /** Step 2: the progress bar right after `<body>`, unless the bar is there. */
  function AddProgressBar(c: string): string {
    Guarded(c, ProgressOpen, BodyOpen, BodyOpen + "\n" + ProgressDiv)
  }

  /** Step 5: the back-to-top button before `</body>`, unless it is there. */
  function AddButton(c: string): string {
    Guarded(c, ButtonOpen, BodyEnd, Button + "\n" + BodyEnd)
  }

  /** Step 6: the script before the button, unless the script is there. */
  function AddScript(c: string, a: Assets): string {
    Guarded(c, ScriptMarker, ButtonOpen, a.script + "\n" + ButtonOpen)
  }

  /** Step 1 run twice is step 1 run once, as the style sheets carry `toc {`. */
  lemma AddCssTwice(c: string, a: Assets)
    requires Contains(a.tocCss, TocCssMarker)
    ensures AddCss(AddCss(c, a), a) == AddCss(c, a)
  {
    var rest := "\n" + a.progressCss + "\n" + a.sectionCss + "\n" + a.backCss + "\n" + StyleEnd;
    assert CssBlock(a) + StyleEnd == a.tocCss + rest;
    ContainsExtendRight(a.tocCss, rest, TocCssMarker);
    GuardedTwice(c, TocCssMarker, StyleEnd, CssBlock(a) + StyleEnd);
  }

  lemma StyleEndHeadUnique()
    ensures HeadUnique(StyleEnd)
  {
    assert StyleEnd[1..] == ['/', 's', 't', 'y', 'l', 'e', '>'];
  }

  /** Step 1 only inserts the style block: removing it gives the page back. */
  lemma AddCssUndo(c: string, a: Assets)
    requires !Contains(c, TocCssMarker)
    requires CssBlock(a)[0] !in StyleEnd[1..] && !Contains(CssBlock(a), StyleEnd)
    ensures ReplaceAll(AddCss(c, a), CssBlock(a) + StyleEnd, StyleEnd) == c
  {
    StyleEndHeadUnique();
    GuardedUndo(c, TocCssMarker, StyleEnd, CssBlock(a));
  }

  /** Step 2 run twice is step 2 run once. */
  lemma AddProgressBarTwice(c: string)
    ensures AddProgressBar(AddProgressBar(c)) == AddProgressBar(c)
  {
    var r := BodyOpen + "\n" + ProgressDiv;
    assert r == (BodyOpen + "\n") + ProgressOpen + " id=\"progressBar\"></div>";
    OccursAfterPrefix(BodyOpen + "\n", ProgressOpen, " id=\"progressBar\"></div>");
    assert 0 <= |BodyOpen + "\n"| <= |r| - |ProgressOpen|;
    GuardedTwice(c, ProgressOpen, BodyOpen, r);
  }

  /** Step 5 run twice is step 5 run once. */
  lemma AddButtonTwice(c: string)
    ensures AddButton(AddButton(c)) == AddButton(c)
  {
    var r := Button + "\n" + BodyEnd;
    var tail := ButtonRest + "\n" + BodyEnd;
    assert r == [] + ButtonOpen + tail;
    OccursAfterPrefix([], ButtonOpen, tail);
    assert 0 <= 0 <= |r| - |ButtonOpen|;
    GuardedTwice(c, ButtonOpen, BodyEnd, r);
  }

  /** Step 5 only inserts the button: removing it gives the page back. */
  lemma AddButtonUndo(c: string)
    requires !Contains(c, ButtonOpen)
    ensures ReplaceAll(AddButton(c), Button + "\n" + BodyEnd, BodyEnd) == c
  {
    BodyEndHeadUnique();
    var x := Button + "\n";
    assert x[0] == '<';
    assert 'y' !in x;
    assert BodyEnd[5] == 'y';
    MissingCharNoOccurrence(x, BodyEnd, 5);
    GuardedUndo(c, ButtonOpen, BodyEnd, x);
  }

  /** Step 6 run twice is step 6 run once, as the script carries its marker. */
  lemma AddScriptTwice(c: string, a: Assets)
    requires Contains(a.script, ScriptMarker)
    ensures AddScript(AddScript(c, a), a) == AddScript(c, a)
  {
    var rest := "\n" + ButtonOpen;
    assert a.script + "\n" + ButtonOpen == a.script + rest;
    ContainsExtendRight(a.script, rest, ScriptMarker);
    GuardedTwice(c, ScriptMarker, ButtonOpen, a.script + "\n" + ButtonOpen);
  }

  lemma ButtonOpenHeadUnique()
    ensures HeadUnique(ButtonOpen)
  {
    ButtonPiecesLackOpen();
    assert ButtonOpen[1..] == ButtonTag[1..] + ButtonClassKey + ButtonClass;
  }

  lemma ButtonPiecesLackOpen()
    ensures ButtonTag[0] == '<' && '<' !in ButtonTag[1..] && '<' !in ButtonClassKey && '<' !in ButtonClass
  {
  }

  /** Step 6 only inserts the script: removing it gives the page back. */
  lemma AddScriptUndo(c: string, a: Assets)
    requires !Contains(c, ScriptMarker)
    requires (a.script + "\n")[0] !in ButtonOpen[1..] && !Contains(a.script + "\n", ButtonOpen)
    ensures ReplaceAll(AddScript(c, a), a.script + "\n" + ButtonOpen, ButtonOpen) == c
  {
    ButtonOpenHeadUnique();
    GuardedUndo(c, ScriptMarker, ButtonOpen, a.script + "\n");
  }

  // ---------------------------------------------------------------------
  // Step 4: where the table of contents goes

  const DlEnd: string := "</dl>"
  const DivEnd: string := "</div>"
  const HrOpen: string := "<hr"
  /** The fallback anchor looks for this inside an opener. */
  const SecOneId: string := "id=\"sec-1\""
  /** The fallback puts the table, this break and indentation, then the opener. */
  const Indent: string := "\n    "

  /**
   * Whether `(</dl>\s*</div>\s*)((?:\s*<hr[^>]*>)?\s*)(<h2)` matches at
   * `i`, and if so where its first group ends, which is where the table
   * goes. Every `\s*` is greedy, and handing whitespace from the first
   * group to the second never lets a failed match succeed, so the first
   * group always ends after all the whitespace that follows `</div>`.
   */
  function AnchorAt(c: string, i: nat): (r: Option<nat>)
    ensures r.Some? ==> i + |DlEnd| <= r.value <= |c|
  {
    if !OccursAt(c, DlEnd, i) then None else AfterDl(c, SkipSpace(c, i + |DlEnd|))
  }

  function AfterDl(c: string, j: nat): (r: Option<nat>)
    requires j <= |c|
    ensures r.Some? ==> j + |DivEnd| <= r.value <= |c|
  {
    if !OccursAt(c, DivEnd, j) then None else AfterDiv(c, SkipSpace(c, j + |DivEnd|))
  }

  function AfterDiv(c: string, p: nat): (r: Option<nat>)
    requires p <= |c|
    ensures r.Some? ==> r.value == p
  {
    if HeadingFollows(c, p) then Some(p) else None
  }

  /** `((?:\s*<hr[^>]*>)?\s*)(<h2)` at `p`, which no whitespace follows: an opener, or a rule and then, after whitespace, an opener. */
  predicate HeadingFollows(c: string, p: nat)
    requires p <= |c|
  {
    OccursAt(c, H2Open, p) || (OccursAt(c, HrOpen, p) && RuleThenHeading(c, p))
  }

  predicate RuleThenHeading(c: string, p: nat)
    requires p + |HrOpen| <= |c|
  {
    match FindChar(c, '>', p + |HrOpen|)
    case None => false
    case Some(g) => OccursAt(c, H2Open, SkipSpace(c, g + 1))
  }

  /** The leftmost position from `k` on where the anchor pattern matches. */
  function FindAnchor(c: string, k: nat): (r: Option<nat>)
    decreases |c| - k
    ensures r.Some? ==> k <= r.value <= |c| && AnchorAt(c, r.value).Some?
    ensures r.Some? ==> forall i :: k <= i < r.value ==> AnchorAt(c, i).None?
    ensures r.None? ==> forall i :: k <= i <= |c| ==> AnchorAt(c, i).None?
  {
    if k > |c| then None
    else if AnchorAt(c, k).Some? then Some(k)
    else FindAnchor(c, k + 1)
  }

  /** `<h2[^>]*id="sec-1"` matches at `i`: an opener that holds `id="sec-1"` before its first `>`. */
  predicate SecOneAt(c: string, i: nat) {
    OccursAt(c, H2Open, i) && Contains(c[i + |H2Open|..TagLimit(c, i + |H2Open|)], SecOneId)
  }

  /** The leftmost opener from `k` on that holds `id="sec-1"`. */
  function FindSecOne(c: string, k: nat): (r: Option<nat>)
    decreases |c| - k
    ensures r.Some? ==> k <= r.value <= |c| && SecOneAt(c, r.value)
    ensures r.Some? ==> forall i :: k <= i < r.value ==> !SecOneAt(c, i)
    ensures r.None? ==> forall i :: k <= i <= |c| ==> !SecOneAt(c, i)
  {
    if k > |c| then None
    else if SecOneAt(c, k) then Some(k)
    else FindSecOne(c, k + 1)
  }

  /** Where a block goes into the page, and the block. */
  datatype Placement = Placement(at: nat, block: string)

  /**
   * Where `re.sub(..., count=1)` puts the table `toc`: after the first
   * group of the first anchor match; failing that, with a line break and
   * indentation, right before the first opener that holds `id="sec-1"`;
   * failing that, nowhere.
   */
  function TocPlacement(c: string, toc: string): (r: Option<Placement>)
    ensures r.Some? ==> r.value.at <= |c| && (r.value.block == toc || r.value.block == toc + Indent)
    ensures r.Some? && r.value.block == toc + Indent && toc + Indent != toc ==> FindAnchor(c, 0).None?
    ensures r.None? <==> FindAnchor(c, 0).None? && FindSecOne(c, 0).None?
    ensures r.Some? && r.value.block == toc ==>
      exists i :: 0 <= i <= |c| && AnchorAt(c, i) == Some(r.value.at) && forall j :: 0 <= j < i ==> AnchorAt(c, j).None?
    ensures r.Some? && r.value.block == toc + Indent ==>
      SecOneAt(c, r.value.at) && forall j :: 0 <= j < r.value.at ==> !SecOneAt(c, j)
  {
    match FindAnchor(c, 0)
    case Some(i) => Some(Placement(AnchorAt(c, i).value, toc))
    case None =>
      match FindSecOne(c, 0)
      case Some(i) => Some(Placement(i, toc + Indent))
      case None => None
  }

  /** The page with the table placed, if it has a place. */
  function PlaceToc(c: string, toc: string): string {
    match TocPlacement(c, toc)
    case None => c
    case Some(pl) => c[..pl.at] + pl.block + c[pl.at..]
  }

  /** One block at most is placed, and taking it out again gives the page back. */
  lemma PlaceTocUndo(c: string, toc: string)
    ensures TocPlacement(c, toc).None? ==> PlaceToc(c, toc) == c
    ensures TocPlacement(c, toc).Some? ==>
      var pl := TocPlacement(c, toc).value;
      var r := PlaceToc(c, toc);
      pl.at + |pl.block| <= |r| && r[pl.at..pl.at + |pl.block|] == pl.block && r[..pl.at] + r[pl.at + |pl.block|..] == c
  {
    if TocPlacement(c, toc).Some? {
      var pl := TocPlacement(c, toc).value;
      var r := PlaceToc(c, toc);
      assert r[..pl.at] == c[..pl.at];
      assert r[pl.at + |pl.block|..] == c[pl.at..];
    }
  }

  /** A placed block is in the page, and so is the table it starts with. */
  lemma PlacedTocPresent(c: string, toc: string)
    requires TocPlacement(c, toc).Some?
    ensures Contains(PlaceToc(c, toc), toc)
  {
    var pl := TocPlacement(c, toc).value;
    var tail := if pl.block == toc then [] else Indent;
    assert pl.block == toc + tail;
    SplicedPresent(c, pl.at, toc, tail);
  }

  /** A block spliced into a text at `at` is in the result. */
  lemma SplicedPresent(c: string, at: nat, x: string, y: string)
    requires at <= |c|
    ensures Contains(c[..at] + (x + y) + c[at..], x)
  {
    assert c[..at] + (x + y) + c[at..] == c[..at] + x + (y + c[at..]);
    OccursAfterPrefix(c[..at], x, y + c[at..]);
    assert 0 <= |c[..at]| <= |c[..at] + (x + y) + c[at..]| - |x|;
  }

  /**
   * Step 4: when the table is wanted and not yet in the page, and the page
   * has headings, the table of those headings is placed.
   */
  function AddToc(c: string, addToc: bool): (r: string)
    ensures !addToc || Contains(c, TocMarker) || |ExtractHeadings(c)| == 0 ==> r == c
  {
    if addToc && !Contains(c, TocMarker) && |ExtractHeadings(c)| > 0 then PlaceToc(c, GenerateToc(ExtractHeadings(c))) else c
  }

  /** Step 4 run twice is step 4 run once: a placed table carries the marker `<div class="toc">`. */
  lemma AddTocTwice(c: string, addToc: bool)
    ensures AddToc(AddToc(c, addToc), addToc) == AddToc(c, addToc)
  {
    if addToc && !Contains(c, TocMarker) && |ExtractHeadings(c)| > 0 {
      var toc := GenerateToc(ExtractHeadings(c));
      if TocPlacement(c, toc).Some? {
        PlacedTocPresent(c, toc);
        TocHasMarker(ExtractHeadings(c));
        ContainsTransitive(PlaceToc(c, toc), toc, TocMarker);
      }
    }
  }

  // ---------------------------------------------------------------------
  // The whole chain

  /** The page after steps 1 to 6. */
  function Steps(c: string, a: Assets, addToc: bool): string {
    AddScript(AddButton(AddToc(AddIds(AddProgressBar(AddCss(c, a))), addToc)), a)
  }

  /**
   * `enhance_article` on the text of one page: `None` when the page is
   * already enhanced and left alone, otherwise the text written back.
   */
  function EnhanceArticle(c: string, a: Assets, addToc: bool): (r: Option<string>)
    ensures r.None? <==> AlreadyEnhanced(c)
  {
    if AlreadyEnhanced(c) then None else Some(Steps(c, a, addToc))
  }
}
