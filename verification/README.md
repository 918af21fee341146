# Blog page scripts, modelled in Dafny

The blog's maintenance scripts rewrite the static HTML of each article page.
This project models their text transforms as pure functions on strings and
proves what the transforms promise.

- **`add_features.py`** rewrites one article page:
  - it puts the breadcrumb before the hero block;
  - it puts the reading-time box after the hero block;
  - it puts the share buttons after the first feedback block;
  - it removes the old next-read blocks;
  - it puts the related-articles section before `  </article>`.

  It skips a page that already carries the breadcrumb comment. Its article
  catalogue (three categories, per-article titles, descriptions and reading
  times) drives the category lookup and the related-article choice.
- **`enhance_mobile.py`** rewrites one page in six guarded steps: style
  sheets, progress bar, heading ids, table of contents, back-to-top button
  and script. It skips a page that carries all three of its markers. The
  table of contents lists the `<h2>` headings of the page's first article,
  with tags removed and whitespace trimmed.
- **`add_goatcounter.py`** replaces the first kind of analytics placeholder
  comment that matches with the GoatCounter script. When there is none, it
  puts the script before every `</body>`. It reports whether the page
  changed.

Each regular expression is modelled as a deterministic scanner. The comment
next to each scanner explains why the scanner finds the same match as the
regex, given leftmost-first search, greedy and lazy quantifiers and
`re.DOTALL`. `re.sub` is modelled as repeated leftmost, non-overlapping
matching. A `re.sub` with a stateful callback is modelled as a read-off of
the matches, a rewrite of each, and a write-back.

The modules are:

| module | contents |
|---|---|
| `Wrappers` | `Option` |
| `Text` | substring search, `str.replace`, `split`/`join`, `\s` and `strip`, decimal numbers |
| `Markup` | `</body>` |
| `Catalog` | the tables and lookups of `add_features.py`, and its HTML fragments |
| `Features` | the page transform of `add_features.py` |
| `Headings` | heading extraction and the table of contents |
| `H2Ids` | `add_h2_ids` |
| `Enhance` | `enhance_article` |
| `MobileAssets` | the style sheets and script of `enhance_mobile.py`, and the step lemmas applied to them |
| `GoatCounter` | `process_html_file` |

## Model

| member | source | states |
|---|---|---|
| Catalog.GetCategory | add_features.py:128-133 | The category found holds the slug, and no earlier category in table order does. The result is `None` exactly when no category lists the slug. |
| Catalog.CategoriesDisjoint | add_features.py:17-32 | Every listed article belongs to exactly one category, so the lookup returns that category whatever the scan order. |
| Catalog.ListedArticlesHaveInfo | add_features.py:35-126 | Every article of a category has an entry in the information table, with a positive reading time. |
| Catalog.PySlice | add_features.py:145 | Python's `xs[:n]` is the prefix of length `n`, capped at `len(xs)`. A negative `n` drops `-n` elements from the end. |
| Catalog.Without | add_features.py:141 | The other articles: exactly the members different from the slug, in list order, still duplicate-free. |
| Catalog.KeepIn | add_features.py:149 | Exactly the members of the first list that are in the second, in order. |
| Catalog.DropIn | add_features.py:150 | Exactly the members of the first list that are not in the second, in order. |
| Catalog.PriorityFirst | add_features.py:147-151 | The tech ordering holds the same articles. The promoted ones come first, in promotion order, then the rest in list order. No promoted article follows an unpromoted one. Without duplicates, the result is as long as the input. |
| Catalog.PriorityLength | add_features.py:149-150 | With no duplicates, the promoted and unpromoted parts together are as long as the list. |
| Catalog.Related | add_features.py:141-155 | The related list never holds the slug itself and only holds articles of the list. It has no duplicates and at most `maxCount` entries. For a non-negative `maxCount` it is the first `maxCount` other articles, promoted ones first when promoting. |
| Catalog.GetRelated | add_features.py:135-155 | Empty for an unknown slug. Otherwise it is drawn from the slug's own category, without the slug and without duplicates, within the count. Tech promotes `token-efficiency`, `multi-agent-flow`, `morning-briefing`; news and backtest keep table order. |
| Catalog.ReadingTimeReadsBack | add_features.py:218-226 | The reading-time box is the fixed opening, decimal digits and the fixed closing. The digits read back as the table's reading time, or 3 when the table has no entry. |
| Catalog.CreateReadingTime | add_features.py:220 | A slug missing from the table gets the default of 3 minutes. |
| Catalog.Card | add_features.py:322-327 | A card holds the link to its article. |
| Catalog.Cards | add_features.py:316-327 | The cards are empty exactly when there is no slug. |
| Catalog.CardsAppend | add_features.py:317-322 | The cards of a concatenation are the cards of each part, in order: one card per slug. |
| Catalog.CardsLinkEach | add_features.py:317-327 | Every slug of the list has its card link in the cards. |
| Catalog.CreateRelatedArticles | add_features.py:309-391 | The section is empty exactly when there is no related article. |
| Catalog.RelatedLinked | add_features.py:309-391 | The section links to every related article of the slug. |
| Features.CategoryLabel | add_features.py:159 | A slug listed in a category shows that category's label, whatever the scan order. A slug that no category lists prints Python's `None`. |
| Catalog.CategoryOfListed | add_features.py:128-133 | Whichever category lists the slug is the one the lookup returns. |
| Features.Nav | add_features.py:164-166 | The navigation line shows the category label and the article title. |
| Features.BreadcrumbBody | add_features.py:164-214 | The block after the marker shows the label and the title. |
| Features.BreadcrumbContents | add_features.py:162-216 | The breadcrumb starts with a line break and the marker comment, and shows the label and the title. |
| Features.AddBreadcrumb | add_features.py:410-412 | The breadcrumb and a line break go before every hero block, and the text between hero blocks is kept. This is `split` then `join`, which is what `str.replace` does. |
| Features.MarkedBlockMarksPage | add_features.py:406-412 | On a page with a hero block, a breadcrumb that carries the marker leaves the marker in the page after the breadcrumb step. |
| Features.AddReadingTime | add_features.py:414-423 | The first hero-end anchor is used when present. The second is used only when the first is absent. Without either, the page is unchanged. |
| Features.ReadingTimePlaced | add_features.py:414-423 | When either anchor is present, the page ends up holding the box. |
| Features.FindFeedback | add_features.py:427 | The match ends after the first `</div>` that follows the first feedback opener. Without a match, no feedback opener has a `</div>` after it. |
| Features.InsertShare | add_features.py:425-430 | Without a feedback block the page is unchanged. Otherwise a line break and the share block are inserted at the end of the match: the page around the insertion is kept, and the length grows by exactly the insertion. |
| Features.NextClose | add_features.py:436 | The first place from `k` where `</div>\s*</div>` matches. Without a match, there is none from `k` on. |
| Features.NoCloseAfterFirst | add_features.py:436-437 | When the first next-read opener has no closing pair after it, no opener has. |
| Features.FindNextRead | add_features.py:436-437 | A match lies in order in the page: opener, then closing pair, then end. Without a match, no opener is followed by a closing pair. |
| Features.NextReadFrom | add_features.py:436-437 | The match for an opener exists exactly when a closing pair follows it. |
| Features.FindNextReadIs | add_features.py:436-437 | The match is the first opener with the first closing pair after it, and it ends after the second `</div>`. |
| Features.RemoveNextRead | add_features.py:437 | Removal never lengthens the page. |
| Features.RemoveNextReadEffect | add_features.py:435-437 | A page without a complete next-read block is unchanged. Otherwise the text before the first block is kept, and the page gets strictly shorter. |
| Features.NoNextReadUnchanged | add_features.py:435-437 | A page without a next-read opener keeps all of its text. |
| Features.AddRelated | add_features.py:439-440 | The related section and a line break go before every `  </article>`, and nothing else changes. |
| Features.Transform | add_features.py:405-440 | The page is skipped exactly when it already carries the breadcrumb marker; otherwise it is rewritten. |
| Text.ReplaceAllIsJoinOfSplit | add_features.py:412 | `s.replace(p, r)` is `r.join(s.split(p))`: every occurrence is replaced and the text between occurrences is kept. |
| Headings.FindElement | enhance_mobile.py:135 | A match of `<article[^>]*>(.*?)</article>` starts at the first opener, and its tag ends at the first `>` after the word. |
| Headings.ElementMissing | enhance_mobile.py:135-137 | When there is no match, no opener is completed by a `>` and a closing tag. |
| Headings.NoArticleNoHeadings | enhance_mobile.py:135-137 | A page in which no `<article` opener is completed has no headings. |
| Headings.NoHeadingsNoArticle | enhance_mobile.py:135-137 | When there is no article match, no `<article` opener is completed. |
| Headings.ScanHeadingsShape | enhance_mobile.py:140-141 | Without DOTALL, no found heading holds a line break or a closing `</h2>`. |
| Headings.ScanRendered | enhance_mobile.py:140-141 | On a text of written-out headings, the scan returns one heading per `<h2…>…</h2>`, in document order. |
| Headings.ScanWithoutOpener | enhance_mobile.py:140-141 | Without an `<h2` there is no heading. |
| Headings.StripTags | enhance_mobile.py:146 | Tag removal never lengthens the text and only keeps characters of the text. A text that does not start with `<` keeps its first character. |
| Headings.StripTagsLeavesNoTag | enhance_mobile.py:146 | No `<[^>]+>` is left after removal. |
| Headings.StripTagsIdempotent | enhance_mobile.py:146 | Removing tags a second time changes nothing. |
| Headings.Clean | enhance_mobile.py:146-147 | A cleaned heading is no longer than the raw one and neither starts nor ends with whitespace. |
| Headings.CleanLeavesNoTag | enhance_mobile.py:146-147 | Trimming brings no tag back: a cleaned heading holds no `<[^>]+>`. |
| Text.TrimRemovesOnlySpace | enhance_mobile.py:147 | `strip()` keeps one infix of the text, and what it removes on both sides is whitespace. |
| Headings.CleanAll | enhance_mobile.py:144-148 | One cleaned heading per raw heading, in order. |
| Headings.ExtractHeadings | enhance_mobile.py:135-137 | No article match, no headings. |
| Headings.ExtractedAreClean | enhance_mobile.py:144-149 | Every extracted heading is tag-free, and it is either empty or starts with a non-space. |
| Headings.ExtractFromArticle | enhance_mobile.py:132-149 | The headings of a page are those of its first article, cleaned. |
| Headings.ExtractRendered | enhance_mobile.py:132-149 | On a page whose first article writes out headings, the result is their texts, in order, each cleaned. |
| Headings.Items | enhance_mobile.py:157-158 | The j-th item links to `#sec-(i+j)` and shows the j-th heading. |
| Headings.GenerateToc | enhance_mobile.py:151-154 | The table is empty exactly when there is no heading. |
| Headings.ParseItemRoundTrip | enhance_mobile.py:158 | Every item reads back as its number and its text. |
| Headings.TocReadBack | enhance_mobile.py:151-169 | The table of N one-line headings reads back as N items. The j-th item links to `#sec-(j+1)` and shows the j-th heading. |
| Text.SplitJoinChar | enhance_mobile.py:165 | Lines joined by line breaks split back into the same lines when none holds a line break. |
| Text.DecimalRoundTrip | enhance_mobile.py:158 | A number written in decimal reads back as itself. |
| Headings.TocHasMarker | enhance_mobile.py:160-168 | A non-empty table carries `<div class="toc">`. |
| H2Ids.RetagOne | enhance_mobile.py:175-184 | An opener that holds `id=`, or whose number is past 50, is returned as it is. |
| H2Ids.RetagAttrsCases | enhance_mobile.py:175-184 | An opener keeps its attributes exactly when it holds `id=` or is past the cap. Otherwise its new ` id="sec-n"` comes first. Either way, an opener within the cap ends up with an id. |
| H2Ids.RetagOneOpener | enhance_mobile.py:183 | The id goes right after `<h2`, and the tag still ends at its one `>`. |
| H2Ids.RetagAttrsIdempotent | enhance_mobile.py:175-184 | Retagging a retagged opener with the same number changes nothing. |
| H2Ids.NextTag | enhance_mobile.py:190 | A match of `<h2[^>]*>` is the first opener and the first `>` after its word. |
| H2Ids.TagsOfParse | enhance_mobile.py:190 | Reading the openers of a text and writing them back gives the text. |
| H2Ids.ParseOfTags | enhance_mobile.py:190 | Writing readable openers and reading them back gives the openers. |
| H2Ids.RetagTags | enhance_mobile.py:175-190 | Numbering retags the j-th opener as number `n + j + 1`, since the counter rises before the `id=` test. The text between openers and after the last one is kept. |
| H2Ids.RetagIsRenumber | enhance_mobile.py:175-190 | The `re.sub` with `replace_h2` on any text is: read the openers off, renumber them, write them back. |
| H2Ids.RetagIdempotent | enhance_mobile.py:175-190 | Numbering the openers of an article twice is numbering them once. |
| H2Ids.AddIdsArticles | enhance_mobile.py:187-193 | On a page of articles, every article keeps the text before it and its opening tag. The openers of its body are numbered from 1, restarting at each article. The text after the last article is kept. |
| H2Ids.AddIdsIsRetag | enhance_mobile.py:171-194 | `add_h2_ids` on any page is: read the articles off, number each body, write them back. |
| H2Ids.AddIdsIdempotent | enhance_mobile.py:171-194 | Adding heading ids a second time changes nothing. |
| Enhance.GuardedNoOp | enhance_mobile.py:209-210 | A guarded step does nothing when its marker is present, or when its anchor text is absent. |
| Enhance.GuardedTwice | enhance_mobile.py:209-240 | A guarded step whose inserted text carries its marker, applied twice, is the step applied once. |
| Enhance.GuardedUndo | enhance_mobile.py:209-240 | An insert-before step can be undone: removing every inserted block gives the page back. |
| Enhance.AddCssTwice | enhance_mobile.py:208-210 | Step 1 applied twice is step 1 applied once, because the style sheets carry `toc {`. |
| Enhance.AddCssUndo | enhance_mobile.py:208-210 | Step 1 only inserts the style block before `</style>`. |
| Enhance.AddProgressBarTwice | enhance_mobile.py:212-214 | Step 2 applied twice is step 2 applied once. |
| Enhance.AddButtonTwice | enhance_mobile.py:233-235 | Step 5 applied twice is step 5 applied once. |
| Enhance.AddButtonUndo | enhance_mobile.py:233-235 | Step 5 only inserts the button before `</body>`. |
| Enhance.AddScriptTwice | enhance_mobile.py:237-240 | Step 6 applied twice is step 6 applied once, because the script carries its marker. |
| Enhance.AddScriptUndo | enhance_mobile.py:237-240 | Step 6 only inserts the script before the button. |
| MobileAssets.ProgramMarkers | enhance_mobile.py:10-130 | The program's `TOC_CSS` holds `toc {`, and its script holds the `var btn` statement that step 6 tests for. |
| MobileAssets.ProgramCssTwice | enhance_mobile.py:208-210 | Step 1 with the program's own style sheets, applied twice, is step 1 applied once. |
| MobileAssets.ProgramScriptTwice | enhance_mobile.py:237-240 | Step 6 with the program's own script, applied twice, is step 6 applied once. |
| Enhance.AnchorAt | enhance_mobile.py:226 | A match of the anchor pattern at `i` ends its first group after `</dl>`, inside the page. |
| Enhance.FindAnchor | enhance_mobile.py:226-228 | The leftmost anchor match, if any. Without one, the pattern matches nowhere. |
| Enhance.FindSecOne | enhance_mobile.py:231 | The leftmost opener holding `id="sec-1"` before its `>`, if any. |
| Enhance.TocPlacement | enhance_mobile.py:226-231 | The table goes where the first group of the leftmost anchor match ends. Failing that, with a break and indentation, it goes right before the leftmost opener that holds `id="sec-1"`, and only when no anchor matches. It goes nowhere exactly when neither is found. |
| Enhance.PlaceTocUndo | enhance_mobile.py:226-231 | At most one block is placed, and taking it out again gives the page back. |
| Enhance.PlacedTocPresent | enhance_mobile.py:226-231 | A placed table is in the page. |
| Enhance.AddToc | enhance_mobile.py:219-231 | With the table not wanted, already present, or without headings, the page is unchanged. |
| Enhance.AddTocTwice | enhance_mobile.py:219-231 | Step 4 applied twice is step 4 applied once, because a placed table carries `<div class="toc">`. |
| Enhance.EnhanceArticle | enhance_mobile.py:203-206 | The page is left alone exactly when it holds `progress-bar`, `back-to-top` and the script's first statement. |
| GoatCounter.CommentAt | add_goatcounter.py:20 | A placeholder match at `i` ends after `<!--`, the word and `-->`, inside the page. |
| GoatCounter.NextComment | add_goatcounter.py:27 | `re.search` finds the leftmost match of the placeholder pattern. Without one, the pattern matches nowhere. |
| GoatCounter.SelectPattern | add_goatcounter.py:26-30 | The pattern used is the first, in list order, that matches. None is used exactly when no pattern matches. |
| GoatCounter.ThirdPatternShadowed | add_goatcounter.py:19-23 | The third pattern is never the one used: every comment it matches, the first pattern matches too. |
| GoatCounter.SubDiffers | add_goatcounter.py:28 | Replacing at least one match changes the text, because `<!` becomes `<s`. |
| GoatCounter.ProcessHtml | add_goatcounter.py:16-45 | The returned flag is raised exactly when the content changed. |
| GoatCounter.SubWrittenComment | add_goatcounter.py:20-28 | A written-out placeholder `<!--`, whitespace, the word, text without `>`, `-->` is recognised when the text around it holds no other `<!--`. `re.sub` then turns the page into the text before it, the script and the text after it. |
| GoatCounter.SubSingle | add_goatcounter.py:28 | When the only comment opener starts one match, `re.sub` replaces that match and keeps everything else. |
| GoatCounter.PlaceholderWrittenOut | add_goatcounter.py:16-44 | A page with one written-out `Analytics` placeholder and no other `<!--` gets that comment replaced by the script exactly once, and is reported changed. |
| GoatCounter.PlaceholderReplaced | add_goatcounter.py:26-44 | With a placeholder, all matches of the first matching pattern are replaced, and the page is reported changed. |
| GoatCounter.InsertedBeforeBody | add_goatcounter.py:33-35 | Without a placeholder, the script and a line break go before every `</body>`. The page grows, it is reported changed, and removing what was inserted gives it back. |
| Text.InsertBeforeRoundTrip | add_goatcounter.py:35 | Inserting a block before every occurrence of an anchor, then removing it, gives the text back. |
| GoatCounter.NothingToDo | add_goatcounter.py:36-38 | Without a placeholder and without `</body>`, the page is left alone and reported unchanged. |
| GoatCounter.NoCommentNoPlaceholder | add_goatcounter.py:19-27 | A page with no `<!--` has no placeholder. |
| GoatCounter.RerunInsertsAgain | add_goatcounter.py:33-45 | The step is not idempotent. On a page with `</body>` and no comment, a second pass inserts the script again and again reports a change. |

## Left out

- File reading and writing, directory walks, `main` functions and console messages are left out. Each transform takes and returns the page text.
- The missing-file branch of `process_article` (add_features.py:398-400) is file I/O and is not modelled.
- `TOC_CSS`, `PROGRESS_BAR_CSS`, `SECTION_NUMBER_CSS`, `BACK_TO_TOP_CSS` and `MOBILE_ENHANCEMENTS_JS` are the fields of `Enhance.Assets`, and `Enhance` takes them as a parameter. Lemmas that need a marker in an asset take it as a precondition. The program's own texts are written out as `MobileAssets.Program`, and `MobileAssets.ProgramMarkers` discharges those preconditions for them.
- Enhance.AddCssUndo and Enhance.AddScriptUndo: their conditions on the assets are not proved for `MobileAssets.Program`. For the style sheets the condition is that they hold no `</style>`; for the script, that it holds no button opener. A character-by-character absence proof over texts of several hundred characters is beyond the solver's budget.
- `create_share_buttons` calls `urllib.parse.quote`, which is foreign code. The share block is a parameter of `Features.Transform`, and `Features.ProcessArticle` takes it as an argument.
- Features.ProcessArticle: the composition for a slug has no contract of its own. `Features.Transform` carries the skip property for any breadcrumb, box, share and related blocks. The generated blocks are covered by `Features.BreadcrumbContents`, `Catalog.ReadingTimeReadsBack` and `Catalog.RelatedLinked`.
- Enhance.Steps and H2Ids.AddIds: these compositions carry no contract of their own. Their properties are the step lemmas and `H2Ids.AddIdsIsRetag`/`H2Ids.AddIdsIdempotent`.
- The table-of-contents step puts the generated table into an `rf'…'` replacement template. The template's own escapes are modelled: `\1`, `\2`, `\3`, and `\n` as a line break. Escapes that a heading's own text might carry, such as a backslash, are not modelled: the table is inserted literally.
- `\s` and `str.strip()` are modelled as the character set of Python's `str.isspace`. Unicode properties beyond that set are not modelled.
- Strings are sequences of code points. No encoding is modelled, because the files are read and written as UTF-8 text.
- Catalog.CreateReadingTime: its contract states only the default. The full content is stated by `Catalog.ReadingTimeReadsBack`.
- Features.RemoveNextRead: its own contract is only a length bound. The removal is characterised by `Features.RemoveNextReadEffect` and `Features.FindNextReadIs`, which cover the first match; later matches are not restated one by one.
- Features.Nav and Features.BreadcrumbBody: their contracts state only that the label and the title appear. The fixed markup around them is the definition itself.
- Catalog.CreateRelatedArticles: its contract states the empty case. The links are stated by `Catalog.RelatedLinked`, the card order by `Catalog.CardsAppend`.
- Catalog.Card and Catalog.Cards: their contracts state the link of a card and the empty case. Order and completeness are stated by `Catalog.CardsAppend` and `Catalog.CardsLinkEach`.
- Headings.StripTags: its contract gives bounds only. What removal leaves behind is stated by `Headings.StripTagsLeavesNoTag` and `Headings.StripTagsIdempotent`.
- Headings.ExtractHeadings and Headings.GenerateToc: their contracts state the empty cases. The content is stated by `Headings.ExtractRendered` and `Headings.TocReadBack`.
- Enhance.AddToc: its contract states when the page is unchanged. Placement is stated by `Enhance.TocPlacement` and `Enhance.PlaceTocUndo`.
- Features.MarkedBlockMarksPage: the marker is promised only right after the breadcrumb step. A later step can remove it: when a next-read block encloses the hero block, step 4 removes that block together with the breadcrumb inside it, and the next run rewrites the page again.
- GoatCounter.ProcessHtml: its contract states the flag. The content in each branch is stated by `GoatCounter.PlaceholderReplaced`, `GoatCounter.InsertedBeforeBody` and `GoatCounter.NothingToDo`.
