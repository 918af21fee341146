/**
 * The fixed texts the mobile enhancer splices into a page, written out as
 * the program holds them, line by line, and the step lemmas of `Enhance`
 * applied to them.
 */
module MobileAssets {
  import opened Text
  import opened Enhance

  /** `TOC_CSS`, cut around the `toc {` that step 1 tests for. */
  const TocCss: string := TocCssHead + TocCssMarker + TocCssTail
  const TocCssHead: string :=
    Join([
      "",
      "  /* 目次 (TOC) */",
      "  ."
    ], "\n")
  const TocCssTail: string :=
    Join([
      "",
      "    background: #f9f9f9;",
      "    border: 1px solid #eee;",
      "    border-radius: 8px;",
      "    padding: 20px 24px;",
      "    margin: 24px 0 36px;",
      "  }",
      "  .toc-title {",
      "    font-weight: 700;",
      "    font-size: 15px;",
      "    margin-bottom: 12px;",
      "    color: #1a1a1a;",
      "    display: flex;",
      "    align-items: center;",
      "    gap: 8px;",
      "    cursor: pointer;",
      "  }",
      "  .toc-title::before { content: \'\U{1F4D1}\'; }",
      "  .toc-title::after { content: \'▼\'; font-size: 11px; color: #999; transition: transform 0.3s; }",
      "  .toc.collapsed .toc-title::after { transform: rotate(-90deg); }",
      "  .toc ol {",
      "    margin: 0;",
      "    padding-left: 20px;",
      "    counter-reset: toc-counter;",
      "    list-style: none;",
      "  }",
      "  .toc li {",
      "    counter-increment: toc-counter;",
      "    margin: 8px 0;",
      "    font-size: 14px;",
      "    line-height: 1.6;",
      "  }",
      "  .toc li::before {",
      "    content: counter(toc-counter) \'. \';",
      "    color: #e63946;",
      "    font-weight: 700;",
      "  }",
      "  .toc a { color: #1a1a1a; text-decoration: none; }",
      "  .toc a:hover { color: #e63946; }",
      "  .toc.collapsed ol { display: none; }",
      ""
    ], "\n")

  /** `PROGRESS_BAR_CSS`. */
  const ProgressCss: string :=
    Join([
      "",
      "  /* 読了プログレスバー */",
      "  .progress-bar {",
      "    position: fixed;",
      "    top: 0;",
      "    left: 0;",
      "    height: 3px;",
      "    background: #e63946;",
      "    z-index: 9999;",
      "    transition: width 0.1s linear;",
      "    width: 0%;",
      "  }",
      ""
    ], "\n")

  /** `SECTION_NUMBER_CSS`. */
  const SectionCss: string :=
    Join([
      "",
      "  /* h2セクション番号 */",
      "  article { counter-reset: section-counter; }",
      "  article h2 { counter-increment: section-counter; }",
      "  article h2::before {",
      "    content: counter(section-counter, decimal-leading-zero) \' \';",
      "    display: inline-block;",
      "    color: #e63946;",
      "    font-size: 14px;",
      "    font-weight: 700;",
      "    margin-right: 12px;",
      "    opacity: 0.7;",
      "  }",
      ""
    ], "\n")

  /** `BACK_TO_TOP_CSS`. */
  const BackCss: string :=
    Join([
      "",
      "  /* トップに戻るボタン */",
      "  .back-to-top {",
      "    position: fixed;",
      "    bottom: 24px;",
      "    right: 24px;",
      "    width: 44px;",
      "    height: 44px;",
      "    background: #e63946;",
      "    color: #fff;",
      "    border: none;",
      "    border-radius: 50%;",
      "    font-size: 20px;",
      "    cursor: pointer;",
      "    opacity: 0;",
      "    transition: opacity 0.3s;",
      "    z-index: 100;",
      "    box-shadow: 0 2px 8px rgba(0,0,0,0.15);",
      "  }",
      "  .back-to-top.visible { opacity: 1; }",
      "  .back-to-top:hover { background: #c5303c; }",
      ""
    ], "\n")

  /** `MOBILE_ENHANCEMENTS_JS`, cut around the statement that step 6 tests for. */
  const EnhancementsJs: string := JsHead + ScriptMarker + JsTail
  const JsHead: string :=
    Join([
      "",
      "<script>",
      "// TOC 折りたたみ",
      "document.querySelectorAll(\'.toc-title\').forEach(t => {",
      "  t.addEventListener(\'click\', () => t.parentElement.classList.toggle(\'collapsed\'));",
      "});",
      "",
      "// 読了プログレスバー",
      "window.addEventListener(\'scroll\', function() {",
      "  var h = document.documentElement;",
      "  var progress = (h.scrollTop / (h.scrollHeight - h.clientHeight)) * 100;",
      "  document.getElementById(\'progressBar\').style.width = progress + \'%\';",
      "});",
      "",
      "// トップに戻るボタン",
      ""
    ], "\n")
  const JsTail: string :=
    Join([
      ";",
      "window.addEventListener(\'scroll\', function() {",
      "  btn.classList.toggle(\'visible\', window.scrollY > 500);",
      "});",
      "btn.addEventListener(\'click\', function() {",
      "  window.scrollTo({ top: 0, behavior: \'smooth\' });",
      "});",
      "</script>",
      ""
    ], "\n")

  /** The texts the program splices in. */
  const Program: Assets := Assets(TocCss, ProgressCss, SectionCss, BackCss, EnhancementsJs)

  /** The style sheets carry `toc {` and the script carries its back-to-top statement. */
  lemma ProgramMarkers()
    ensures Contains(Program.tocCss, TocCssMarker) && Contains(Program.script, ScriptMarker)
  {
    ContainsSelf(TocCssMarker);
    ContainsInInfix(TocCssHead, TocCssMarker, TocCssTail, TocCssMarker);
    ContainsSelf(ScriptMarker);
    ContainsInInfix(JsHead, ScriptMarker, JsTail, ScriptMarker);
  }

  /** Step 1 with the program's style sheets, run twice, is step 1 run once. */
  lemma ProgramCssTwice(c: string)
    ensures AddCss(AddCss(c, Program), Program) == AddCss(c, Program)
  {
    ProgramMarkers();
    AddCssTwice(c, Program);
  }

  /** Step 6 with the program's script, run twice, is step 6 run once. */
  lemma ProgramScriptTwice(c: string)
    ensures AddScript(AddScript(c, Program), Program) == AddScript(c, Program)
  {
    ProgramMarkers();
    AddScriptTwice(c, Program);
  }
}
