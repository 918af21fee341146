/**
 * The article catalogue of the blog: the three categories with their
 * article lists, the per-article title, description and reading time, the
 * category lookup, the related-article selection, and the HTML fragments
 * built from them (reading-time box, related-article cards).
 */
module Catalog {
  import opened Wrappers
  import opened Text

  // ---------------------------------------------------------------------
  // Lists

  /** No element occurs twice. */
  predicate NoDup(xs: seq<string>) {
    forall i, j :: 0 <= i < j < |xs| ==> xs[i] != xs[j]
  }

  /** `xs` keeps its order inside `ys`: the elements of `xs` appear in `ys` in the same order. */
  predicate IsSubseq(xs: seq<string>, ys: seq<string>)
    decreases |ys|
  {
    if |xs| == 0 then true
    else if |ys| == 0 then false
    else if xs[0] == ys[0] then IsSubseq(xs[1..], ys[1..])
    else IsSubseq(xs, ys[1..])
  }

  /** A list is duplicate-free when its head is not in its tail and its tail is duplicate-free. */
  lemma NoDupCons(x: string, xs: seq<string>)
    ensures NoDup([x] + xs) <==> x !in xs && NoDup(xs)
  {
    var ys := [x] + xs;
    assert forall k :: 0 <= k < |xs| ==> ys[k + 1] == xs[k];
    if x !in xs && NoDup(xs) {
      forall i, j | 0 <= i < j < |ys|
        ensures ys[i] != ys[j]
      {
        if i > 0 {
          assert ys[i] == xs[i - 1] && ys[j] == xs[j - 1];
        } else {
          assert ys[j] == xs[j - 1];
        }
      }
    }
    if NoDup(ys) {
      forall k | 0 <= k < |xs|
        ensures xs[k] != x
      {
        assert ys[0] != ys[k + 1];
      }
      forall i, j | 0 <= i < j < |xs|
        ensures xs[i] != xs[j]
      {
        assert ys[i + 1] != ys[j + 1];
      }
    }
  }

  /** The empty prefix of any list is a subsequence of it, and so is the list itself. */
  lemma SubseqRefl(xs: seq<string>)
    ensures IsSubseq(xs, xs)
    decreases |xs|
  {
    if |xs| > 0 {
      SubseqRefl(xs[1..]);
    }
  }

  /** Python's `xs[:n]`, negative `n` counting from the end. */
  function PySlice(xs: seq<string>, n: int): (r: seq<string>)
    ensures n >= 0 ==> |r| == if n < |xs| then n else |xs|
    ensures n < 0 ==> |r| == if -n < |xs| then |xs| + n else 0
    ensures r == xs[..|r|]
    ensures forall a :: a in r ==> a in xs
  {
    if n >= 0 then (if n < |xs| then xs[..n] else xs)
    else if -n < |xs| then xs[..|xs| + n]
    else []
  }

  /** A prefix of a duplicate-free list is duplicate-free. */
  lemma NoDupPrefix(xs: seq<string>, n: nat)
    requires n <= |xs| && NoDup(xs)
    ensures NoDup(xs[..n])
  {
    forall i, j | 0 <= i < j < n
      ensures xs[..n][i] != xs[..n][j]
    {
      assert xs[..n][i] == xs[i] && xs[..n][j] == xs[j];
    }
  }

  /** `[a for a in xs if a != y]`. */
  function Without(xs: seq<string>, y: string): (r: seq<string>)
    ensures forall z :: z in r <==> z in xs && z != y
    ensures IsSubseq(r, xs)
    ensures NoDup(xs) ==> NoDup(r)
  {
    if |xs| == 0 then []
    else
      var rest := Without(xs[1..], y);
      assert xs == [xs[0]] + xs[1..];
      NoDupCons(xs[0], xs[1..]);
      if xs[0] == y then
        rest
      else
        NoDupCons(xs[0], rest);
        [xs[0]] + rest
  }

  /** `[a for a in xs if a in ys]`. */
  function KeepIn(xs: seq<string>, ys: seq<string>): (r: seq<string>)
    ensures forall z :: z in r <==> z in xs && z in ys
    ensures IsSubseq(r, xs)
    ensures NoDup(xs) ==> NoDup(r)
  {
    if |xs| == 0 then []
    else
      var rest := KeepIn(xs[1..], ys);
      assert xs == [xs[0]] + xs[1..];
      NoDupCons(xs[0], xs[1..]);
      if xs[0] !in ys then
        rest
      else
        NoDupCons(xs[0], rest);
        [xs[0]] + rest
  }

  /** `[a for a in xs if a not in ys]`. */
  function DropIn(xs: seq<string>, ys: seq<string>): (r: seq<string>)
    ensures forall z :: z in r <==> z in xs && z !in ys
    ensures IsSubseq(r, xs)
    ensures NoDup(xs) ==> NoDup(r)
  {
    if |xs| == 0 then []
    else
      var rest := DropIn(xs[1..], ys);
      assert xs == [xs[0]] + xs[1..];
      NoDupCons(xs[0], xs[1..]);
      if xs[0] in ys then
        rest
      else
        NoDupCons(xs[0], rest);
        [xs[0]] + rest
  }

  lemma {:induction false} WithoutLength(xs: seq<string>, y: string)
    requires NoDup(xs) && y in xs
    ensures |Without(xs, y)| == |xs| - 1
  {
    assert xs == [xs[0]] + xs[1..];
    NoDupCons(xs[0], xs[1..]);
    if xs[0] != y {
      WithoutLength(xs[1..], y);
    } else {
      WithoutAbsent(xs[1..], y);
    }
  }

  lemma {:induction false} WithoutAbsent(xs: seq<string>, y: string)
    requires y !in xs
    ensures Without(xs, y) == xs
  {
    if |xs| > 0 {
      assert xs[1..] == xs[1..];
      WithoutAbsent(xs[1..], y);
      assert xs == [xs[0]] + xs[1..];
    }
  }

  /**
   * The tech ordering: the members of `prio` that are in `xs`, in `prio`
   * order, then the other members of `xs`, in `xs` order.
   */
  function PriorityFirst(prio: seq<string>, xs: seq<string>): (r: seq<string>)
    ensures forall z :: z in r <==> z in xs
    ensures |r| == |KeepIn(prio, xs)| + |DropIn(xs, prio)|
    ensures IsSubseq(KeepIn(prio, xs), prio) && IsSubseq(DropIn(xs, prio), xs)
    ensures r[..|KeepIn(prio, xs)|] == KeepIn(prio, xs) && r[|KeepIn(prio, xs)|..] == DropIn(xs, prio)
    ensures forall i, j :: 0 <= i < j < |r| && r[j] in prio ==> r[i] in prio
    ensures NoDup(prio) && NoDup(xs) ==> NoDup(r) && |r| == |xs|
  {
    var front := KeepIn(prio, xs);
    var back := DropIn(xs, prio);
    PriorityBlocks(prio, front, back);
    if NoDup(prio) && NoDup(xs) then
      PriorityNoDup(prio, xs);
      front + back
    else
      front + back
  }

  /** When the front holds only members of `prio` and the back none, the members of `prio` all sit in the front. */
  lemma PriorityBlocks(prio: seq<string>, front: seq<string>, back: seq<string>)
    requires forall z :: z in front ==> z in prio
    requires forall z :: z in back ==> z !in prio
    ensures forall i, j :: 0 <= i < j < |front + back| && (front + back)[j] in prio ==> (front + back)[i] in prio
  {
    var r := front + back;
    forall i, j | 0 <= i < j < |r|
      ensures r[j] in prio ==> r[i] in prio
    {
      if j >= |front| {
        assert r[j] == back[j - |front|];
      } else {
        assert r[i] == front[i];
      }
    }
  }

  /** Without duplicates in either list, the reordering is a duplicate-free list as long as `xs`. */
  lemma PriorityNoDup(prio: seq<string>, xs: seq<string>)
    requires NoDup(prio) && NoDup(xs)
    ensures NoDup(KeepIn(prio, xs) + DropIn(xs, prio)) && |KeepIn(prio, xs) + DropIn(xs, prio)| == |xs|
  {
    DisjointConcatNoDup(KeepIn(prio, xs), DropIn(xs, prio));
    PriorityLength(prio, xs);
  }

  /** Two duplicate-free lists with no common element concatenate to a duplicate-free list. */
  lemma DisjointConcatNoDup(a: seq<string>, b: seq<string>)
    requires NoDup(a) && NoDup(b)
    requires forall z :: z in a ==> z !in b
    ensures NoDup(a + b)
  {
    var r := a + b;
    forall i, j | 0 <= i < j < |r|
      ensures r[i] != r[j]
    {
      if j < |a| {
        assert r[i] == a[i] && r[j] == a[j];
      } else if i >= |a| {
        assert r[i] == b[i - |a|] && r[j] == b[j - |a|];
      } else {
        assert r[i] == a[i] && r[j] == b[j - |a|];
        assert r[i] in a && r[j] in b;
      }
    }
  }

  /** With no duplicates, the two halves of the tech ordering split `xs` exactly. */
  lemma {:induction false} PriorityLength(prio: seq<string>, xs: seq<string>)
    requires NoDup(prio) && NoDup(xs)
    ensures |KeepIn(prio, xs)| + |DropIn(xs, prio)| == |xs|
  {
    var front := KeepIn(prio, xs);
    var back := DropIn(xs, prio);
    // `front` and the members of `xs` in `prio` are the same set without duplicates
    var inBoth := KeepIn(xs, prio);
    SameElementsSameLength(front, inBoth);
    SplitByMembership(xs, prio);
  }

  /** `xs` splits into its members in `ys` and the rest. */
  lemma {:induction false} SplitByMembership(xs: seq<string>, ys: seq<string>)
    ensures |KeepIn(xs, ys)| + |DropIn(xs, ys)| == |xs|
  {
    if |xs| > 0 {
      SplitByMembership(xs[1..], ys);
    }
  }

  lemma HeadIn(b: seq<string>)
    ensures |b| > 0 ==> b[0] in b
  {
  }

  /** Two duplicate-free lists with the same elements have the same length. */
  lemma {:induction false} SameElementsSameLength(a: seq<string>, b: seq<string>)
    requires NoDup(a) && NoDup(b)
    requires forall z :: z in a <==> z in b
    ensures |a| == |b|
    decreases |a|
  {
    if |a| > 0 {
      var x := a[0];
      assert a == [a[0]] + a[1..];
      NoDupCons(a[0], a[1..]);
      WithoutLength(b, x);
      var b' := Without(b, x);
      forall z
        ensures z in a[1..] <==> z in b'
      {
        if z in a[1..] {
          assert z != x;
        }
        if z in b' && z != x {
          assert z in a;
          var k :| 0 <= k < |a| && a[k] == z;
          assert a[1..][k - 1] == z;
        }
      }
      SameElementsSameLength(a[1..], b');
    } else {
      HeadIn(b);
    }
  }

  // ---------------------------------------------------------------------
  // The tables

  /** The keys of the category table, in its iteration order. */
  datatype Category = News | Tech | Backtest

  const CategoryOrder: seq<Category> := [News, Tech, Backtest]

  function Label(c: Category): string {
    match c
    case News => "海外AI"
    case Tech => "ブログ"
    case Backtest => "バックテスト"
  }

  function Articles(c: Category): seq<string> {
    match c
    case News =>
      ["news-shumer", "news-ai-cartel", "news-nvidia-dms", "news-shumer-rebuttal",
       "news-solo-founder", "news-vending-machine", "news-klarna", "news-ai-finance"]
    case Tech =>
      ["day1", "soul-md-merged", "comfyui", "morning-briefing",
       "token-efficiency", "cron-heartbeat", "multi-agent-flow"]
    case Backtest =>
      ["backtest-overview", "backtest-failures", "backtest-method"]
  }

  /** The tech articles promoted to the front of a related list, in promotion order. */
  const TechPriority: seq<string> := ["token-efficiency", "multi-agent-flow", "morning-briefing"]

  /** One entry of the article-information table. */
  datatype Info = Info(title: string, desc: string, readingTime: nat)

  /** The article-information table: the entry of a slug, or `None` when the table has none. */
  function ArticleInfo(slug: string): Option<Info> {
    if slug == "news-shumer" then Some(Info("Xで8100万回読まれたAI起業家の話", "HyperWrite CEOが「もう自分の仕事、いらなくなった」と書いたエッセイ", 3)) else
    if slug == "news-ai-cartel" then Some(Info("AIカルテル自販機実験", "AIに「利益最大化」を任せたら勝手にカルテルを組んだ話", 4)) else
    if slug == "news-nvidia-dms" then Some(Info("NVIDIA DMSの衝撃", "AIの推論速度が30倍高速化された技術の話", 3)) else
    if slug == "news-shumer-rebuttal" then Some(Info("AI起業家への反論記事", "Matt Shumerの主張に対する懐疑的な視点", 3)) else
    if slug == "news-solo-founder" then Some(Info("ソロ起業家の時代", "一人でスタートアップを立ち上げるAI時代の起業", 4)) else
    if slug == "news-vending-machine" then Some(Info("自販機AI価格実験", "AIが需要予測して価格を自動調整する自販機の話", 3)) else
    if slug == "news-klarna" then Some(Info("Klarnaの生成AI導入", "フィンテック企業が700人分の仕事をAIに置き換えた話", 3)) else
    if slug == "news-ai-finance" then Some(Info("AI×金融の最前線", "金融業界におけるAI活用の最新動向", 4)) else
    if slug == "day1" then Some(Info("Day1: チーム構築", "OpenClawでAIエージェントチームを立ち上げた初日の記録", 5)) else
    if slug == "soul-md-merged" then Some(Info("SOUL.md: AI臭さ対策", "AIエージェントの出力を自然にするSOUL.mdの仕組み", 4)) else
    if slug == "comfyui" then Some(Info("ComfyUI: ローカル自動化", "ローカルで動く画像生成AIの自動化環境", 5)) else
    if slug == "morning-briefing" then Some(Info("朝ブリーフィング自動化", "OpenClawのcronで毎朝の情報収集を自動化した話", 4)) else
    if slug == "token-efficiency" then Some(Info("トークン効率化", "AIエージェントのコスト削減とパフォーマンス改善", 5)) else
    if slug == "cron-heartbeat" then Some(Info("cron + heartbeat", "定期タスクと動的チェックを組み合わせた自動化", 4)) else
    if slug == "multi-agent-flow" then Some(Info("マルチエージェント連携", "複数のAIエージェントを協調させる設計パターン", 5)) else
    if slug == "backtest-overview" then Some(Info("トレードシステム概要編", "AIエージェントによる自動トレードシステムの全体像", 6)) else
    if slug == "backtest-failures" then Some(Info("トレードシステム失敗編", "バックテストで失敗から学んだ教訓", 5)) else
    if slug == "backtest-method" then Some(Info("トレードシステム仕組み編", "トレードシステムの技術的な実装方法", 6)) else
    None
  }

  // ---------------------------------------------------------------------
  // Lookups

  /**
   * The category of an article: the first entry of the category table, in
   * its order, whose article list holds the slug. `None` stands for the pair
   * `(None, None)`; the label of `Some(c)` is `Label(c)`.
   */
  function GetCategory(slug: string): (r: Option<Category>)
    ensures r.Some? ==> slug in Articles(r.value)
    ensures r.Some? ==> forall i :: 0 <= i < Index(r.value) ==> slug !in Articles(CategoryOrder[i])
    ensures r.None? <==> forall c: Category :: slug !in Articles(c)
  {
    if slug in Articles(CategoryOrder[0]) then Some(CategoryOrder[0])
    else if slug in Articles(CategoryOrder[1]) then Some(CategoryOrder[1])
    else if slug in Articles(CategoryOrder[2]) then Some(CategoryOrder[2])
    else None
  }

  /** The position of a category in the table order. */
  function Index(c: Category): (k: nat)
    ensures k < |CategoryOrder| && CategoryOrder[k] == c
  {
    match c
    case News => 0
    case Tech => 1
    case Backtest => 2
  }

  /**
   * The related list drawn from one category's list `list` for `slug`: the
   * other articles, with the promoted tech articles first when `promote`
   * holds, cut to `maxCount` with Python's slice semantics.
   */
  function Related(list: seq<string>, slug: string, promote: bool, maxCount: int): (r: seq<string>)
    requires NoDup(list)
    ensures slug !in r
    ensures forall a :: a in r ==> a in list
    ensures maxCount >= 0 ==> |r| <= maxCount
    ensures NoDup(r)
    ensures !promote && maxCount >= 0 ==>
              var same := Without(list, slug);
              r == same[..Min(maxCount, |same|)]
    ensures promote && maxCount >= 0 ==>
              var ordered := PriorityFirst(TechPriority, Without(list, slug));
              r == ordered[..Min(maxCount, |ordered|)]
  {
    var same := Without(list, slug);
    var ordered := if promote then PriorityFirst(TechPriority, same) else same;
    TablesNoDup();
    assert NoDup(ordered) && forall a :: a in ordered ==> a in same;
    var picked := PySlice(ordered, maxCount);
    var r := PySlice(picked, maxCount);
    NoDupPrefix(ordered, |picked|);
    NoDupPrefix(picked, |r|);
    assert maxCount >= 0 ==> r == ordered[..Min(maxCount, |ordered|)];
    r
  }


  /**
   * The related articles of `slug`, at most `maxCount` of them (Python
   * slicing, so a negative `maxCount` drops from the end, and the source
   * slices twice).
   */
  function GetRelated(slug: string, maxCount: int): (r: seq<string>)
    ensures GetCategory(slug).None? ==> r == []
    ensures slug !in r
    ensures GetCategory(slug).Some? ==> forall a :: a in r ==> a in Articles(GetCategory(slug).value)
    ensures maxCount >= 0 ==> |r| <= maxCount
    ensures NoDup(r)
    ensures GetCategory(slug).Some? && GetCategory(slug).value != Tech && maxCount >= 0 ==>
              var same := Without(Articles(GetCategory(slug).value), slug);
              r == same[..Min(maxCount, |same|)]
    ensures GetCategory(slug) == Some(Tech) && maxCount >= 0 ==>
              var ordered := PriorityFirst(TechPriority, Without(Articles(Tech), slug));
              r == ordered[..Min(maxCount, |ordered|)]
  {
    match GetCategory(slug)
    case None => []
    case Some(c) =>
      TablesNoDup();
      Related(Articles(c), slug, c == Tech, maxCount)
  }


  function Min(a: int, b: int): int {
    if a < b then a else b
  }

  /** The lists of the tables hold no duplicates. */
  lemma TablesNoDup()
    ensures NoDup(Articles(News)) && NoDup(Articles(Tech)) && NoDup(Articles(Backtest))
    ensures NoDup(TechPriority)
  {
  }

  /** Every article belongs to exactly one category, so the scan order never decides. */
  lemma CategoriesDisjoint(slug: string, c: Category)
    requires slug in Articles(c)
    ensures GetCategory(slug) == Some(c)
  {
    match c
    case News =>
    case Tech => TechNotNews(slug);
    case Backtest => BacktestNotEarlier(slug);
  }

  /** Whichever category lists the slug is the one the lookup returns. */
  lemma CategoryOfListed(slug: string)
    ensures forall c: Category :: slug in Articles(c) ==> GetCategory(slug) == Some(c)
  {
    forall c: Category | slug in Articles(c)
      ensures GetCategory(slug) == Some(c)
    {
      CategoriesDisjoint(slug, c);
    }
  }

  lemma TechNotNews(slug: string)
    requires slug in Articles(Tech)
    ensures slug !in Articles(News)
  {
  }

  lemma BacktestNotEarlier(slug: string)
    requires slug in Articles(Backtest)
    ensures slug !in Articles(News) && slug !in Articles(Tech)
  {
  }

  /** Every listed article has an entry in the information table, with a positive reading time. */
  lemma ListedArticlesHaveInfo(c: Category, slug: string)
    requires slug in Articles(c)
    ensures ArticleInfo(slug).Some? && ArticleInfo(slug).value.readingTime > 0
  {
    match c
    case News => NewsListed(slug);
    case Tech => TechListed(slug);
    case Backtest => BacktestListed(slug);
  }

  lemma NewsListed(slug: string)
    requires slug in Articles(News)
    ensures ArticleInfo(slug).Some? && ArticleInfo(slug).value.readingTime > 0
  {
  }

  lemma TechListed(slug: string)
    requires slug in Articles(Tech)
    ensures ArticleInfo(slug).Some? && ArticleInfo(slug).value.readingTime > 0
  {
  }

  lemma BacktestListed(slug: string)
    requires slug in Articles(Backtest)
    ensures ArticleInfo(slug).Some? && ArticleInfo(slug).value.readingTime > 0
  {
  }



  // ---------------------------------------------------------------------
  // Table defaults

  /** The reading time of an article, 3 minutes when the table lacks it. */
  function ReadingMinutes(slug: string): (m: nat)
  {
    match ArticleInfo(slug)
    case Some(info) => info.readingTime
    case None => 3
  }

  /** The title of an article, the slug itself when the table lacks it. */
  function Title(slug: string): (t: string)
  {
    match ArticleInfo(slug)
    case Some(info) => info.title
    case None => slug
  }

  /** The description of an article, empty when the table lacks it. */
  function Desc(slug: string): (d: string)
  {
    match ArticleInfo(slug)
    case Some(info) => info.desc
    case None => ""
  }

  // ---------------------------------------------------------------------
  // HTML fragments

  const ReadingTimeOpen: string :=
    "\n<div class=\"reading-time\" style=\"font-size: 13px; color: #999; text-align: center; "
    + "margin: 24px 0; padding: 12px; background: #f9f9f9; border-radius: 4px;\">\n  ⏱ 約"

  const ReadingTimeClose: string := "分で読めます\n</div>\n"

  /** The reading-time box; the minutes are written in decimal between `約` and `分`. */
  function CreateReadingTime(slug: string): (html: string)
    ensures ArticleInfo(slug).None? ==> html == ReadingTimeOpen + "3" + ReadingTimeClose
  {
    ReadingTimeOpen + NatToString(ReadingMinutes(slug)) + ReadingTimeClose
  }

  /**
   * The box is the fixed opening, some decimal digits and the fixed closing,
   * and the digits read back as the table's reading time (3 when the table
   * has no entry).
   */
  lemma ReadingTimeReadsBack(slug: string)
    ensures var html := CreateReadingTime(slug);
            |ReadingTimeOpen| + |ReadingTimeClose| < |html|
            && html[..|ReadingTimeOpen|] == ReadingTimeOpen && html[|html| - |ReadingTimeClose|..] == ReadingTimeClose
    ensures var html := CreateReadingTime(slug);
            var digits := html[|ReadingTimeOpen|..|html| - |ReadingTimeClose|];
            (forall i :: 0 <= i < |digits| ==> IsDigit(digits[i]))
            && ParseDecimal(digits) == (if ArticleInfo(slug).Some? then ArticleInfo(slug).value.readingTime else 3)
  {
    var html := CreateReadingTime(slug);
    var n := NatToString(ReadingMinutes(slug));
    assert html[|ReadingTimeOpen|..|html| - |ReadingTimeClose|] == n;
    DecimalRoundTrip(ReadingMinutes(slug));
  }

  /** The opening tag of the card that links to `slug`. */
  function CardLink(slug: string): string {
    "<a href=\"../" + slug + "/\" class=\"related-card\">"
  }

  /** One related-article card, linking to the article. */
  function Card(slug: string): (html: string)
    ensures Contains(html, CardLink(slug))
  {
    var link := CardLink(slug);
    var rest := "\n          <div class=\"related-card-title\">" + Title(slug) + "</div>"
      + "\n          <div class=\"related-card-desc\">" + Desc(slug) + "</div>"
      + "\n        </a>\n";
    assert link[0..|link|] == link;
    OccursInInfix("\n        ", link, rest, link, 0);
    "\n        " + link + rest
  }

  /** The cards of a list of slugs, one after the other. */
  function Cards(slugs: seq<string>): (html: string)
    ensures |slugs| == 0 <==> html == ""
  {
    if |slugs| == 0 then "" else Card(slugs[0]) + Cards(slugs[1..])
  }

  /** The cards of a concatenation are the concatenation of the cards: one card per slug, in order. */
  lemma {:induction false} CardsAppend(a: seq<string>, b: seq<string>)
    ensures Cards(a + b) == Cards(a) + Cards(b)
    decreases |a|
  {
    if |a| > 0 {
      var c := Card(a[0]);
      assert (a + b)[0] == a[0];
      assert (a + b)[1..] == a[1..] + b;
      assert Cards(a + b) == c + Cards(a[1..] + b);
      CardsAppend(a[1..], b);
      assert Cards(a) == c + Cards(a[1..]);
      ConcatAssoc(c, Cards(a[1..]), Cards(b));
    } else {
      assert a + b == b;
    }
  }

  /** Every slug of the list has its card link in the cards. */
  lemma {:induction false} CardsLinkEach(slugs: seq<string>)
    ensures forall x :: x in slugs ==> Contains(Cards(slugs), CardLink(x))
    decreases |slugs|
  {
    if |slugs| > 0 {
      CardsLinkEach(slugs[1..]);
      var head := Card(slugs[0]);
      var rest := Cards(slugs[1..]);
      forall x | x in slugs
        ensures Contains(head + rest, CardLink(x))
      {
        if x == slugs[0] {
          ContainsExtendRight(head, rest, CardLink(x));
        } else {
          assert x in slugs[1..];
          ContainsExtendLeft(head, rest, CardLink(x));
        }
      }
    }
  }

  lemma ConcatAssoc(x: string, y: string, z: string)
    ensures x + (y + z) == (x + y) + z
  {
  }

  lemma CardsSingle(slug: string)
    ensures Cards([slug]) == Card(slug)
  {
  }

  const RelatedOpen: string :=
    "\n<!-- 関連記事 -->\n<div class=\"related-articles\">\n  <h3 class=\"related-title\">関連記事</h3>\n"
    + "  <div class=\"related-cards\">\n"

  /** The closing tags and the section's style sheet. */
  const RelatedClose: string :=
    "\n  </div>\n</div>\n\n<style>\n"
    + ".related-articles {\n  margin: 48px 0;\n  padding: 32px;\n  background: #fafafa;\n  border-radius: 8px;\n}\n"
    + ".related-title {\n  font-size: 20px;\n  font-weight: 700;\n  color: #333;\n  margin-bottom: 24px;\n  text-align: center;\n}\n"
    + ".related-cards {\n  display: grid;\n  grid-template-columns: repeat(auto-fit, minmax(250px, 1fr));\n  gap: 16px;\n}\n"
    + ".related-card {\n  display: block;\n  padding: 16px;\n  background: #fff;\n  border-left: 3px solid #e63946;\n"
    + "  border-radius: 4px;\n  text-decoration: none;\n  color: #333;\n"
    + "  transition: transform 0.2s ease, box-shadow 0.2s ease;\n  box-shadow: 0 1px 3px rgba(0,0,0,0.05);\n}\n"
    + ".related-card:hover {\n  transform: translateY(-2px);\n  box-shadow: 0 4px 12px rgba(0,0,0,0.1);\n}\n"
    + ".related-card-title {\n  font-size: 15px;\n  font-weight: 700;\n  color: #333;\n  margin-bottom: 8px;\n  line-height: 1.4;\n}\n"
    + ".related-card-desc {\n  font-size: 13px;\n  color: #666;\n  line-height: 1.6;\n}\n"
    + "@media (max-width: 768px) {\n  .related-cards {\n    grid-template-columns: 1fr;\n  }\n}\n</style>\n"

  /** The related-articles section: empty exactly when there is nothing related, otherwise the frame around the cards. */
  function CreateRelatedArticles(slug: string): (html: string)
    ensures html == "" <==> GetRelated(slug, 3) == []
  {
    var related := GetRelated(slug, 3);
    if |related| == 0 then ""
    else RelatedOpen + Cards(related) + RelatedClose
  }

  /** The section links to every related article of the slug. */
  lemma RelatedLinked(slug: string)
    ensures forall x :: x in GetRelated(slug, 3) ==> Contains(CreateRelatedArticles(slug), CardLink(x))
  {
    var related := GetRelated(slug, 3);
    if related != [] {
      FramedCardsLink(RelatedOpen, related, RelatedClose);
    }
  }

  lemma FramedCardsLink(a: string, slugs: seq<string>, b: string)
    ensures forall x :: x in slugs ==> Contains(a + Cards(slugs) + b, CardLink(x))
  {
    CardsLinkEach(slugs);
    forall x | x in slugs
      ensures Contains(a + Cards(slugs) + b, CardLink(x))
    {
      ContainsInInfix(a, Cards(slugs), b, CardLink(x));
    }
  }
}
