/**
 * The analytics inserter (`process_html_file`): the page's analytics
 * placeholder comments are replaced by the counter script, or, when the
 * page has none, the script is put before every `</body>`; the result says
 * whether the page changed.
 */
module GoatCounter {
  import opened Wrappers
  import opened Text
  import opened Markup

  /** `GOATCOUNTER_SCRIPT`. */
  const Script: string := ScriptOpen + CounterAttr + SourceAttr + ScriptClose
  const ScriptOpen: string := "<script"
  /** ` data-goatcounter="https://daisuki-koshian.goatcounter.com/count"`, in pieces. */
  const CounterAttr: string := CounterKey + CounterScheme + CounterHost + CounterDomain + CounterPath
  const CounterKey: string := " data-goatcounter="
  const CounterScheme: string := "\"https://"
  const CounterHost: string := "daisuki-koshian."
  const CounterDomain: string := "goatcounter.com"
  const CounterPath: string := "/count\""
  /** ` async src="//gc.zgo.at/count.js"`, in pieces. */
  const SourceAttr: string := SourceKey + SourceHost + SourcePath
  const SourceKey: string := " async src="
  const SourceHost: string := "\"//gc.zgo.at"
  const SourcePath: string := "/count.js\""
  const ScriptClose: string := "></script>"

  const CommentOpen: string := "<!--"
  const CommentClose: string := "-->"
  /** The words of the three placeholder patterns `<!--\s*W[^>]*-->`, in the order they are tried. */
  const Placeholders: seq<string> := ["Analytics", "analytics", "Analytics placeholder"]

  /**
   * Where a match of `<!--\s*w[^>]*-->` that starts at `i` ends. The
   * `\s*` is greedy and `w` starts with a letter, so the word follows all
   * the whitespace; `[^>]*` cannot pass the first `>` after the word, and
   * `-->` must end on a `>`, so the comment closes at that first `>`.
   */
  function CommentAt(c: string, w: string, i: nat): (r: Option<nat>)
    ensures r.Some? ==> i + |CommentOpen| + |w| + |CommentClose| <= r.value <= |c|
  {
    if !OccursAt(c, CommentOpen, i) then None else WordAt(c, w, SkipSpace(c, i + |CommentOpen|))
  }

  function WordAt(c: string, w: string, j: nat): (r: Option<nat>)
    requires j <= |c|
    ensures r.Some? ==> j + |w| + |CommentClose| <= r.value <= |c|
  {
    if !OccursAt(c, w, j) then None else CloseAt(c, j + |w|, TagLimit(c, j + |w|))
  }

  /** `[^>]*-->` from `lo`, whose first `>` is at `e`: it matches when the two characters before that `>` are dashes after `lo`. */
  function CloseAt(c: string, lo: nat, e: nat): (r: Option<nat>)
    requires lo <= e <= |c|
    ensures r.Some? ==> lo + |CommentClose| <= r.value <= |c| && r.value == e + 1
  {
    if e < |c| && lo + 2 <= e && c[e - 2..e + 1] == CommentClose then Some(e + 1) else None
  }

  /** A match: where it starts and where it ends. */
  datatype Hit = Hit(start: nat, end: nat)

  /** The leftmost match of the placeholder for `w` from `k` on (`re.search`). */
  function NextComment(c: string, w: string, k: nat): (r: Option<Hit>)
    decreases |c| - k
    ensures r.Some? ==> k <= r.value.start && CommentAt(c, w, r.value.start) == Some(r.value.end)
    ensures r.Some? ==> forall i :: k <= i < r.value.start ==> CommentAt(c, w, i).None?
    ensures r.None? ==> forall i :: k <= i <= |c| ==> CommentAt(c, w, i).None?
  {
    if k > |c| then None
    else match CommentAt(c, w, k)
      case Some(e) => Some(Hit(k, e))
      case None => NextComment(c, w, k + 1)
  }

  /** `re.sub(pattern, GOATCOUNTER_SCRIPT, c[k:])`: every match, left to right and not overlapping, becomes the script. */
  function Sub(c: string, w: string, k: nat): string
    requires k <= |c|
    decreases |c| - k
  {
    match NextComment(c, w, k)
    case None => c[k..]
    case Some(h) => c[k..h.start] + Script + Sub(c, w, h.end)
  }

  /** `re.search(pattern, c)` for the placeholder of `w`. */
  predicate Matches(c: string, w: string) {
    NextComment(c, w, 0).Some?
  }

  /** The index of the first pattern of `ws` that matches somewhere in the page. */
  function SelectPattern(c: string, ws: seq<string>): (r: Option<nat>)
    decreases |ws|
    ensures r.Some? ==> r.value < |ws| && Matches(c, ws[r.value])
    ensures r.Some? ==> forall l :: 0 <= l < r.value ==> !Matches(c, ws[l])
    ensures r.None? ==> forall l :: 0 <= l < |ws| ==> !Matches(c, ws[l])
  {
    if |ws| == 0 then None
    else if Matches(c, ws[0]) then Some(0)
    else Later(SelectPattern(c, ws[1..]))
  }

  function Later(r: Option<nat>): Option<nat> {
    match r
    case None => None
    case Some(j) => Some(j + 1)
  }

  /** The page after the step, and the returned flag. */
  datatype Outcome = Outcome(content: string, changed: bool)

  /** The page as rewritten: it is written, and the flag raised, only when it differs. */
  function Written(original: string, content: string): Outcome {
    Outcome(content, content != original)
  }

  /** `process_html_file` on the text of one page. */
  function ProcessHtml(c: string): (r: Outcome)
    ensures r.changed <==> r.content != c
  {
    match SelectPattern(c, Placeholders)
    case Some(j) => Written(c, Sub(c, Placeholders[j], 0))
    case None =>
      if Contains(c, BodyEnd) then Written(c, ReplaceAll(c, BodyEnd, Script + "\n" + BodyEnd))
      else Outcome(c, false)
  }

  /** A match is really replaced: its `<!` becomes `<s`, so the text differs. */
  lemma SubDiffers(c: string, w: string, k: nat)
    requires k <= |c| && NextComment(c, w, k).Some?
    ensures Sub(c, w, k) != c[k..]
  {
    var h := NextComment(c, w, k).value;
    var x := c[k..h.start];
    var r := Sub(c, w, k);
    assert r == x + Script + Sub(c, w, h.end);
    ScriptSecond();
    SplicedAt(x, Script, Sub(c, w, h.end), 1);
    CommentStart(c, w, h.start);
    assert c[k..][|x| + 1] == c[h.start + 1];
  }

  /** A placeholder match starts with `<!`. */
  lemma CommentStart(c: string, w: string, i: nat)
    requires CommentAt(c, w, i).Some?
    ensures i + 1 < |c| && c[i + 1] == '!'
  {
    assert c[i..i + |CommentOpen|] == CommentOpen;
  }

  lemma SplicedAt(x: string, y: string, z: string, n: nat)
    requires n < |y|
    ensures (x + y + z)[|x| + n] == y[n]
  {
  }

  lemma ScriptSecond()
    ensures |Script| > 1 && Script[1] == 's'
  {
    SplicedAt([], ScriptOpen, CounterAttr + SourceAttr + ScriptClose, 1);
    assert Script == [] + ScriptOpen + (CounterAttr + SourceAttr + ScriptClose);
  }

  /** With a placeholder, the first matching pattern's matches are all replaced, and the page changes. */
  lemma PlaceholderReplaced(c: string)
    requires SelectPattern(c, Placeholders).Some?
    ensures ProcessHtml(c) == Outcome(Sub(c, Placeholders[SelectPattern(c, Placeholders).value], 0), true)
  {
    var w := Placeholders[SelectPattern(c, Placeholders).value];
    SubDiffers(c, w, 0);
    assert c[0..] == c;
  }

  /**
   * A written-out placeholder is recognised: when the text around the
   * comment holds no comment opener, the comment is the only match, and
   * `re.sub` puts the script in its place.
   */
  lemma SubWrittenComment(pre: string, ws: string, w: string, rest: string, post: string)
    requires !Contains(pre, CommentOpen) && !Contains(post, CommentOpen)
    requires AllSpace(ws) && |w| > 0 && !IsSpace(w[0]) && '>' !in rest
    ensures Matches(pre + CommentOpen + ws + w + rest + CommentClose + post, w)
    ensures Sub(pre + CommentOpen + ws + w + rest + CommentClose + post, w, 0) == pre + Script + post
  {
    var u := pre + CommentOpen + ws + w + rest + CommentClose;
    var c := u + post;
    WrittenCommentAt(pre, ws, w, rest, post);
    assert c[..|pre|] == pre && c[|u|..] == post;
    NoOpenerBefore(c, |pre|);
    NoOpenerAfter(c, |u|);
    SubSingle(c, w, |pre|, |u|);
  }

  /** A page whose only comment opener starts one match: `re.sub` replaces that match and nothing else. */
  lemma SubSingle(c: string, w: string, s: nat, e: nat)
    requires s <= e <= |c| && CommentAt(c, w, s) == Some(e)
    requires forall i :: 0 <= i < s ==> !OccursAt(c, CommentOpen, i)
    requires forall i :: e <= i ==> !OccursAt(c, CommentOpen, i)
    ensures NextComment(c, w, 0) == Some(Hit(s, e))
    ensures Sub(c, w, 0) == c[..s] + Script + c[e..]
  {
    NoOpenerNoComment(c, w, 0, s);
    NoOpenerNoComment(c, w, e, |c| + 1);
    NextCommentSkip(c, w, 0, s);
    NextCommentSkip(c, w, e, |c| + 1);
    assert c[0..s] == c[..s];
  }

  /** Where no comment opener starts, no placeholder starts. */
  lemma NoOpenerNoComment(c: string, w: string, k: nat, m: nat)
    requires forall i :: k <= i < m ==> !OccursAt(c, CommentOpen, i)
    ensures forall i :: k <= i < m ==> CommentAt(c, w, i).None?
  {
  }

  /** Where no placeholder starts, the search moves on. */
  lemma NextCommentSkip(c: string, w: string, k: nat, m: nat)
    requires k <= m <= |c| + 1
    requires forall i :: k <= i < m ==> CommentAt(c, w, i).None?
    decreases m - k
    ensures NextComment(c, w, k) == NextComment(c, w, m)
  {
    if k < m {
      NextCommentStep(c, w, k);
      NextCommentSkip(c, w, k + 1, m);
    }
  }

  lemma NextCommentStep(c: string, w: string, k: nat)
    requires k <= |c| && CommentAt(c, w, k).None?
    ensures NextComment(c, w, k) == NextComment(c, w, k + 1)
  {
  }

  /** No comment opener starts before an opener at `n` when the text before `n` holds none. */
  lemma NoOpenerBefore(c: string, n: nat)
    requires OccursAt(c, CommentOpen, n) && !Contains(c[..n], CommentOpen)
    ensures forall i :: 0 <= i < n ==> !OccursAt(c, CommentOpen, i)
  {
    forall i | 0 <= i < n
      ensures !OccursAt(c, CommentOpen, i)
    {
      if i + |CommentOpen| <= n {
        assert c[i..i + |CommentOpen|] == c[..n][i..i + |CommentOpen|];
        assert !OccursAt(c[..n], CommentOpen, i);
      } else {
        assert c[n] == CommentOpen[0] && CommentOpen[n - i] != '<';
        assert c[i..i + |CommentOpen|][n - i] == c[n];
      }
    }
  }

  /** No comment opener starts in a tail without one. */
  lemma NoOpenerAfter(c: string, m: nat)
    requires m <= |c| && !Contains(c[m..], CommentOpen)
    ensures forall i :: m <= i ==> !OccursAt(c, CommentOpen, i)
  {
    forall i | m <= i
      ensures !OccursAt(c, CommentOpen, i)
    {
      if i + |CommentOpen| <= |c| {
        assert c[i..i + |CommentOpen|] == c[m..][i - m..i - m + |CommentOpen|];
        assert !OccursAt(c[m..], CommentOpen, i - m);
      }
    }
  }

  /** The written comment matches where it starts and ends right after its `-->`. */
  lemma WrittenCommentAt(pre: string, ws: string, w: string, rest: string, post: string)
    requires AllSpace(ws) && |w| > 0 && !IsSpace(w[0]) && '>' !in rest
    ensures var u := pre + CommentOpen + ws + w + rest + CommentClose;
      OccursAt(u + post, CommentOpen, |pre|) && CommentAt(u + post, w, |pre|) == Some(|u|)
  {
    WrittenWord(pre, ws, w, rest, post);
    WrittenClose(pre, ws, w, rest, post);
  }

  /** In the written comment, `\s*` ends at the word. */
  lemma WrittenWord(pre: string, ws: string, w: string, rest: string, post: string)
    requires AllSpace(ws) && |w| > 0 && !IsSpace(w[0])
    ensures var c := pre + CommentOpen + ws + w + rest + CommentClose + post;
      var k := |pre| + |CommentOpen|;
      OccursAt(c, CommentOpen, |pre|) && SkipSpace(c, k) == k + |ws| && OccursAt(c, w, k + |ws|)
  {
    var c := pre + CommentOpen + ws + w + rest + CommentClose + post;
    var k := |pre| + |CommentOpen|;
    var j := k + |ws|;
    assert c[|pre|..k] == CommentOpen;
    assert c[k..j] == ws;
    assert c[j] == w[0];
    SkipSpaceIs(c, k, j);
    assert c[j..j + |w|] == w;
  }

  /** In the written comment, `[^>]*-->` after the word ends at the `>` of the `-->`. */
  lemma WrittenClose(pre: string, ws: string, w: string, rest: string, post: string)
    requires '>' !in rest
    ensures var c := pre + CommentOpen + ws + w + rest + CommentClose + post;
      var lo := |pre| + |CommentOpen| + |ws| + |w|;
      var e := lo + |rest| + 2;
      e < |c| && TagLimit(c, lo) == e && c[e - 2..e + 1] == CommentClose
  {
    var c := pre + CommentOpen + ws + w + rest + CommentClose + post;
    var lo := |pre| + |CommentOpen| + |ws| + |w|;
    var e := lo + |rest| + 2;
    assert c[lo..lo + |rest|] == rest;
    assert c[lo + |rest|..e + 1] == CommentClose;
    forall x | lo <= x < e
      ensures c[x] != '>'
    {
      if x < lo + |rest| {
        assert c[x] == rest[x - lo];
      } else {
        assert c[x] == CommentClose[x - lo - |rest|];
      }
    }
    TagLimitIs(c, lo, e);
  }

  /**
   * A page with one written-out `Analytics` placeholder and no other
   * comment opener: the comment is replaced by the script, once, and the
   * change is reported.
   */
  lemma PlaceholderWrittenOut(pre: string, ws: string, rest: string, post: string)
    requires !Contains(pre, CommentOpen) && !Contains(post, CommentOpen)
    requires AllSpace(ws) && '>' !in rest
    ensures ProcessHtml(pre + CommentOpen + ws + "Analytics" + rest + CommentClose + post)
      == Outcome(pre + Script + post, true)
  {
    var w := Placeholders[0];
    var c := pre + CommentOpen + ws + w + rest + CommentClose + post;
    assert !IsSpace(w[0]);
    SubWrittenComment(pre, ws, w, rest, post);
    PlaceholderReplaced(c);
  }

  /** The script holds no `!` and no `b`, and it starts with `<` and ends with `>`. */
  lemma ScriptChars()
    ensures '!' !in Script && 'b' !in Script && Script[0] == '<' && Script[|Script| - 1] == '>'
  {
    OpenCloseChars();
    CounterChars();
    SourceChars();
    assert Script[0] == ScriptOpen[0];
    assert Script[|Script| - 1] == ScriptClose[|ScriptClose| - 1];
  }

  lemma OpenCloseChars()
    ensures '!' !in ScriptOpen && 'b' !in ScriptOpen && '!' !in ScriptClose && 'b' !in ScriptClose
  {
  }

  lemma CounterChars()
    ensures '!' !in CounterAttr && 'b' !in CounterAttr
  {
    CounterKeyChars();
    CounterSchemeChars();
    CounterHostChars();
    CounterDomainChars();
    CounterPathChars();
  }

  lemma CounterKeyChars() ensures '!' !in CounterKey && 'b' !in CounterKey {}
  lemma CounterSchemeChars() ensures '!' !in CounterScheme && 'b' !in CounterScheme {}
  lemma CounterHostChars() ensures '!' !in CounterHost && 'b' !in CounterHost {}
  lemma CounterDomainChars() ensures '!' !in CounterDomain && 'b' !in CounterDomain {}
  lemma CounterPathChars() ensures '!' !in CounterPath && 'b' !in CounterPath {}

  lemma SourceChars()
    ensures '!' !in SourceAttr && 'b' !in SourceAttr
  {
    SourceKeyChars();
    SourceHostChars();
    SourcePathChars();
  }

  lemma SourceKeyChars() ensures '!' !in SourceKey && 'b' !in SourceKey {}
  lemma SourceHostChars() ensures '!' !in SourceHost && 'b' !in SourceHost {}
  lemma SourcePathChars() ensures '!' !in SourcePath && 'b' !in SourcePath {}

  lemma ScriptLineFacts()
    ensures var x := Script + "\n"; |x| > 0 && x[0] !in BodyEnd[1..] && !Contains(x, BodyEnd)
  {
    BodyEndHeadUnique();
    ScriptChars();
    var x := Script + "\n";
    assert 'b' !in x;
    assert BodyEnd[2] == 'b';
    MissingCharNoOccurrence(x, BodyEnd, 2);
  }

  /**
   * Without a placeholder, the script and a line break go before every
   * `</body>`: the page grows, the flag is raised, and removing what was
   * inserted gives the page back.
   */
  lemma InsertedBeforeBody(c: string)
    requires SelectPattern(c, Placeholders).None? && Contains(c, BodyEnd)
    ensures ProcessHtml(c).changed && |ProcessHtml(c).content| > |c|
    ensures ReplaceAll(ProcessHtml(c).content, Script + "\n" + BodyEnd, BodyEnd) == c
  {
    ScriptLineFacts();
    InsertBeforeGrows(c, BodyEnd, Script + "\n");
    InsertBeforeRoundTrip(c, BodyEnd, Script + "\n");
  }

  /** Without a placeholder and without `</body>` the page is left alone and the flag is down. */
  lemma NothingToDo(c: string)
    requires SelectPattern(c, Placeholders).None? && !Contains(c, BodyEnd)
    ensures ProcessHtml(c) == Outcome(c, false)
  {
  }

  /** A page with no comment opener at all has no placeholder. */
  lemma NoCommentNoPlaceholder(c: string, ws: seq<string>)
    requires !Contains(c, CommentOpen)
    ensures SelectPattern(c, ws).None?
  {
    forall l | 0 <= l < |ws|
      ensures !Matches(c, ws[l])
    {
      NoCommentNoMatch(c, ws[l]);
    }
  }

  lemma NoCommentNoMatch(c: string, w: string)
    requires !Contains(c, CommentOpen)
    ensures !Matches(c, w)
  {
  }

  /**
   * The third pattern is never the one used: a comment that matches it,
   * `Analytics placeholder` and all, matches the first pattern too, and at
   * the same place with the same end.
   */
  lemma ThirdPatternShadowed(c: string)
    ensures Matches(c, Placeholders[2]) ==> Matches(c, Placeholders[0])
    ensures SelectPattern(c, Placeholders) != Some(2)
  {
    if Matches(c, Placeholders[2]) {
      var h := NextComment(c, Placeholders[2], 0).value;
      LongWordShadowed(c, h.start);
      assert CommentAt(c, Placeholders[0], h.start).Some?;
    }
  }

  /** Where the long word matches, the short word it starts with matches with the same end. */
  lemma LongWordShadowed(c: string, i: nat)
    requires CommentAt(c, Placeholders[2], i).Some?
    ensures CommentAt(c, Placeholders[0], i) == CommentAt(c, Placeholders[2], i)
  {
    var long := Placeholders[2];
    var short := Placeholders[0];
    var j := SkipSpace(c, i + |CommentOpen|);
    assert OccursAt(c, long, j);
    assert c[j..j + |long|] == long;
    assert long[..|short|] == short;
    SliceOfSlice(c, j, j + |long|, 0, |short|);
    assert c[j..j + |long|][..|short|] == c[j..j + |long|][0..|short|];
    assert c[j..j + |short|] == short;
    assert OccursAt(c, short, j);
    forall x | j + |short| <= x < j + |long|
      ensures c[x] != '>'
    {
      assert c[x] == long[x - j];
      LongWordNoClose(x - j);
    }
    TagLimitSkip(c, j + |short|, j + |long|);
    var e := TagLimit(c, j + |long|);
    assert CommentAt(c, long, i) == CloseAt(c, j + |long|, e);
    CloseAtEarlier(c, j + |short|, j + |long|, e);
    assert CommentAt(c, short, i) == CloseAt(c, j + |short|, e);
  }

  /** A comment end that suits a later start suits an earlier one. */
  lemma CloseAtEarlier(c: string, lo: nat, hi: nat, e: nat)
    requires lo <= hi <= e <= |c| && CloseAt(c, hi, e).Some?
    ensures CloseAt(c, lo, e) == CloseAt(c, hi, e)
  {
  }

  lemma LongWordNoClose(x: nat)
    requires x < |Placeholders[2]|
    ensures Placeholders[2][x] != '>'
  {
  }

  /** `[^>]*` from `k` stops at the first `>`. */
  lemma TagLimitIs(s: string, k: nat, e: nat)
    requires k <= e < |s| && s[e] == '>'
    requires forall x :: k <= x < e ==> s[x] != '>'
    ensures TagLimit(s, k) == e
  {
  }

  /** `[^>]*` started at `k` or at `m` stops at the same place when no `>` lies between. */
  lemma TagLimitSkip(s: string, k: nat, m: nat)
    requires k <= m <= |s|
    requires forall x :: k <= x < m ==> s[x] != '>'
    ensures TagLimit(s, k) == TagLimit(s, m)
  {
    assert TagLimit(s, k) >= m;
  }

  /**
   * The step is not idempotent: on a page with `</body>` and no comment, a
   * second run inserts the script once more and reports a change again.
   */
  lemma RerunInsertsAgain(c: string)
    requires !Contains(c, CommentOpen) && Contains(c, BodyEnd)
    ensures ProcessHtml(ProcessHtml(c).content).changed
    ensures |ProcessHtml(ProcessHtml(c).content).content| > |ProcessHtml(c).content|
  {
    NoCommentNoPlaceholder(c, Placeholders);
    var r := Script + "\n" + BodyEnd;
    var d := ProcessHtml(c).content;
    assert d == ReplaceAll(c, BodyEnd, r);
    RerunFacts(c, r);
    NoCommentNoPlaceholder(d, Placeholders);
    InsertedBeforeBody(d);
  }

  lemma RerunFacts(c: string, r: string)
    requires r == Script + "\n" + BodyEnd
    requires !Contains(c, CommentOpen) && Contains(c, BodyEnd)
    ensures !Contains(ReplaceAll(c, BodyEnd, r), CommentOpen) && Contains(ReplaceAll(c, BodyEnd, r), BodyEnd)
  {
    ScriptChars();
    assert r[0] == '<' && r[|r| - 1] == '>';
    assert CommentOpen[1..] == "!--" && CommentOpen[..|CommentOpen| - 1] == "<!-";
    assert '!' !in r;
    MissingCharNoOccurrence(r, CommentOpen, 1);
    ReplaceAllKeepsAbsent(c, BodyEnd, r, CommentOpen);
    OccursAfterPrefix(Script + "\n", BodyEnd, []);
    assert r + [] == r;
    ReplacementContentPresent(c, BodyEnd, r, BodyEnd);
  }
}
