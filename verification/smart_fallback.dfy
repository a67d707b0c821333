/**
 * The deterministic fallbacks used when the AI rewrite of a bullet is not
 * available: keyword injection into a sentence template, keyword append in
 * parentheses, a keyword ranking, and the cascade that tries the AI and then
 * these strategies in turn.
 */
module SmartFallback {
  import opened Wrappers
  import opened PyStr

  // ---------------------------------------------------------------- greedy keyword selection

  /** `a` is `b` with some elements left out. */
  predicate SubseqOf(a: seq<Str>, b: seq<Str>)
    decreases |b|
  {
    if a == [] then true
    else if b == [] then false
    else (a[0] == b[0] && SubseqOf(a[1..], b[1..])) || SubseqOf(a, b[1..])
  }

  /** The estimated cost of adding `kws`: each keyword's length plus a fixed overhead. */
  function Cost(kws: seq<Str>, overhead: int): int {
    if kws == [] then 0 else |kws[0]| + overhead + Cost(kws[1..], overhead)
  }

  /**
   * The greedy loop shared by both fallbacks: keywords are taken in order,
   * each when `current + len(kw) + overhead < limit`, which then grows
   * `current`; a keyword that does not fit is skipped and later ones are
   * still tried.
   */
  function Select(kws: seq<Str>, current: int, limit: int, overhead: int): seq<Str>
    decreases |kws|
  {
    if kws == [] then []
    else if current + |kws[0]| + overhead < limit then [kws[0]] + Select(kws[1..], current + |kws[0]| + overhead, limit, overhead)
    else Select(kws[1..], current, limit, overhead)
  }

  /**
   * What the greedy selection promises: the chosen keywords keep their input
   * order, their estimated cost stays strictly inside the budget, and nothing
   * is chosen exactly when no keyword fits on its own.
   */
  lemma {:induction false} SelectFacts(kws: seq<Str>, current: int, limit: int, overhead: int)
    ensures var r := Select(kws, current, limit, overhead);
      && SubseqOf(r, kws)
      && (r != [] ==> current + Cost(r, overhead) < limit)
      && (r == [] <==> forall k :: 0 <= k < |kws| ==> current + |kws[k]| + overhead >= limit)
    decreases |kws|
  {
    if kws != [] {
      var fits := current + |kws[0]| + overhead < limit;
      var next := if fits then current + |kws[0]| + overhead else current;
      SelectFacts(kws[1..], next, limit, overhead);
      var r := Select(kws, current, limit, overhead);
      var rest := Select(kws[1..], next, limit, overhead);
      if fits {
        assert r == [kws[0]] + rest && r[1..] == rest;
      } else {
        assert r == rest;
        if rest != [] {
          assert SubseqOf(r, kws[1..]);
        }
        forall k | 0 <= k < |kws| && rest == []
          ensures current + |kws[k]| + overhead >= limit
        {
          if k > 0 {
            assert kws[k] == kws[1..][k - 1];
          }
        }
        if exists k :: 0 <= k < |kws[1..]| && current + |kws[1..][k]| + overhead < limit {
          var k :| 0 <= k < |kws[1..]| && current + |kws[1..][k]| + overhead < limit;
          assert kws[1..][k] == kws[k + 1];
        }
      }
    }
  }

  lemma {:induction false} CostTotal(kws: seq<Str>, overhead: int)
    ensures Cost(kws, overhead) == TotalLength(kws) + overhead * |kws|
    decreases |kws|
  {
    if kws != [] {
      CostTotal(kws[1..], overhead);
    }
  }

  /** The literal pieces of the two templates. */
  const COMMA_SEP: Str := [0x2C, SPACE]
  const USING: Str := Lit(" using ")
  const WITH: Str := Lit(" with ")
  const OPEN_PAREN: Str := [SPACE, 0x28]
  const CLOSE: Str := [0x29, PERIOD]

  /** One step of the greedy loop at position `i`. */
  lemma SelectStep(kws: seq<Str>, i: nat, current: int, limit: int, overhead: int)
    requires i < |kws|
    ensures Select(kws[i..], current, limit, overhead) ==
      if current + |kws[i]| + overhead < limit then [kws[i]] + Select(kws[i + 1..], current + |kws[i]| + overhead, limit, overhead)
      else Select(kws[i + 1..], current, limit, overhead)
  {
    assert kws[i..][0] == kws[i] && kws[i..][1..] == kws[i + 1..];
  }

  /** The greedy loop itself, as the source runs it. */
  method GreedySelect(kws: seq<Str>, start: int, limit: int, overhead: int) returns (selected: seq<Str>)
    ensures selected == Select(kws, start, limit, overhead)
  {
    selected := [];
    var current := start;
    var i := 0;
    while i < |kws|
      invariant 0 <= i <= |kws|
      invariant selected + Select(kws[i..], current, limit, overhead) == Select(kws, start, limit, overhead)
    {
      SelectStep(kws, i, current, limit, overhead);
      if current + |kws[i]| + overhead < limit {
        assert (selected + [kws[i]]) + Select(kws[i + 1..], current + |kws[i]| + overhead, limit, overhead)
          == selected + ([kws[i]] + Select(kws[i + 1..], current + |kws[i]| + overhead, limit, overhead));
        selected := selected + [kws[i]];
        current := current + |kws[i]| + overhead;
      }
      i := i + 1;
    }
    assert kws[i..] == [];
  }

  // ---------------------------------------------------------------- template_based_rewrite

  /** The keywords `template_based_rewrite` injects. */
  function TemplateKeywords(bullet: Str, keywords: seq<Str>, maxLength: int): seq<Str> {
    Select(keywords, |bullet|, maxLength, 8)
  }

  /** The sentence built from the bullet's words and the chosen keywords, before the length guard. */
  function TemplateSentence(words: seq<Str>, selected: seq<Str>): Str
    requires words != []
  {
    var rest := if |words| > 1 then Join([SPACE], words[1..]) else [];
    if rest != [] then words[0] + [SPACE] + rest + USING + Join(COMMA_SEP, selected)
    else words[0] + WITH + Join(COMMA_SEP, selected)
  }

  /** `template_based_rewrite`, as a value. */
  function TemplateRewrite(bullet: Str, keywords: seq<Str>, maxLength: int): Str {
    if Strip(bullet) == [] then bullet
    else
      var words := Split(bullet);
      var selected := TemplateKeywords(bullet, keywords, maxLength);
      if selected == [] || words == [] then bullet
      else
        var enhanced := TemplateSentence(words, selected);
        if |enhanced| > maxLength then RSplitHead(SliceTo(enhanced, maxLength)) else enhanced
  }

  /** `template_based_rewrite`: the greedy loop over the keywords, then the template. */
  method TemplateBasedRewrite(bullet: Str, keywords: seq<Str>, maxLength: int) returns (enhanced: Str)
    ensures enhanced == TemplateRewrite(bullet, keywords, maxLength)
  {
    if Strip(bullet) == [] {
      return bullet;
    }
    var words := Split(bullet);
    var actionVerb: Str := if words != [] then words[0] else [];
    var restOfBullet: Str := if |words| > 1 then Join([SPACE], words[1..]) else [];
    var selected := GreedySelect(keywords, |bullet|, maxLength, 8);
    assert selected == TemplateKeywords(bullet, keywords, maxLength);
    if selected == [] {
      return bullet;
    }
    SplitEmpty(bullet);
    var keywordsPart := Join(COMMA_SEP, selected);
    if restOfBullet != [] {
      enhanced := actionVerb + [SPACE] + restOfBullet + USING + keywordsPart;
    } else {
      enhanced := actionVerb + WITH + keywordsPart;
    }
    if |enhanced| > maxLength {
      enhanced := RSplitHead(SliceTo(enhanced, maxLength));
    }
  }

  /** `' '.join(words)` is the first word, a space and the rest joined. */
  lemma JoinFirst(words: seq<Str>)
    requires |words| > 1
    ensures Join([SPACE], words) == words[0] + [SPACE] + Join([SPACE], words[1..])
  {
  }

  /**
   * What the template promises: a blank bullet, or one for which no keyword
   * fits, comes back unchanged; otherwise the result is the bullet's words,
   * single-spaced, followed by " using " (or, for a one-word bullet,
   * " with ") and the chosen keywords, and it is shorter than `max_length`,
   * so the final truncation never fires.
   */
  lemma TemplateRewriteShape(bullet: Str, keywords: seq<Str>, maxLength: int)
    ensures var r := TemplateRewrite(bullet, keywords, maxLength);
      var selected := TemplateKeywords(bullet, keywords, maxLength);
      && (Strip(bullet) == [] || selected == [] ==> r == bullet)
      && (Strip(bullet) != [] && selected != [] ==>
            && |r| < maxLength
            && (|Split(bullet)| > 1 ==> r == Join([SPACE], Split(bullet)) + USING + Join(COMMA_SEP, selected))
            && (|Split(bullet)| == 1 ==> r == Split(bullet)[0] + WITH + Join(COMMA_SEP, selected)))
  {
    var selected := TemplateKeywords(bullet, keywords, maxLength);
    if Strip(bullet) != [] && selected != [] {
      SelectFacts(keywords, |bullet|, maxLength, 8);
      SplitEmpty(bullet);
      SplitWords(bullet);
      JoinSplitLength(bullet);
      TemplateSentenceShape(Split(bullet), selected, |bullet|, maxLength);
    }
  }

  /** The sentence arithmetic: the template adds at most `len(kw) + 8` per keyword. */
  lemma TemplateSentenceShape(words: seq<Str>, selected: seq<Str>, bulletLength: nat, maxLength: int)
    requires words != [] && AllWords(words) && selected != []
    requires |Join([SPACE], words)| <= bulletLength
    requires bulletLength + Cost(selected, 8) < maxLength
    ensures |TemplateSentence(words, selected)| < maxLength
    ensures |words| > 1 ==> TemplateSentence(words, selected) == Join([SPACE], words) + USING + Join(COMMA_SEP, selected)
    ensures |words| == 1 ==> TemplateSentence(words, selected) == words[0] + WITH + Join(COMMA_SEP, selected)
  {
    CostTotal(selected, 8);
    var kp := Join(COMMA_SEP, selected);
    assert |kp| == TotalLength(selected) + (|selected| - 1) * 2;
    if |words| > 1 {
      JoinFirst(words);
      assert |Join([SPACE], words[1..])| >= |words[1]| > 0;
      assert TemplateSentence(words, selected) == Join([SPACE], words) + USING + kp;
    } else {
      assert Join([SPACE], words) == words[0];
    }
  }

  // ---------------------------------------------------------------- simple_keyword_append

  /** `bullet.rstrip('.').strip()`. */
  function CleanBullet(bullet: Str): Str {
    Strip(RStripChar(bullet, PERIOD))
  }

  /** The keywords `simple_keyword_append` adds, leaving room for the final period. */
  function AppendKeywords(bullet: Str, keywords: seq<Str>, maxLength: int): seq<Str> {
    Select(keywords, |CleanBullet(bullet)|, maxLength - 1, 3)
  }

  /** `simple_keyword_append`, as a value. */
  function KeywordAppend(bullet: Str, keywords: seq<Str>, maxLength: int): Str {
    if Strip(bullet) == [] then bullet
    else
      var selected := AppendKeywords(bullet, keywords, maxLength);
      if selected == [] then bullet
      else CleanBullet(bullet) + OPEN_PAREN + Join(COMMA_SEP, selected) + CLOSE
  }

  /** `simple_keyword_append`: the greedy loop over the keywords, then the parenthesised list. */
  method SimpleKeywordAppend(bullet: Str, keywords: seq<Str>, maxLength: int) returns (enhanced: Str)
    ensures enhanced == KeywordAppend(bullet, keywords, maxLength)
  {
    if Strip(bullet) == [] {
      return bullet;
    }
    var cleanBullet := Strip(RStripChar(bullet, PERIOD));
    var keywordsToAdd := GreedySelect(keywords, |cleanBullet|, maxLength - 1, 3);
    assert cleanBullet == CleanBullet(bullet) && keywordsToAdd == AppendKeywords(bullet, keywords, maxLength);
    if keywordsToAdd == [] {
      return bullet;
    }
    enhanced := cleanBullet + OPEN_PAREN + Join(COMMA_SEP, keywordsToAdd) + CLOSE;
  }

  /**
   * What the append promises: a blank bullet, or one for which no keyword
   * fits, comes back unchanged; otherwise the result is the cleaned bullet
   * followed by " (k1, k2).", it ends in ").", and it is shorter than
   * `max_length`.
   */
  lemma KeywordAppendShape(bullet: Str, keywords: seq<Str>, maxLength: int)
    ensures var r := KeywordAppend(bullet, keywords, maxLength);
      var selected := AppendKeywords(bullet, keywords, maxLength);
      && (Strip(bullet) == [] || selected == [] ==> r == bullet)
      && (Strip(bullet) != [] && selected != [] ==>
            && |r| < maxLength
            && |r| >= 2 && r[|r| - 2..] == CLOSE
            && r[..|CleanBullet(bullet)|] == CleanBullet(bullet))
  {
    var selected := AppendKeywords(bullet, keywords, maxLength);
    if Strip(bullet) != [] && selected != [] {
      SelectFacts(keywords, |CleanBullet(bullet)|, maxLength - 1, 3);
      AppendSentenceShape(CleanBullet(bullet), selected, maxLength);
    }
  }

  /** The budget arithmetic of the append: " (", the list and ")." fit below `max_length`. */
  lemma AppendSentenceShape(clean: Str, selected: seq<Str>, maxLength: int)
    requires selected != [] && |clean| + Cost(selected, 3) < maxLength - 1
    ensures var r := clean + OPEN_PAREN + Join(COMMA_SEP, selected) + CLOSE;
      |r| < maxLength && r[|r| - 2..] == CLOSE && r[..|clean|] == clean
  {
    CostTotal(selected, 3);
    var kp := Join(COMMA_SEP, selected);
    var r := clean + OPEN_PAREN + kp + CLOSE;
    assert r == (clean + OPEN_PAREN + kp) + CLOSE;
  }

  // ---------------------------------------------------------------- smart_keyword_selection

  /** A keyword already present: its lower-case form is that of an extracted word. */
  predicate AlreadyPresent(kw: Str, existing: set<Str>) {
    exists e :: e in existing && Lower(e) == Lower(kw)
  }

  /** The keywords not already present, in their original order. */
  function NewKeywords(kws: seq<Str>, existing: set<Str>): (r: seq<Str>)
    ensures SubseqOf(r, kws)
    ensures forall k :: 0 <= k < |r| ==> !AlreadyPresent(r[k], existing)
    ensures forall k :: 0 <= k < |kws| && !AlreadyPresent(kws[k], existing) ==> kws[k] in r
    ensures forall x :: multiset(r)[x] == if AlreadyPresent(x, existing) then 0 else multiset(kws)[x]
    decreases |kws|
  {
    if kws == [] then []
    else
    assert multiset(kws) == multiset{kws[0]} + multiset(kws[1..]) by { assert kws == [kws[0]] + kws[1..]; }
    if AlreadyPresent(kws[0], existing) then NewKeywords(kws[1..], existing)
    else [kws[0]] + NewKeywords(kws[1..], existing)
  }

  /** `s` is ordered by length. */
  predicate SortedByLength(s: seq<Str>) {
    forall i, j :: 0 <= i < j < |s| ==> |s[i]| <= |s[j]|
  }

  /** `x` placed before the first element at least as long as it. */
  function InsertByLength(x: Str, s: seq<Str>): (r: seq<Str>)
    ensures multiset(r) == multiset(s) + multiset{x}
    decreases |s|
  {
    if s == [] || |x| <= |s[0]| then [x] + s
    else
      assert s == [s[0]] + s[1..];
      [s[0]] + InsertByLength(x, s[1..])
  }

  /** Python's stable `list.sort(key=len)`, as a value. */
  function SortByLength(s: seq<Str>): (r: seq<Str>)
    ensures multiset(r) == multiset(s)
    ensures SortedByLength(r)
    decreases |s|
  {
    if s == [] then []
    else
      assert s == [s[0]] + s[1..];
      InsertSorted(s[0], SortByLength(s[1..]));
      InsertByLength(s[0], SortByLength(s[1..]))
  }

  lemma {:induction false} InsertSorted(x: Str, s: seq<Str>)
    requires SortedByLength(s)
    ensures SortedByLength(InsertByLength(x, s))
    decreases |s|
  {
    if s != [] && |x| > |s[0]| {
      InsertSorted(x, s[1..]);
      var r := InsertByLength(x, s);
      forall j | 0 < j < |r| ensures |r[0]| <= |r[j]| {
        assert r[j] in multiset(s[1..]) + multiset{x};
        if r[j] != x {
          var k :| 0 <= k < |s[1..]| && s[1..][k] == r[j];
          assert s[1..][k] == s[k + 1];
        }
      }
    }
  }

  /** The elements of `s` of length `n`, in order. */
  function OfLength(s: seq<Str>, n: nat): seq<Str> {
    if s == [] then [] else (if |s[0]| == n then [s[0]] else []) + OfLength(s[1..], n)
  }

  lemma {:induction false} InsertOfLength(x: Str, s: seq<Str>, n: nat)
    ensures OfLength(InsertByLength(x, s), n) == if |x| == n then [x] + OfLength(s, n) else OfLength(s, n)
    decreases |s|
  {
    if s == [] || |x| <= |s[0]| {
      assert ([x] + s)[1..] == s;
    } else {
      InsertOfLength(x, s[1..], n);
      assert ([s[0]] + InsertByLength(x, s[1..]))[1..] == InsertByLength(x, s[1..]);
    }
  }

  /** The sort is stable: keywords of equal length keep their relative order. */
  lemma {:induction false} SortStable(s: seq<Str>, n: nat)
    ensures OfLength(SortByLength(s), n) == OfLength(s, n)
    decreases |s|
  {
    if s != [] {
      SortStable(s[1..], n);
      InsertOfLength(s[0], SortByLength(s[1..]), n);
    }
  }

  /**
   * `smart_keyword_selection`, with the keyword extractor given as the set
   * of words it finds in the bullet: drop the keywords already present,
   * stable-sort the rest by length and keep the first `max_count`; when no
   * keyword is new, the first `max_count` keywords as given.
   */
  function SmartKeywordSelection(allKeywords: seq<Str>, existing: set<Str>, maxCount: int): seq<Str> {
    var newKeywords := NewKeywords(allKeywords, existing);
    if newKeywords == [] then SliceTo(allKeywords, maxCount)
    else SliceTo(SortByLength(newKeywords), maxCount)
  }

  /**
   * What the selection promises: at most `max_count` keywords (for a
   * non-negative count), every one drawn from the input. When some keyword
   * is new, only new keywords are chosen, as many as `max_count` allows,
   * and none left out is shorter than one chosen.
   */
  lemma SmartKeywordSelectionShape(allKeywords: seq<Str>, existing: set<Str>, maxCount: int)
    ensures var r := SmartKeywordSelection(allKeywords, existing, maxCount);
      var nk := NewKeywords(allKeywords, existing);
      && (maxCount >= 0 ==> |r| <= maxCount)
      && (forall k :: 0 <= k < |r| ==> r[k] in allKeywords)
      && (nk != [] ==>
            SortedByLength(r) && forall k :: 0 <= k < |r| ==> !AlreadyPresent(r[k], existing))
      && (nk != [] && maxCount >= 0 ==> |r| == if maxCount < |nk| then maxCount else |nk|)
      && (nk != [] ==> multiset(r) <= multiset(nk))
      && (nk != [] ==> forall x, y :: x in multiset(r) && y in multiset(nk) - multiset(r) ==> |x| <= |y|)
      && (nk == [] ==> r == SliceTo(allKeywords, maxCount))
  {
    var nk := NewKeywords(allKeywords, existing);
    if nk != [] {
      var sorted := SortByLength(nk);
      var r := SliceTo(sorted, maxCount);
      assert r == SmartKeywordSelection(allKeywords, existing, maxCount);
      NewSelection(allKeywords, existing, nk, sorted, r);
    }
  }

  /** The selection when some keyword is new: a shortest-first prefix of the new keywords. */
  lemma NewSelection(allKeywords: seq<Str>, existing: set<Str>, nk: seq<Str>, sorted: seq<Str>, r: seq<Str>)
    requires nk == NewKeywords(allKeywords, existing) && sorted == SortByLength(nk)
    requires |r| <= |sorted| && r == sorted[..|r|]
    ensures SortedByLength(r)
    ensures forall k :: 0 <= k < |r| ==> r[k] in allKeywords && !AlreadyPresent(r[k], existing)
    ensures multiset(r) <= multiset(nk)
    ensures forall x, y :: x in multiset(r) && y in multiset(nk) - multiset(r) ==> |x| <= |y|
  {
    PrefixShortest(sorted, |r|);
    forall k | 0 <= k < |r| ensures r[k] in allKeywords && !AlreadyPresent(r[k], existing) {
      assert r[k] == sorted[k];
      assert r[k] in multiset(sorted);
      assert r[k] in multiset(nk);
      SubseqMembers(nk, allKeywords, r[k]);
    }
  }

  /** A prefix of a list sorted by length holds its shortest elements. */
  lemma PrefixShortest(s: seq<Str>, n: nat)
    requires SortedByLength(s) && n <= |s|
    ensures multiset(s[..n]) <= multiset(s)
    ensures forall x, y :: x in multiset(s[..n]) && y in multiset(s) - multiset(s[..n]) ==> |x| <= |y|
  {
    var pre, post := s[..n], s[n..];
    assert s == pre + post;
    assert multiset(s) - multiset(pre) == multiset(post);
    SortedSplit(s, pre, post);
  }

  lemma SortedSplit(s: seq<Str>, pre: seq<Str>, post: seq<Str>)
    requires SortedByLength(s) && s == pre + post
    ensures forall x, y :: x in pre && y in post ==> |x| <= |y|
  {
    forall x, y | x in pre && y in post
      ensures |x| <= |y|
    {
      var i :| 0 <= i < |pre| && pre[i] == x;
      var j :| 0 <= j < |post| && post[j] == y;
      assert s[i] == x && s[|pre| + j] == y;
    }
  }

  lemma {:induction false} SubseqMembers(a: seq<Str>, b: seq<Str>, x: Str)
    requires SubseqOf(a, b) && x in a
    ensures x in b
    decreases |b|
  {
    if a[0] == b[0] && SubseqOf(a[1..], b[1..]) {
      if x != a[0] {
        SubseqMembers(a[1..], b[1..], x);
      }
    } else {
      SubseqMembers(a, b[1..], x);
    }
  }

  // ---------------------------------------------------------------- cascading_fallback

  datatype Strategy = AiFull | AiSmartSubset | Template | Append | Original

  /** An AI rewrite function: it returns the rewritten bullet or raises. */
  type AiRewrite = (Str, seq<Str>, int) -> Result<Str, Str>

  /** An AI result is used when it is a non-empty string different from the bullet. */
  predicate Usable(result: Result<Str, Str>, bullet: Str) {
    result.Ok? && result.value != [] && result.value != bullet
  }

  /**
   * `cascading_fallback`: the first level that yields something different
   * from the bullet wins; an exception at a level moves on to the next.
   */
  function CascadingFallback(bullet: Str, keywords: seq<Str>, maxLength: int,
                             aiRewrite: Option<AiRewrite>, existing: set<Str>): (Str, Strategy)
  {
    if aiRewrite.Some? && keywords != [] && Usable(aiRewrite.value(bullet, keywords, maxLength), bullet) then
      (aiRewrite.value(bullet, keywords, maxLength).value, AiFull)
    else if aiRewrite.Some? && |keywords| > 3
         && Usable(aiRewrite.value(bullet, SmartKeywordSelection(keywords, existing, 3), maxLength), bullet) then
      (aiRewrite.value(bullet, SmartKeywordSelection(keywords, existing, 3), maxLength).value, AiSmartSubset)
    else if TemplateRewrite(bullet, SmartKeywordSelection(keywords, existing, 3), maxLength) != bullet then
      (TemplateRewrite(bullet, SmartKeywordSelection(keywords, existing, 3), maxLength), Template)
    else if KeywordAppend(bullet, SmartKeywordSelection(keywords, existing, 2), maxLength) != bullet then
      (KeywordAppend(bullet, SmartKeywordSelection(keywords, existing, 2), maxLength), Append)
    else
      (bullet, Original)
  }

  /** The strategy is "original" exactly when the result is the bullet itself. */
  lemma OriginalIffUnchanged(bullet: Str, keywords: seq<Str>, maxLength: int,
                             aiRewrite: Option<AiRewrite>, existing: set<Str>)
    ensures var (r, strategy) := CascadingFallback(bullet, keywords, maxLength, aiRewrite, existing);
      strategy == Original <==> r == bullet
  {
  }

  /**
   * The AI levels: the full level needs an AI function and some keyword, the
   * subset level more than three keywords.
   */
  lemma AiLevels(bullet: Str, keywords: seq<Str>, maxLength: int, aiRewrite: Option<AiRewrite>, existing: set<Str>)
    ensures var (_, strategy) := CascadingFallback(bullet, keywords, maxLength, aiRewrite, existing);
      && (strategy == AiSmartSubset ==> |keywords| > 3 && aiRewrite.Some?)
      && (strategy == AiFull ==> keywords != [] && aiRewrite.Some?)
  {
  }

  /**
   * An AI function that raises on both calls the cascade makes is skipped: the result is that of the cascade without it.
   */
  lemma RaisingAiSkipped(bullet: Str, keywords: seq<Str>, maxLength: int, ai: AiRewrite, existing: set<Str>)
    requires ai(bullet, keywords, maxLength).Err?
    requires ai(bullet, SmartKeywordSelection(keywords, existing, 3), maxLength).Err?
    ensures CascadingFallback(bullet, keywords, maxLength, Some(ai), existing)
            == CascadingFallback(bullet, keywords, maxLength, None, existing)
  {
  }

  /**
   * Without an AI function the strategy is template, append or original, and
   * a template or append result is shorter than `max_length`.
   */
  lemma CascadeWithoutAi(bullet: Str, keywords: seq<Str>, maxLength: int, existing: set<Str>)
    ensures var (r, strategy) := CascadingFallback(bullet, keywords, maxLength, None, existing);
      && strategy in {Template, Append, Original}
      && (strategy != Original ==> |r| < maxLength)
  {
    var k3 := SmartKeywordSelection(keywords, existing, 3);
    var k2 := SmartKeywordSelection(keywords, existing, 2);
    TemplateRewriteShape(bullet, k3, maxLength);
    KeywordAppendShape(bullet, k2, maxLength);
  }
}
