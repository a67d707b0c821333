/**
 * The rewrite agent: one bullet rewritten by the language model within a
 * character budget, and a batch of bullets rewritten with the deterministic
 * fallback cascade for the bullets the model could not rewrite.
 *
 * The language model is a function from the prompt to its reply (or to the
 * exception the client raised). The 30-second alarm is a schedule saying, for
 * each bullet and attempt, whether the alarm interrupts that attempt outside
 * the model call; an alarm during the model call is caught by the bullet's own
 * handler like any other exception of the client.
 */
module RewriteAgent {
  import opened Wrappers
  import opened PyStr
  import opened EncodingUtils
  import opened TimeoutUtils
  import opened PartialFailure
  import opened SmartFallback
  import opened LayoutEngine

  // ---------------------------------------------------------------- rewrite_bullet

  /** The style instructions, keyed by style name. */
  const STYLE_PROMPTS: map<Str, Str> := map[
    Lit("bold") := Lit("Use strong action verbs."),
    Lit("creative") := Lit("Use engaging language."),
    Lit("safe") := Lit("Keep it professional.")]

  /** `style_prompts.get(style, style_prompts["safe"])`. */
  function StyleInstruction(style: Str): (instruction: Str)
    ensures style !in STYLE_PROMPTS ==> instruction == Lit("Keep it professional.")
    ensures style in STYLE_PROMPTS ==> instruction == STYLE_PROMPTS[style]
  {
    if style in STYLE_PROMPTS then STYLE_PROMPTS[style] else STYLE_PROMPTS[Lit("safe")]
  }

  /** What the prompt is built from; the wording around these fields is not modelled. */
  datatype Prompt = Prompt(bullet: Str, keywords: seq<Str>, maxLength: int, styleInstruction: Str)

  /** The language model: the reply's content, or the client's exception message. */
  type LanguageModel = Prompt -> Result<Str, Str>

  /** `normalize_whitespace(safe_encode_text(bullet_text))`. */
  function NormalizedBullet(bullet: Str): Str {
    NormalizeWhitespace(SafeEncodeText(bullet))
  }

  /** `rewritten[:max_length].rsplit(' ', 1)[0]` when over the limit, else `rewritten`. */
  function FitToLength(rewritten: Str, maxLength: int): Str {
    if |rewritten| > maxLength then RSplitHead(SliceTo(rewritten, maxLength)) else rewritten
  }

  /** The body of `rewrite_bullet` run to completion. */
  function RewriteBody(bullet: Str, keywords: seq<Str>, maxLength: int, style: Str, model: LanguageModel): Str {
    var normalized := NormalizedBullet(bullet);
    match model(Prompt(normalized, keywords, maxLength, StyleInstruction(style)))
    case Ok(content) => FitToLength(SafeEncodeText(Strip(content)), maxLength)
    case Err(_) => normalized
  }

  /**
   * The truncation keeps a prefix, never exceeds a non-negative limit, leaves
   * a text within the limit alone, and cuts at a space: the result is either
   * the first `max_length` characters when they hold no space, or stops just
   * before the last space among them.
   */
  lemma FitToLengthShape(rewritten: Str, maxLength: int)
    ensures var r := FitToLength(rewritten, maxLength);
      && |r| <= |rewritten| && r == rewritten[..|r|]
      && (maxLength >= 0 ==> |r| <= maxLength)
      && (|rewritten| <= maxLength ==> r == rewritten)
      && (|rewritten| > maxLength >= 0 ==>
            (r == rewritten[..maxLength] && SPACE !in r) || (|r| < maxLength && rewritten[|r|] == SPACE))
      && (|rewritten| > maxLength >= 0 ==> forall j :: |r| < j < maxLength ==> rewritten[j] != SPACE)
  {
    if |rewritten| > maxLength >= 0 {
      var cut := SliceTo(rewritten, maxLength);
      var r := RSplitHead(cut);
      if r == cut {
        assert forall j :: 0 <= j < |cut| ==> cut[j] != SPACE;
      } else {
        var j := LastIndexOf(cut, SPACE).value;
        assert r == cut[..j] && cut[j] == rewritten[j];
      }
    }
  }

  /**
   * What `rewrite_bullet` promises for one completed run: when the model
   * replies, the stripped and encoded reply, cut to fit a non-negative
   * `max_length`; when the model raises, the normalised bullet. The prompt
   * carries the normalised bullet and the style's instruction, the
   * professional one for an unknown style.
   */
  lemma RewriteBodyShape(bullet: Str, keywords: seq<Str>, maxLength: int, style: Str, model: LanguageModel)
    ensures var r := RewriteBody(bullet, keywords, maxLength, style, model);
      var reply := model(Prompt(NormalizedBullet(bullet), keywords, maxLength, StyleInstruction(style)));
      && (reply.Err? ==> r == NormalizedBullet(bullet))
      && (reply.Ok? ==> r == FitToLength(SafeEncodeText(Strip(reply.value)), maxLength))
      && (reply.Ok? && maxLength >= 0 ==> |r| <= maxLength)
      && (reply.Ok? && |Strip(reply.value)| <= maxLength ==> r == SafeEncodeText(Strip(reply.value)))
  {
    var reply := model(Prompt(NormalizedBullet(bullet), keywords, maxLength, StyleInstruction(style)));
    if reply.Ok? {
      FitToLengthShape(SafeEncodeText(Strip(reply.value)), maxLength);
    }
  }

  /**
   * The timeout raised when the alarm interrupts an attempt: the timeout
   * wrapper inside `with_retry` names the function it wraps, `timed_call`.
   */
  function TimeoutMessage(): Str {
    Lit("timed_call exceeded 30s timeout")
  }

  /** The attempts of `rewrite_bullet` under `with_retry(max_attempts=2)`. */
  function RewriteAttempt(bullet: Str, keywords: seq<Str>, maxLength: int, style: Str,
                          model: LanguageModel, alarm: nat -> bool): nat -> Outcome<Str>
  {
    (k: nat) => if alarm(k) then TimesOut(TimeoutMessage()) else Completes(RewriteBody(bullet, keywords, maxLength, style, model))
  }

  /** The decorated `rewrite_bullet`: its outcome after at most two attempts. */
  function RewriteBullet(bullet: Str, keywords: seq<Str>, maxLength: int, style: Str,
                         model: LanguageModel, alarm: nat -> bool): Outcome<Str>
  {
    Retry(RewriteAttempt(bullet, keywords, maxLength, style, model, alarm), 2).0
  }

  /**
   * `rewrite_bullet` raises only when the alarm interrupts both attempts, and
   * then raises the timeout; otherwise it returns the body's result.
   */
  lemma RewriteBulletOutcome(bullet: Str, keywords: seq<Str>, maxLength: int, style: Str,
                             model: LanguageModel, alarm: nat -> bool)
    ensures var out := RewriteBullet(bullet, keywords, maxLength, style, model, alarm);
      && (alarm(1) && alarm(2) ==> out == TimesOut(TimeoutMessage()))
      && (!(alarm(1) && alarm(2)) ==> out == Completes(RewriteBody(bullet, keywords, maxLength, style, model)))
  {
    var attempt := RewriteAttempt(bullet, keywords, maxLength, style, model, alarm);
    var body := RewriteBody(bullet, keywords, maxLength, style, model);
    assert forall k: nat :: attempt(k) == if alarm(k) then TimesOut(TimeoutMessage()) else Completes(body);
    TwoAttempts(attempt, alarm, body, TimeoutMessage());
  }

  /** Two attempts, each interrupted exactly when the alarm fires for it. */
  lemma TwoAttempts<T>(attempt: nat -> Outcome<T>, alarm: nat -> bool, value: T, message: Str)
    requires forall k: nat :: attempt(k) == if alarm(k) then TimesOut(message) else Completes(value)
    ensures alarm(1) && alarm(2) ==> Retry(attempt, 2).0 == TimesOut(message)
    ensures !(alarm(1) && alarm(2)) ==> Retry(attempt, 2).0 == Completes(value)
  {
    if !alarm(1) {
      RetryFirstDecisive(attempt, 2, 1);
    } else if !alarm(2) {
      RetryFirstDecisive(attempt, 2, 2);
    } else {
      RetryOutcome(attempt, 2);
    }
  }


  // ---------------------------------------------------------------- batch_rewrite

  /** The budget default when a bullet has no constraint. */
  const DEFAULT_MAX_CHARS: int := 200

  function MaxCharsKey(): Str {
    Lit("max_chars")
  }

  /** `constraints[i].get('max_chars', 200) if i < len(constraints) else 200`, for `i >= 0`. */
  function Budget(constraints: seq<map<Str, int>>, i: nat): (budget: int)
    ensures i < |constraints| && MaxCharsKey() in constraints[i] ==> budget == constraints[i][MaxCharsKey()]
    ensures i >= |constraints| || MaxCharsKey() !in constraints[i] ==> budget == DEFAULT_MAX_CHARS
  {
    if i < |constraints| then
      (if MaxCharsKey() in constraints[i] then constraints[i][MaxCharsKey()] else DEFAULT_MAX_CHARS)
    else DEFAULT_MAX_CHARS
  }

  /** An outcome as the handler sees it: a value, or an exception's message. */
  function AsResult(outcome: Outcome<Str>): Result<Str, Str> {
    match outcome
    case Completes(v) => Ok(v)
    case TimesOut(m) => Err(m)
    case Raises(m) => Err(m)
  }

  /** `rewrite_single`: the decorated `rewrite_bullet` on bullet `i` with its budget. */
  function RewriteSingle(keywords: seq<Str>, constraints: seq<map<Str, int>>, style: Str,
                         model: LanguageModel, alarm: (nat, nat) -> bool): ((nat, Str)) -> Result<Str, Str>
  {
    (item: (nat, Str)) => AsResult(RewriteBullet(item.1, keywords, Budget(constraints, item.0), style, model, (k: nat) => alarm(item.0, k)))
  }

  /**
   * `smart_fallback_wrapper`: the cascade without an AI function on bullet
   * `i` with its budget. `existing` gives the words the keyword extractor
   * finds in a bullet.
   */
  function SmartFallbackWrapper(keywords: seq<Str>, constraints: seq<map<Str, int>>,
                                existing: Str -> set<Str>): ((nat, Str)) -> Result<Str, Str>
  {
    (item: (nat, Str)) => Ok(CascadingFallback(item.1, keywords, Budget(constraints, item.0), None, existing(item.1)).0)
  }

  /** What the batch yields for bullet `i`: the AI rewrite, or the cascade's result. */
  function BulletOutput(bullets: seq<Str>, i: nat, keywords: seq<Str>, constraints: seq<map<Str, int>>, style: Str,
                        model: LanguageModel, alarm: (nat, nat) -> bool, existing: Str -> set<Str>): Str
    requires i < |bullets|
  {
    match RewriteSingle(keywords, constraints, style, model, alarm)((i, bullets[i]))
    case Ok(v) => v
    case Err(_) => SmartFallbackWrapper(keywords, constraints, existing)((i, bullets[i])).value
  }

  /**
   * `batch_rewrite`: every bullet goes through the handler with the AI
   * rewrite as processor and the cascade as fallback; the successful data
   * are returned in order. The cascade never raises, so there is one output
   * per bullet.
   */
  method BatchRewrite(bullets: seq<Str>, keywords: seq<Str>, constraints: seq<map<Str, int>>, style: Str,
                      model: LanguageModel, alarm: (nat, nat) -> bool, existing: Str -> set<Str>)
    returns (rewritten: seq<Str>)
    ensures |rewritten| == |bullets|
    ensures forall i :: 0 <= i < |bullets| ==>
      rewritten[i] == BulletOutput(bullets, i, keywords, constraints, style, model, alarm, existing)
  {
    var handler := new PartialFailureHandler<(nat, Str), Str>(false);
    var indexedBullets: seq<(nat, Str)> := seq(|bullets|, i requires 0 <= i < |bullets| => (i, bullets[i]));
    var processor := RewriteSingle(keywords, constraints, style, model, alarm);
    var fallback := SmartFallbackWrapper(keywords, constraints, existing);
    var outcome := handler.ProcessBatch(indexedBullets, processor, Some(fallback));
    NeverFailingFallback<(nat, Str), Str>(indexedBullets, processor, fallback);
    rewritten := handler.GetSuccessful(Some(outcome.value));
  }

  /**
   * The batch's layout guarantee: each output passes the layout check for
   * its bullet's (non-negative) budget, unless it is the bullet itself or its
   * normalised form, which are what the pipeline returns when it has nothing
   * better.
   */
  lemma BatchOutputFits(bullets: seq<Str>, i: nat, keywords: seq<Str>, constraints: seq<map<Str, int>>, style: Str,
                        model: LanguageModel, alarm: (nat, nat) -> bool, existing: Str -> set<Str>)
    requires i < |bullets| && Budget(constraints, i) >= 0
    ensures var out := BulletOutput(bullets, i, keywords, constraints, style, model, alarm, existing);
      || ValidateConstraints(bullets[i], out, Budget(constraints, i))
      || out == bullets[i]
      || out == NormalizedBullet(bullets[i])
  {
    var budget := Budget(constraints, i);
    var alarmI := (k: nat) => alarm(i, k);
    BulletOutputCases(bullets, i, keywords, constraints, style, model, alarm, existing);
    if RewriteBullet(bullets[i], keywords, budget, style, model, alarmI).Completes? {
      RewriteBulletOutcome(bullets[i], keywords, budget, style, model, alarmI);
      RewriteBodyShape(bullets[i], keywords, budget, style, model);
    } else {
      CascadeWithoutAi(bullets[i], keywords, budget, existing(bullets[i]));
      OriginalIffUnchanged(bullets[i], keywords, budget, None, existing(bullets[i]));
    }
  }

  /** A bullet's output: the model's rewrite when it completes, otherwise the cascade's result. */
  lemma BulletOutputCases(bullets: seq<Str>, i: nat, keywords: seq<Str>, constraints: seq<map<Str, int>>, style: Str,
                          model: LanguageModel, alarm: (nat, nat) -> bool, existing: Str -> set<Str>)
    requires i < |bullets|
    ensures var outcome := RewriteBullet(bullets[i], keywords, Budget(constraints, i), style, model, (k: nat) => alarm(i, k));
      BulletOutput(bullets, i, keywords, constraints, style, model, alarm, existing)
      == if outcome.Completes? then outcome.value
         else CascadingFallback(bullets[i], keywords, Budget(constraints, i), None, existing(bullets[i])).0
  {
  }
}
