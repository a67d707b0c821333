/**
 * The job-description agent: the language model's reply is cut out of any
 * markdown code fence, stripped and decoded as JSON; every failure turns into
 * a fixed result with empty skill and keyword lists.
 *
 * The chat call and the JSON decoder are not modelled: the first is a
 * function from the job description to the reply or the error it raised, the
 * second a function from text to the decoded value, or `None` for a
 * `JSONDecodeError`.
 */
module JdAgent {
  import opened Wrappers
  import opened PyStr

  const BACKTICK: CodePoint := 0x60

  /** "```" */
  const FENCE: Str := [BACKTICK, BACKTICK, BACKTICK]

  /** "```json" */
  const JSON_FENCE: Str := [BACKTICK, BACKTICK, BACKTICK, 0x6A, 0x73, 0x6F, 0x6E]

  predicate NoBacktick(s: Str) {
    forall j :: 0 <= j < |s| ==> s[j] != BACKTICK
  }

  // ---------------------------------------------------------------- fence stripping

  /**
   * The clean-up of the reply in `analyze_jd`: after a "```json" fence, the
   * text up to the next "```"; otherwise after a plain "```" fence, the text
   * up to the next one; otherwise the reply itself.
   */
  function StripFences(content: Str): Str {
    if Contains(content, JSON_FENCE) then BeforeFirst(SecondPiece(content, JSON_FENCE), FENCE)
    else if Contains(content, FENCE) then BeforeFirst(SecondPiece(content, FENCE), FENCE)
    else content
  }

  /** The first occurrence of a fence is at `i` when no backtick comes before it. */
  lemma FindAt(s: Str, sub: Str, i: nat)
    requires |sub| > 0 && sub[0] == BACKTICK
    requires OccursAt(s, sub, i) && NoBacktick(s[..i])
    ensures Find(s, sub) == Some(i)
  {
    forall j: nat | j < i ensures !OccursAt(s, sub, j) {
      if j + |sub| <= |s| {
        assert s[j..j + |sub|][0] == s[j] == s[..i][j];
      }
    }
  }

  /** A text without backticks holds no fence. */
  lemma FindNone(s: Str, sub: Str)
    requires |sub| > 0 && sub[0] == BACKTICK && NoBacktick(s)
    ensures Find(s, sub) == None
  {
    forall j: nat ensures !OccursAt(s, sub, j) {
      if j + |sub| <= |s| {
        assert s[j..j + |sub|][0] == s[j];
      }
    }
  }

  /** Splitting at a fence keeps the backtick-free text before it. */
  lemma BeforeFirstAt(s: Str, sub: Str, n: nat)
    requires |sub| > 0 && sub[0] == BACKTICK
    requires n <= |s| && NoBacktick(s[..n])
    requires n == |s| || OccursAt(s, sub, n)
    ensures BeforeFirst(s, sub) == s[..n]
  {
    if n == |s| {
      assert s[..n] == s;
      FindNone(s, sub);
    } else {
      FindAt(s, sub, n);
    }
  }

  /** The text before the first separator does not contain the separator. */
  lemma BeforeFirstNoSep(s: Str, sep: Str)
    requires |sep| > 0
    ensures !Contains(BeforeFirst(s, sep), sep)
  {
    var r := BeforeFirst(s, sep);
    forall j: nat | OccursAt(r, sep, j) ensures OccursAt(s, sep, j) {
      assert r[j..j + |sep|] == s[j..j + |sep|];
    }
  }

  /** A reply that holds "```json" holds "```". */
  lemma JsonFenceHasFence(content: Str)
    requires Contains(content, JSON_FENCE)
    ensures Contains(content, FENCE)
  {
    var i := Find(content, JSON_FENCE).value;
    assert content[i..i + 3] == content[i..i + 7][..3];
    var f := Find(content, FENCE);
    assert OccursAt(content, FENCE, i);
  }

  /** The payload cut out after a fence is a piece of the reply. */
  lemma PieceOccurs(content: Str, sep: Str)
    requires Contains(content, sep)
    ensures OccursAt(content, BeforeFirst(SecondPiece(content, sep), FENCE), |content| - |AfterFirst(content, sep)|)
  {
    var after := AfterFirst(content, sep);
    var r := BeforeFirst(SecondPiece(content, sep), FENCE);
    var a := |content| - |after|;
    assert content[a..a + |r|] == after[..|r|];
  }

  /**
   * A reply without fences passes through; after a fence, the payload holds
   * no further fence and is a piece of the reply.
   */
  lemma StripFencesShape(content: Str)
    ensures !Contains(content, FENCE) ==> StripFences(content) == content
    ensures Contains(content, FENCE) ==> !Contains(StripFences(content), FENCE)
    ensures exists a: nat :: OccursAt(content, StripFences(content), a)
  {
    var r := StripFences(content);
    if Contains(content, JSON_FENCE) {
      JsonFenceHasFence(content);
    }
    if Contains(content, FENCE) {
      var sep := if Contains(content, JSON_FENCE) then JSON_FENCE else FENCE;
      assert r == BeforeFirst(SecondPiece(content, sep), FENCE);
      BeforeFirstNoSep(SecondPiece(content, sep), FENCE);
      PieceOccurs(content, sep);
    } else {
      assert r == content;
      assert OccursAt(content, r, 0);
    }
  }

  /** "```json" followed by a payload and a closing "```": the payload is kept. */
  lemma JsonFencePayload(pre: Str, payload: Str, post: Str)
    requires NoBacktick(pre) && NoBacktick(payload) && NoBacktick(post)
    ensures StripFences(pre + JSON_FENCE + payload + FENCE + post) == payload
  {
    var x := payload + FENCE + post;
    assert pre + JSON_FENCE + payload + FENCE + post == pre + JSON_FENCE + x;
    AfterFence(pre, JSON_FENCE, x);
    JsonPieceOfTail(payload, post);
  }

  /** The first fence of a reply whose text before it has no backtick, and what follows it. */
  lemma AfterFence(pre: Str, sub: Str, rest: Str)
    requires |sub| > 0 && sub[0] == BACKTICK && NoBacktick(pre)
    ensures Find(pre + sub + rest, sub) == Some(|pre|) && AfterFirst(pre + sub + rest, sub) == rest
  {
    var c := pre + sub + rest;
    assert c[|pre|..|pre| + |sub|] == sub;
    assert c[..|pre|] == pre;
    FindAt(c, sub, |pre|);
    assert c[|pre| + |sub|..] == rest;
  }

  /** A payload closed by a plain fence is the text before that fence. */
  lemma FencePayload(payload: Str, post: Str)
    requires NoBacktick(payload)
    ensures BeforeFirst(payload + FENCE + post, FENCE) == payload
  {
    var x := payload + FENCE + post;
    assert x[..|payload|] == payload;
    assert x[|payload|..|payload| + 3] == FENCE;
    BeforeFirstAt(x, FENCE, |payload|);
  }

  /** After the "```json" fence: the piece before any second "```json", cut at the closing fence. */
  lemma JsonPieceOfTail(payload: Str, post: Str)
    requires NoBacktick(payload) && NoBacktick(post)
    ensures BeforeFirst(BeforeFirst(payload + FENCE + post, JSON_FENCE), FENCE) == payload
  {
    var x := payload + FENCE + post;
    match Find(x, JSON_FENCE)
    case None =>
      FencePayload(payload, post);
    case Some(v) =>
      assert x[v..v + 7][0] == x[v] && x[v..v + 7][2] == x[v + 2];
      forall k | 0 <= k < |payload| ensures x[k] != BACKTICK {
        assert x[k] == payload[k];
      }
      forall k | |payload| + 3 <= k < |x| ensures x[k] != BACKTICK {
        assert x[k] == post[k - |payload| - 3];
      }
      assert v == |payload|;
      assert x[..v] == payload;
      BeforeFirstAt(payload, FENCE, |payload|);
  }


  /** "```json" with no closing fence: the payload runs to the end of the reply. */
  lemma JsonFenceToEnd(pre: Str, payload: Str)
    requires NoBacktick(pre) && NoBacktick(payload)
    ensures StripFences(pre + JSON_FENCE + payload) == payload
  {
    AfterFence(pre, JSON_FENCE, payload);
    FindNone(payload, JSON_FENCE);
    FindNone(payload, FENCE);
  }

  /** A plain "```" fence around a payload, when no "```json" occurs: the payload is kept. */
  lemma PlainFencePayload(pre: Str, payload: Str, post: Str)
    requires NoBacktick(pre) && NoBacktick(payload) && NoBacktick(post)
    requires !Contains(pre + FENCE + payload + FENCE + post, JSON_FENCE)
    ensures StripFences(pre + FENCE + payload + FENCE + post) == payload
  {
    var x := payload + FENCE + post;
    assert pre + FENCE + payload + FENCE + post == pre + FENCE + x;
    AfterFence(pre, FENCE, x);
    FencePayload(payload, post);
    FindNone(payload, FENCE);
  }

  /** A plain "```" fence with no closing fence: the payload runs to the end. */
  lemma PlainFenceToEnd(pre: Str, payload: Str)
    requires NoBacktick(pre) && NoBacktick(payload)
    requires !Contains(pre + FENCE + payload, JSON_FENCE)
    ensures StripFences(pre + FENCE + payload) == payload
  {
    AfterFence(pre, FENCE, payload);
    FindNone(payload, FENCE);
  }

  // ---------------------------------------------------------------- analyze_jd

  /** A decoded JSON value. */
  datatype Json =
    | JNull
    | JBool(b: bool)
    | JNumber(n: real)
    | JString(s: Str)
    | JArray(items: seq<Json>)
    | JObject(fields: map<Str, Json>)

  /** Python's `len` accepts the value: a string, a list or a dictionary. */
  predicate HasLen(v: Json) {
    v.JString? || v.JArray? || v.JObject?
  }

  const SKILLS: Str := Lit("skills")
  const EXPERIENCE_YEARS: Str := Lit("experience_years")
  const KEYWORDS: Str := Lit("keywords")
  const SUMMARY: Str := Lit("summary")

  const PARSE_ERROR_SUMMARY: Str := Lit("Error: Could not parse JD analysis")
  const ANALYZE_ERROR_SUMMARY: Str := Lit("Error analyzing JD")

  /** The result `analyze_jd` falls back to, with the given summary. */
  function Fallback(summary: Str): map<Str, Json> {
    map[SKILLS := JArray([]), EXPERIENCE_YEARS := JNull, KEYWORDS := JArray([]), SUMMARY := JString(summary)]
  }

  /**
   * The success log line takes `len` of the skills and keywords entries, so a
   * decoded dictionary is returned only when both are absent or have a length.
   */
  predicate Loggable(fields: map<Str, Json>) {
    && (SKILLS !in fields || HasLen(fields[SKILLS]))
    && (KEYWORDS !in fields || HasLen(fields[KEYWORDS]))
  }

  /**
   * `analyze_jd`: ask the model, strip fences and whitespace, decode. A
   * decoding failure gives the parse-error fallback; a failed call, or a
   * decoded value that is not a dictionary or breaks the log line, gives
   * the general fallback. It never raises.
   */
  function AnalyzeJd(jdText: Str, chat: Str -> Result<Str, Str>, decode: Str -> Option<Json>): (r: map<Str, Json>)
    ensures chat(jdText).Err? ==> r == Fallback(ANALYZE_ERROR_SUMMARY)
    ensures chat(jdText).Ok? && decode(Strip(StripFences(chat(jdText).value))).None? ==>
      r == Fallback(PARSE_ERROR_SUMMARY)
    ensures chat(jdText).Ok? ==> var d := decode(Strip(StripFences(chat(jdText).value)));
      && (d.Some? && d.value.JObject? && Loggable(d.value.fields) ==> r == d.value.fields)
      && (d.Some? && !(d.value.JObject? && Loggable(d.value.fields)) ==> r == Fallback(ANALYZE_ERROR_SUMMARY))
  {
    match chat(jdText)
    case Err(_) => Fallback(ANALYZE_ERROR_SUMMARY)
    case Ok(content) =>
      match decode(Strip(StripFences(content)))
      case None => Fallback(PARSE_ERROR_SUMMARY)
      case Some(v) => if v.JObject? && Loggable(v.fields) then v.fields else Fallback(ANALYZE_ERROR_SUMMARY)
  }

  /** Both fallbacks have empty skill and keyword lists, no experience, and a fixed summary. */
  lemma FallbackShape(summary: Str)
    ensures var f := Fallback(summary);
      && f.Keys == {SKILLS, EXPERIENCE_YEARS, KEYWORDS, SUMMARY}
      && f[SKILLS] == JArray([]) && f[KEYWORDS] == JArray([])
      && f[EXPERIENCE_YEARS] == JNull && f[SUMMARY] == JString(summary)
  {
  }

  /** The two fallbacks differ only in their summaries. */
  lemma FallbacksDistinct()
    ensures Fallback(PARSE_ERROR_SUMMARY) != Fallback(ANALYZE_ERROR_SUMMARY)
  {
    assert Fallback(PARSE_ERROR_SUMMARY)[SUMMARY] != Fallback(ANALYZE_ERROR_SUMMARY)[SUMMARY] by {
      assert PARSE_ERROR_SUMMARY[0] != ANALYZE_ERROR_SUMMARY[0] || PARSE_ERROR_SUMMARY[5] != ANALYZE_ERROR_SUMMARY[5];
    }
  }

  /** A well-formed dictionary inside a fenced reply is returned as decoded. */
  lemma AnalyzeJdFencedObject(jdText: Str, chat: Str -> Result<Str, Str>, decode: Str -> Option<Json>,
                              pre: Str, payload: Str, post: Str, fields: map<Str, Json>)
    requires NoBacktick(pre) && NoBacktick(payload) && NoBacktick(post)
    requires chat(jdText) == Ok(pre + JSON_FENCE + payload + FENCE + post)
    requires decode(Strip(payload)) == Some(JObject(fields)) && Loggable(fields)
    ensures AnalyzeJd(jdText, chat, decode) == fields
  {
    JsonFencePayload(pre, payload, post);
  }
}
