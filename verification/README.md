# ResuForge rewrite-and-patch pipeline in Dafny

This project models the core of ResuForge, a resume optimiser. The pipeline works in five steps:

1. It parses a DOCX or PDF resume into cleaned paragraphs.
2. It reads a job description through a language model and takes out its skills and keywords.
3. It rewrites every bullet within a per-bullet character budget. The model is tried first, with a bounded retry. A deterministic fallback cascade (template injection, keyword append, the original bullet) covers the bullets the model could not rewrite.
4. It checks every rewrite against the budget.
5. It writes the accepted rewrites back into the paragraphs and runs of the DOCX document.

The project also covers the string utilities this pipeline depends on:

- encoding repair;
- control-character removal;
- whitespace normalisation;
- XML sanitising;
- list chunking;
- duplicate detection by word-set similarity and content normalisation.

Python strings are sequences of code points (`PyStr.Str`). `split`, `strip`, `join`, `find`, `rsplit`, `rstrip` and slicing are defined as Python defines them. Each loop of the imperative code (the greedy keyword loops, the batch, retry and validation loops, the XML sanitising loops and the document loops) is a Dafny method proved equal to a specification function. `chunk_list`'s generator loop is the recursive function `MemoryUtils.Chunks`. Properties of those functions are proved as lemmas. `PartialFailureHandler` and the DOCX document are classes whose methods update their fields in place.

Modules, one per source file (plus `PyStr`, `Sets` and `Wrappers` for shared definitions):

- `LayoutEngine` (layout_engine.py)
- `RewriteAgent` (rewrite_agent.py)
- `SmartFallback` (smart_fallback.py)
- `PartialFailure` (partial_failure.py)
- `TimeoutUtils` (timeout_utils.py)
- `EncodingUtils` (encoding_utils.py)
- `ParserAgent` (parser_agent.py)
- `JdAgent` (jd_agent.py)
- `MemoryUtils` (memory_utils.py)
- `DuplicateDetection` (duplicate_detection.py)

## Model

| member | source | states |
|---|---|---|
| LayoutEngine.ValidateConstraints | backend/agents/layout_engine.py:65-73 | the edit is valid exactly when the new text has at most `max_chars` characters; the bound is inclusive |
| LayoutEngine.ValidateIgnoresOriginal | backend/agents/layout_engine.py:39-73 | the original text never influences the verdict |
| LayoutEngine.ValidateIdentity | backend/agents/layout_engine.py:65 | an identity edit is valid exactly when the text already fits |
| LayoutEngine.ValidateMonotone | backend/agents/layout_engine.py:65 | a text that fits also fits any larger budget, and so does every prefix of it |
| LayoutEngine.ParagraphText | backend/agents/layout_engine.py:112-114 | `para.text`: the concatenation of the paragraph's run texts; `PatchParagraph` states that a patched paragraph reads as the new text |
| LayoutEngine.PatchParagraph | backend/agents/layout_engine.py:121-128 | a patched paragraph reads as the new text. With runs, the run count and every run's format are kept, run 0 holds the new text and later runs are emptied. Without runs, it gets a single new run |
| LayoutEngine.Patched | backend/agents/layout_engine.py:111-128 | the paragraph count is kept; a paragraph whose whole text is not a key is unchanged; a matched paragraph reads as its key's value |
| LayoutEngine.PatchRuns | backend/agents/layout_engine.py:121-128 | the run loop produces exactly `PatchParagraph` |
| LayoutEngine.ReconstructDocx | backend/agents/layout_engine.py:107-130 | one in-order pass leaves the document's paragraphs equal to `Patched` of the old ones (each paragraph replaced at most once) and returns the number of matched paragraphs |
| LayoutEngine.PatchedKeepsFormatting | backend/agents/layout_engine.py:121-125 | a matched paragraph keeps its run count and the format of every run |
| LayoutEngine.MatchCount | backend/agents/layout_engine.py:108-130 | `replacements_applied`: one per paragraph whose whole text is a key; `ReconstructDocx` returns it and `MatchCountBound`, `MatchCountDistinctKeys` and `UnappliedKeyExists` bound it |
| LayoutEngine.MatchCountBound | backend/agents/layout_engine.py:130 | the applied count never exceeds the paragraph count |
| LayoutEngine.MatchCountDistinctKeys | backend/agents/layout_engine.py:112-130 | the applied count is at least the number of distinct keys that matched some paragraph |
| LayoutEngine.MatchedKeysComplete | backend/agents/layout_engine.py:112 | the text of every matched paragraph is among the matched keys |
| LayoutEngine.UnappliedKeyExists | backend/agents/layout_engine.py:136-138 | when fewer replacements were applied than there are keys, some key matches no paragraph |
| RewriteAgent.StyleInstruction | backend/agents/rewrite_agent.py:57-62 | a known style gets its own instruction; an unknown style gets the "safe" one |
| RewriteAgent.NormalizedBullet | backend/agents/rewrite_agent.py:53 | the bullet encoded and then whitespace-normalised; its properties are those of `EncodingUtils.NormalizeWhitespace` |
| RewriteAgent.FitToLength | backend/agents/rewrite_agent.py:81-83 | a reply over the budget is cut at the budget and then before its last space; `FitToLengthShape` states its promises |
| RewriteAgent.FitToLengthShape | backend/agents/rewrite_agent.py:81-83 | the fitted reply is a prefix of the reply. With a non-negative budget it is within budget; a reply that fits is kept whole; an over-long one is cut at the budget and then at its last space |
| RewriteAgent.RewriteBody | backend/agents/rewrite_agent.py:53-89 | the body of `rewrite_bullet` run to completion: the fitted, stripped and encoded reply, or the normalised bullet when the model raises; `RewriteBodyShape` states its promises |
| RewriteAgent.RewriteBodyShape | backend/agents/rewrite_agent.py:53-89 | when the model raises, the result is the normalised bullet. Otherwise it is the stripped, encoded reply fitted to the budget, and never longer than the budget |
| RewriteAgent.RewriteBullet | backend/agents/rewrite_agent.py:44-89 | the decorated `rewrite_bullet`: the outcome of at most two attempts under `with_retry(2)`; `RewriteBulletOutcome` states when it times out |
| RewriteAgent.RewriteBulletOutcome | backend/agents/rewrite_agent.py:44-89 | under the two-attempt retry, the bullet rewrite raises the timeout only when the alarm interrupts both attempts; otherwise it returns the body's result |
| RewriteAgent.Budget | backend/agents/rewrite_agent.py:109 | the budget of bullet i is `constraints[i]['max_chars']` when i is in range and the key is present, otherwise 200 |
| RewriteAgent.RewriteSingle | backend/agents/rewrite_agent.py:106-110 | `rewrite_single`: the decorated `rewrite_bullet` on bullet i with its budget, a timeout turned into a raised error; `RewriteBulletOutcome` states when it raises |
| RewriteAgent.SmartFallbackWrapper | backend/agents/rewrite_agent.py:112-121 | `smart_fallback_wrapper`: the cascade without an AI function on bullet i with its budget, which never raises; `CascadeWithoutAi` states its promises |
| RewriteAgent.BulletOutput | backend/agents/rewrite_agent.py:124-128 | the batch's output for bullet i through the handler: the model's rewrite when it completes, otherwise the cascade's result (`BulletOutputCases`) |
| RewriteAgent.BulletOutputCases | backend/agents/rewrite_agent.py:124-128 | a bullet's output is the model's rewrite when the decorated call completes, and otherwise the result of the cascade without AI |
| RewriteAgent.BatchRewrite | backend/agents/rewrite_agent.py:104-135 | one output per bullet, in input order: the model's rewrite, or the cascade's result for a bullet whose rewrite raised |
| RewriteAgent.BatchOutputFits | backend/agents/rewrite_agent.py:106-121 | every output passes the layout check against its budget, or is the bullet itself, or is the bullet's normalised form |
| SmartFallback.Select | backend/utils/smart_fallback.py:39-47 | the greedy keyword choice shared by both fallbacks: in input order, a keyword is taken when the running estimate plus its length and overhead stays strictly below the limit, and skipped otherwise; `SelectFacts`, `CostTotal` and `SelectStep` state its promises |
| SmartFallback.SelectFacts | backend/utils/smart_fallback.py:39-47 | greedy selection keeps input order, and its estimate stays strictly below the limit. It selects nothing exactly when no single keyword fits on its own |
| SmartFallback.CostTotal | backend/utils/smart_fallback.py:43-47 | the estimate adds each chosen keyword's length plus the fixed overhead |
| SmartFallback.SelectStep | backend/utils/smart_fallback.py:42-47 | one loop step either chooses the keyword and raises the estimate, or skips it and goes on |
| SmartFallback.GreedySelect | backend/utils/smart_fallback.py:40-47 | the greedy loop computes exactly the selection `Select` |
| SmartFallback.TemplateRewrite | backend/utils/smart_fallback.py:15-66 | `template_based_rewrite` as a value: the bullet unchanged when blank or nothing fits, otherwise the "using"/"with" sentence cut at the last space within max_length; `TemplateBasedRewrite` is proved equal to it and `TemplateRewriteShape` states its promises |
| SmartFallback.TemplateBasedRewrite | backend/utils/smart_fallback.py:15-66 | the method computes exactly `TemplateRewrite` |
| SmartFallback.TemplateRewriteShape | backend/utils/smart_fallback.py:30-63 | a blank bullet, or one with no keyword fitting, is returned unchanged. Otherwise the result is "<words> using k1, k2" (or "<word> with ..." for a one-word bullet) and is shorter than `max_length` |
| SmartFallback.TemplateSentence | backend/utils/smart_fallback.py:53-60 | the sentence before the length guard: the action verb, a space and the other words single-spaced, then " using k1, k2", or the verb alone followed by " with k1, k2" when there are no other words; `TemplateSentenceShape` states its exact text and length |
| SmartFallback.TemplateSentenceShape | backend/utils/smart_fallback.py:53-60 | the two sentence templates, and their length bound under the selection's estimate |
| SmartFallback.CleanBullet | backend/utils/smart_fallback.py:87 | `bullet.rstrip('.').strip()`; `KeywordAppendShape` states that an appended result starts with it |
| SmartFallback.KeywordAppend | backend/utils/smart_fallback.py:69-107 | `simple_keyword_append` as a value: the bullet unchanged when blank or nothing fits, otherwise the cleaned bullet followed by " (k1, k2)."; `SimpleKeywordAppend` is proved equal to it and `KeywordAppendShape` states its promises |
| SmartFallback.SimpleKeywordAppend | backend/utils/smart_fallback.py:69-107 | the method computes exactly `KeywordAppend` |
| SmartFallback.KeywordAppendShape | backend/utils/smart_fallback.py:83-104 | a blank bullet, or one with no keyword fitting, is returned unchanged. Otherwise the result starts with the cleaned bullet, ends in ")." and is shorter than `max_length` |
| SmartFallback.AppendSentenceShape | backend/utils/smart_fallback.py:93-104 | the appended sentence's exact shape and its length bound |
| SmartFallback.NewKeywords | backend/utils/smart_fallback.py:129 | the filter keeps, in order, exactly the keywords whose lower-case form matches no existing word, each as many times as it occurs in the input |
| SmartFallback.SortByLength | backend/utils/smart_fallback.py:136 | sorting by length gives a permutation of its input, ordered by length |
| SmartFallback.InsertSorted | backend/utils/smart_fallback.py:136 | inserting by length keeps a list sorted |
| SmartFallback.SortStable | backend/utils/smart_fallback.py:136 | the sort is stable: keywords of equal length keep their relative order |
| SmartFallback.SmartKeywordSelection | backend/utils/smart_fallback.py:117-138 | `smart_keyword_selection`: the first max_count of the new keywords sorted by length, or of all keywords when none is new; `SmartKeywordSelectionShape` states what it selects |
| SmartFallback.SmartKeywordSelectionShape | backend/utils/smart_fallback.py:126-138 | at most `max_count` keywords, all from the input. When some keywords are new: only new keywords, ordered by length, exactly min(`max_count`, number of new keywords) of them (each counted with its multiplicity), and no new keyword left out is shorter than one chosen. When none are new, the first `max_count` inputs |
| SmartFallback.CascadingFallback | backend/utils/smart_fallback.py:146-207 | `cascading_fallback`: the first of the AI, AI-subset, template and append levels whose result differs from the bullet, else the bullet with strategy "original"; `OriginalIffUnchanged`, `AiLevels`, `RaisingAiSkipped` and `CascadeWithoutAi` state its promises |
| SmartFallback.OriginalIffUnchanged | backend/utils/smart_fallback.py:169-207 | the strategy is "original" exactly when the result equals the bullet |
| SmartFallback.AiLevels | backend/utils/smart_fallback.py:169-185 | "ai_full" needs an AI function and some keyword; "ai_smart_subset" needs more than 3 keywords |
| SmartFallback.RaisingAiSkipped | backend/utils/smart_fallback.py:169-185 | an AI function that raises on both calls the cascade makes is skipped: the result and strategy are those of the cascade without AI |
| SmartFallback.CascadeWithoutAi | backend/utils/smart_fallback.py:186-207 | without an AI function, the strategy is template, append or original, and a changed bullet is shorter than `max_length` |
| PartialFailure.ProcessItem | backend/utils/partial_failure.py:63-99 | the result recorded for one item when not failing fast: the processor's data, or the fallback's data with the "Used fallback after error" note, or a failure carrying the item and the error; `ProcessBatchShape` states it per item |
| PartialFailure.BatchOutcome | backend/utils/partial_failure.py:44-102 | what `process_batch` ends with: the error of the first failing item when failing fast, otherwise one result per item in order; `ProcessBatch` is proved equal to it and `ProcessBatchShape`, `FailFastOutcome` and `NeverFailingFallback` state its promises |
| PartialFailure.Processed | backend/utils/partial_failure.py:61-99 | the results of the item loop when not failing fast: one `ProcessItem` result per item, in order; `ProcessBatchShape` states each case |
| PartialFailure.FirstFailure | backend/utils/partial_failure.py:63-77 | the index of the first item whose processor raises, or none when every item succeeds |
| PartialFailure.FirstFailureIs | backend/utils/partial_failure.py:72-77 | the first failing item is the one whose predecessors all succeed |
| PartialFailure.SuccessfulData | backend/utils/partial_failure.py:107 | `[r.data for r in results if r.success]`; `PartitionCount`, `SuccessfulConcat` and `AllSucceeded` state what it holds |
| PartialFailure.FailedEntries | backend/utils/partial_failure.py:112 | `[(r.index, r.error) for r in results if not r.success]`; `FailedEntriesMembers`, `FailedConcat` and `PartitionCount` state what it holds |
| PartialFailure.Summarize | backend/utils/partial_failure.py:114-127 | total, successful and failed counts, the error list, and the success rate |
| PartialFailure.SuccessRate | backend/utils/partial_failure.py:125 | the rate is successful/total when there are results, otherwise 0, and it lies in [0,1] |
| PartialFailure.PartitionCount | backend/utils/partial_failure.py:104-118 | successful and failed entries together account for every result |
| PartialFailure.ErrorsCount | backend/utils/partial_failure.py:112-126 | the error list matches the failed entries one for one |
| PartialFailure.SuccessfulConcat | backend/utils/partial_failure.py:107 | collecting successful data works result by result, in order |
| PartialFailure.FailedConcat | backend/utils/partial_failure.py:112 | collecting failed entries works result by result, in order |
| PartialFailure.AllSucceeded | backend/utils/partial_failure.py:107-112 | when every result succeeded, the data are all the results' data in order, and nothing failed |
| PartialFailure.PartialFailureHandler.ProcessBatch | backend/utils/partial_failure.py:44-102 | the batch outcome is `BatchOutcome`. `self.results` takes the new results on success and is left alone when a fail-fast error propagates |
| PartialFailure.PartialFailureHandler.Chosen | backend/utils/partial_failure.py:106-116 | an absent or empty results argument falls back to the stored results |
| PartialFailure.PartialFailureHandler.GetSuccessful | backend/utils/partial_failure.py:104-107 | the data of the successful results, in order |
| PartialFailure.PartialFailureHandler.GetFailed | backend/utils/partial_failure.py:109-112 | the (index, error) entries of the failed results of the chosen list, in order (characterised by `FailedEntriesMembers` and `FailedConcat`); together with the successful data they cover every result |
| PartialFailure.FailedEntriesMembers | backend/utils/partial_failure.py:112 | an (index, error) pair is listed iff some failed result carries exactly that index and error |
| PartialFailure.PartialFailureHandler.GetSummary | backend/utils/partial_failure.py:114-127 | failed equals total minus successful |
| PartialFailure.ProcessBatchShape | backend/utils/partial_failure.py:63-99 | without fail-fast, there is one result per item with its own index. A success carries the processor's data and no error. A recovered failure carries the fallback's data and a note. Otherwise the result is a failure carrying the item |
| PartialFailure.FailFastOutcome | backend/utils/partial_failure.py:72-77 | with fail-fast, the batch raises exactly when some item fails, and it raises that item's error; otherwise the results are those without a fallback |
| PartialFailure.NeverFailingFallback | backend/utils/partial_failure.py:80-89 | with a fallback that never raises, every item succeeds, with the processor's data or the fallback's |
| PartialFailure.BatchRewriteWithFallback | backend/utils/partial_failure.py:130-157 | one rewritten bullet per input: the rewrite, or the bullet itself when the rewrite raised. The summary counts every bullet as successful |
| PartialFailure.ValidateBatchResults | backend/utils/partial_failure.py:160-192 | one flag per result; a flag is true exactly when every validator returns true, and a crashing validator counts as false |
| TimeoutUtils.Retry | backend/utils/timeout_utils.py:92-116 | `with_retry(max_attempts)` as a value: the outcome and the number of calls, with the `raise None` TypeError for fewer than one attempt; `WithRetry` is proved equal to it and `RetryOutcome` and `RetryFirstDecisive` state its promises |
| TimeoutUtils.RetryFrom | backend/utils/timeout_utils.py:95-116 | the attempt loop from attempt k on: it stops at the first attempt that does not time out or at the last one; `RetryFromOutcome` states this |
| TimeoutUtils.WithRetry | backend/utils/timeout_utils.py:92-116 | the attempt loop computes exactly `Retry` |
| TimeoutUtils.RetryFromOutcome | backend/utils/timeout_utils.py:95-116 | from attempt k on, the loop stops at the first attempt that does not time out, or after the last one; every attempt before it timed out |
| TimeoutUtils.RetryOutcome | backend/utils/timeout_utils.py:95-116 | at most `max_attempts` calls. The result is the last call's outcome: a value or another exception at once, a timeout only when every attempt timed out. No attempt at all raises the TypeError of `raise None` |
| TimeoutUtils.RetryFirstDecisive | backend/utils/timeout_utils.py:103-112 | the first attempt that does not time out decides the result |
| TimeoutUtils.SafeTimeoutCall | backend/utils/timeout_utils.py:174-185 | the call's value, or the fallback value on a timeout or any other exception |
| TimeoutUtils.SafeTimeoutCallIsOneAttempt | backend/utils/timeout_utils.py:174-185 | `safe_timeout_call` equals one retry attempt with every failure turned into the fallback |
| EncodingUtils.SafeEncodeText | backend/utils/encoding_utils.py:26-37 | the length is kept, every unencodable code point becomes '?', and the result is encodable |
| EncodingUtils.SafeEncodeIdentity | backend/utils/encoding_utils.py:28-34 | encodable text is returned unchanged, and only encodable text is; a second pass changes nothing |
| EncodingUtils.HandleRtlText | backend/utils/encoding_utils.py:168 | right-to-left handling is the encoding pass |
| EncodingUtils.StripControlCharacters | backend/utils/encoding_utils.py:56-66 | the result is no longer than the input, and only kept characters remain |
| EncodingUtils.StripControlCounts | backend/utils/encoding_utils.py:56-61 | exactly the control characters below 32 other than TAB, LF, VT, FF and CR are removed; every other character keeps its count |
| EncodingUtils.StripControlConcat | backend/utils/encoding_utils.py:58-61 | stripping works character by character, so the kept characters stay in order |
| EncodingUtils.StripControlIdentity | backend/utils/encoding_utils.py:58-61 | text without removable characters is unchanged |
| EncodingUtils.StripControlIdempotent | backend/utils/encoding_utils.py:56-66 | stripping twice equals stripping once |
| EncodingUtils.ReplaceChar | backend/utils/encoding_utils.py:84 | `str.replace` of one character by another, position by position |
| EncodingUtils.Without | backend/utils/encoding_utils.py:149-151 | deleting characters leaves none of them |
| EncodingUtils.WithoutAbsent | backend/utils/encoding_utils.py:85 | deletion introduces no character |
| EncodingUtils.WithoutPresent | backend/utils/encoding_utils.py:151 | deletion keeps every character that is not deleted |
| EncodingUtils.WithoutKeeps | backend/utils/encoding_utils.py:151 | deletion changes nothing when none of the characters occurs |
| EncodingUtils.CollapseSpaces | backend/utils/encoding_utils.py:88 | after `re.sub(' +', ' ')` no two spaces are adjacent, and the first character is kept |
| EncodingUtils.CollapseSpacesAbsent | backend/utils/encoding_utils.py:88 | collapsing introduces no character |
| EncodingUtils.CollapseSpacesIdentity | backend/utils/encoding_utils.py:88 | text without double spaces is unchanged |
| EncodingUtils.CollapseNewlines | backend/utils/encoding_utils.py:91 | after `re.sub('\n\n+', '\n\n')` no three newlines are adjacent, and spaces stay single |
| EncodingUtils.CollapseNewlinesAbsent | backend/utils/encoding_utils.py:91 | collapsing introduces no character |
| EncodingUtils.CollapseNewlinesIdentity | backend/utils/encoding_utils.py:91 | text without triple newlines is unchanged |
| EncodingUtils.NormalizeWhitespace | backend/utils/encoding_utils.py:84-93 | the result has no NBSP, no zero-width space, no double space, no triple newline, and no leading or trailing whitespace |
| EncodingUtils.NormalizeSteps | backend/utils/encoding_utils.py:84-91 | the replace chain before the final `strip()` keeps those properties |
| EncodingUtils.SliceKeeps | backend/utils/encoding_utils.py:93 | `strip()` keeps those properties, because it returns a slice |
| EncodingUtils.NormalizeWhitespaceIdempotent | backend/utils/encoding_utils.py:84-93 | normalising twice equals normalising once |
| EncodingUtils.NormalizeKeepsVisible | backend/utils/encoding_utils.py:84-93 | normalising changes only whitespace and zero-width spaces: every other character of the text survives, in order, and none is added |
| EncodingUtils.Interval | backend/utils/encoding_utils.py:150 | `range(start, end + 1)` as a set of code points |
| EncodingUtils.WithoutTwice | backend/utils/encoding_utils.py:149-151 | deleting one range after another equals deleting their union |
| EncodingUtils.WithoutConcat | backend/utils/encoding_utils.py:151 | deletion works piece by piece |
| EncodingUtils.DeleteRange | backend/utils/encoding_utils.py:149-151 | the inner loop deletes exactly the code points of `range(start, end + 1)`, and nothing else |
| EncodingUtils.SanitizeForXml | backend/utils/encoding_utils.py:140-153 | the nested loops compute the escaped text with every listed invalid code point deleted |
| EncodingUtils.RangesAreInvalidChars | backend/utils/encoding_utils.py:143-147 | the union of the seven ranges the loops walk (each with its last code point) is exactly the set of deleted characters |
| EncodingUtils.XmlEscape | backend/utils/encoding_utils.py:140 | `html.escape(text, quote=False)`, character by character; `EscapedWithoutShape` and `EscapeKeeps` state its promises |
| EncodingUtils.AmpersandsConcat | backend/utils/encoding_utils.py:140 | well-escaped pieces concatenate to well-escaped text |
| EncodingUtils.EscapedWithoutShape | backend/utils/encoding_utils.py:140-151 | escaped text without the deleted characters has no '<' or '>', and every '&' starts "&amp;", "&lt;" or "&gt;" |
| EncodingUtils.EscapeKeeps | backend/utils/encoding_utils.py:140 | escaping keeps every character other than '&', '<' and '>' |
| EncodingUtils.SanitizedShape | backend/utils/encoding_utils.py:140-153 | the sanitised text has no '<' or '>', its ampersands start entities, it has no invalid character, and every other input character survives |
| EncodingUtils.LayoutCharactersSurvive | backend/utils/encoding_utils.py:143-147 | TAB, LF, CR and NEL are not in the deleted ranges |
| ParserAgent.Extension | backend/agents/parser_agent.py:65 | `splitext`'s extension is empty or starts with '.', ends the path, and holds no other '.' or '/' |
| ParserAgent.ExtensionOfName | backend/agents/parser_agent.py:65 | a file name with an extension, in any directory, has exactly that extension |
| ParserAgent.LeadingDotsNoExtension | backend/agents/parser_agent.py:65 | a name of leading dots and one word (".bashrc") has no extension |
| ParserAgent.FileFormat | backend/agents/parser_agent.py:65-75 | the lower-cased extension ".docx" selects DOCX and ".pdf" selects PDF; anything else is "Unsupported file format: <ext>" |
| ParserAgent.FileFormatIgnoresCase | backend/agents/parser_agent.py:65-75 | dispatch ignores the case of the extension, and an unsupported name's error names its lower-cased extension |
| ParserAgent.CleanText | backend/agents/parser_agent.py:190-198 | "" maps to ""; the result is trimmed and no longer than the input |
| ParserAgent.CleanTextChars | backend/agents/parser_agent.py:196-198 | cleaned text is encodable and free of removable control characters |
| ParserAgent.CleanTextIdempotent | backend/agents/parser_agent.py:190-198 | cleaning twice equals cleaning once |
| ParserAgent.NonBlankCleansToEmpty | backend/agents/parser_agent.py:122-124 | a non-blank paragraph of control characters still cleans to the empty string |
| ParserAgent.Inches | backend/agents/parser_agent.py:111-114 | an absent or zero margin is reported as None; any other margin is its length in inches |
| ParserAgent.DocxMargins | backend/agents/parser_agent.py:109-116 | one margin entry per section, in order |
| ParserAgent.DocxRawContent | backend/agents/parser_agent.py:121-124 | at most one entry per paragraph |
| ParserAgent.DocxRawContentConcat | backend/agents/parser_agent.py:121-124 | the raw content is built paragraph by paragraph, in document order |
| ParserAgent.DocxRawContentOne | backend/agents/parser_agent.py:122-124 | a non-blank paragraph contributes its cleaned text and a blank one nothing |
| ParserAgent.DocxRawContentTrimmed | backend/agents/parser_agent.py:121-124 | every entry is trimmed; there are no entries exactly when every paragraph is blank |
| ParserAgent.FontOf | backend/agents/parser_agent.py:122-128 | only a non-blank paragraph with a non-empty style font name adds a font |
| ParserAgent.DocxFonts | backend/agents/parser_agent.py:104-131 | the fonts the paragraphs add, in order of first appearance; `DocxFontsDistinct` and `DocxFontsMembers` state what it holds, and "## Left out" admits the order |
| ParserAgent.DocxFontsDistinct | backend/agents/parser_agent.py:104-131 | the font list has no duplicates |
| ParserAgent.DocxFontsMembers | backend/agents/parser_agent.py:122-131 | the font list holds exactly the fonts some paragraph adds |
| ParserAgent.DocxParse | backend/agents/parser_agent.py:77-140 | the dictionary `_parse_docx` returns; `ParseDocx` is proved equal to it and `DocxParseShape` and `ParsedTextHoldsParagraphs` state its promises |
| ParserAgent.ParseDocx | backend/agents/parser_agent.py:98-140 | the section loop and the paragraph loop compute exactly `DocxParse` |
| ParserAgent.DocxParseShape | backend/agents/parser_agent.py:102-140 | the text is the raw content joined by newlines; the page count is the section count and the margin count |
| ParserAgent.PdfRawContent | backend/agents/parser_agent.py:173-176 | one entry per page |
| ParserAgent.PdfRawContentAt | backend/agents/parser_agent.py:174 | entry i is the cleaned text of page i, with no text read as "" |
| ParserAgent.PdfParse | backend/agents/parser_agent.py:146-184 | the dictionary `_parse_pdf` returns; `ParsePdf` is proved equal to it and `PdfParseShape` states its promises |
| ParserAgent.ParsePdf | backend/agents/parser_agent.py:163-184 | the page loop computes exactly `PdfParse` |
| ParserAgent.PdfParseShape | backend/agents/parser_agent.py:167-176 | entry count equals page count equals `page_count`; a page without text gives an empty, trimmed entry |
| ParserAgent.JoinHoldsParts | backend/agents/parser_agent.py:136-140 | every part of a newline-joined text appears in it at its offset |
| ParserAgent.ParseFile | backend/agents/parser_agent.py:61-75 | an unsupported extension raises its error; a .docx path gives the DOCX parse of the loaded document and a .pdf path the PDF parse of the loaded file (their shapes are the lemmas `DocxParseShape` and `PdfParseShape`); a loader's error propagates unchanged |
| ParserAgent.ParsedTextHoldsParagraphs | backend/agents/parser_agent.py:172-184 | each raw paragraph of a parsed resume is trimmed and appears in the text at its offset |
| JdAgent.StripFences | backend/agents/jd_agent.py:104-109 | the text after a "```json" fence up to the next "```", else between plain fences, else the reply; `StripFencesShape` and the fence-payload lemmas state its promises |
| JdAgent.StripFencesShape | backend/agents/jd_agent.py:104-112 | a reply without fences passes through; after a fence, the payload holds no fence and is a piece of the reply |
| JdAgent.JsonFencePayload | backend/agents/jd_agent.py:104-106 | the payload between "```json" and the next "```" is kept |
| JdAgent.JsonFenceToEnd | backend/agents/jd_agent.py:104-106 | an unclosed "```json" payload runs to the end |
| JdAgent.PlainFencePayload | backend/agents/jd_agent.py:107-109 | the payload between two plain fences is kept |
| JdAgent.PlainFenceToEnd | backend/agents/jd_agent.py:107-109 | an unclosed plain fence's payload runs to the end |
| JdAgent.AnalyzeJd | backend/agents/jd_agent.py:92-138 | a failed call gives the general fallback and a decoding failure the parse-error fallback. A decoded dictionary whose skills and keywords can be logged is returned as decoded; any other decoded value gives the general fallback. It never raises |
| JdAgent.Fallback | backend/agents/jd_agent.py:124-137 | the fallback dictionary with the given summary; `FallbackShape` and `FallbacksDistinct` state its shape |
| JdAgent.Loggable | backend/agents/jd_agent.py:115-116 | the success log line can take `len` of the skills and keywords entries: each is absent or has a length; `AnalyzeJd` returns a decoded dictionary only when it holds |
| JdAgent.FallbackShape | backend/agents/jd_agent.py:124-137 | a fallback has empty skills and keywords, a null experience and its fixed summary |
| JdAgent.FallbacksDistinct | backend/agents/jd_agent.py:124-138 | the two fallbacks differ, in their summaries |
| JdAgent.AnalyzeJdFencedObject | backend/agents/jd_agent.py:100-118 | a loggable dictionary inside a "```json" fence is returned as decoded |
| MemoryUtils.Chunks | backend/utils/memory_utils.py:132-133 | every chunk is non-empty and holds at most `chunk_size` items |
| MemoryUtils.ChunkList | backend/utils/memory_utils.py:119-133 | a zero size raises, a negative size yields nothing, and a positive size yields the chunks |
| MemoryUtils.ChunksFlatten | backend/utils/memory_utils.py:132-133 | the chunks concatenate back to the list |
| MemoryUtils.ChunksFull | backend/utils/memory_utils.py:132-133 | every chunk but the last holds exactly `chunk_size` items |
| MemoryUtils.ChunksCount | backend/utils/memory_utils.py:132 | there are ceil(len/chunk_size) chunks, none for an empty list |
| MemoryUtils.ChunksBounds | backend/utils/memory_utils.py:132 | the chunk count c satisfies (c-1)·size < len ≤ c·size |
| MemoryUtils.ChunksAt | backend/utils/memory_utils.py:132-133 | chunk k is the slice `items[k*size:(k+1)*size]` |
| MemoryUtils.ChunkListPartition | backend/utils/memory_utils.py:132-133 | with a positive size, no item is lost and the count is the ceiling |
| DuplicateDetection.WordSet | backend/utils/duplicate_detection.py:121-122 | the set of lower-cased words of a text; `WordSetEmpty` states when it is empty |
| DuplicateDetection.TextSimilarity | backend/utils/duplicate_detection.py:121-134 | the similarity lies in [0,1] |
| DuplicateDetection.SimilaritySymmetric | backend/utils/duplicate_detection.py:121-132 | the similarity is symmetric |
| DuplicateDetection.WordSetEmpty | backend/utils/duplicate_detection.py:121-122 | a text has no words exactly when it is blank |
| DuplicateDetection.SimilarityBlank | backend/utils/duplicate_detection.py:124-127 | two blank texts give 1.0; a blank and a non-blank text give 0.0 |
| DuplicateDetection.SimilarityOne | backend/utils/duplicate_detection.py:121-132 | the similarity is 1.0 exactly when the word sets are equal, whatever the case, order or repetition |
| DuplicateDetection.SimilarityZero | backend/utils/duplicate_detection.py:130-132 | for texts with words, the similarity is 0.0 exactly when they share no word |
| DuplicateDetection.NormalizeContent | backend/utils/duplicate_detection.py:57 | the lower-cased words joined by single spaces; the three `NormalizeContent` lemmas and `SameNormalFormSameWords` state its promises |
| DuplicateDetection.NormalizeContentIdempotent | backend/utils/duplicate_detection.py:57 | the normal form is trimmed, and normalising it again changes nothing |
| DuplicateDetection.NormalizeContentIgnoresCase | backend/utils/duplicate_detection.py:57 | upper and lower case normalise alike |
| DuplicateDetection.NormalizeContentIgnoresSpacing | backend/utils/duplicate_detection.py:57 | any run of whitespace normalises like one space |
| DuplicateDetection.SameNormalFormSameWords | backend/utils/duplicate_detection.py:119-132 | texts with the same normal form, and so the same content hash, have the same words and similarity 1.0 |

## Left out

- Logging everywhere. Log lines have no effect on results, except where a log line can raise. In `analyze_jd` that is modelled by `JdAgent.Loggable`.
- `PartialFailure.ValidateBatchResults` and `TimeoutUtils.SafeTimeoutCall`: validators and called functions are assumed to have a `__name__`. Their log lines read it (partial_failure.py lines 183 and 186, timeout_utils.py lines 181 and 184). For a callable without one, such as a `functools.partial` or a callable object, the handler's own log line raises `AttributeError`. The source then raises where the model gives `false` or the fallback value.
- Loading and saving files, and the libraries behind them: python-docx, pypdf, ollama and `json`. Each is a parameter of the model: a loader, a chat function or a decoder returning a result or an error. `reconstruct_docx` works on a document already in memory. Its re-raise of a load or save error is not modelled.
- `detect_encoding` and `simulate_layout`. The first reads a file through chardet, and its answer is unused by `parse_file`. The second is a floating-point width estimate.
- The signal mechanics of `timeout`, `TimeoutContext` and `async_timeout`, and the platform path without SIGALRM. A timed call is an outcome: a value, a timeout or another exception. The alarm is a schedule of which attempts it interrupts.
- The wording of the rewrite and job-description prompts. The language model is a function of the prompt's ingredients, so it answers the same prompt the same way.
- `extract_keywords_from_bullet`'s regular expression. Its result enters the model as a set of words given with the bullet.
- `str.lower()` beyond ASCII letters (`PyStr.Lower`). Unicode case mapping is not modelled, so `NewKeywords`, `DuplicateDetection.WordSet`, `NormalizeContent` and `ParserAgent.FileFormat` are exact only for texts whose letters are ASCII. For `FileFormat` only the error message is affected: no non-ASCII character lower-cases into a letter of ".docx" or ".pdf", but an extension such as ".DOCÄ" is named ".docÄ" where Python names ".docä".
- `RewriteAgent.BatchRewrite`: `get_summary` in `batch_rewrite` only feeds log lines and is left out.
- `PartialFailure.ValidateBatchResults`: validators are pure functions returning a verdict, so the stop after the first failing validator cannot be observed in the result. What it leaves out is which validators are never called.
- Hyperlink runs and other paragraph content python-docx keeps outside `runs`. A paragraph's text is the concatenation of its runs' texts.
- `ParserAgent.DocxFonts`: the order of the fonts list is Python's set iteration order. The model lists fonts in order of first appearance and proves the properties that do not depend on order.
- Margin lengths are whole EMU counts. Their conversion to inches is exact real division, not floating point.
- `PartialFailure.SuccessRate` (and the `success_rate` field of `PartialFailure.Summarize`) and `DuplicateDetection.TextSimilarity` are exact `real` ratios. Python computes them as floating-point divisions, so the model has no rounding.
- SHA-256 digests, file hashing, database queries (`check_duplicate_file`, `find_similar_resumes`, `DuplicateDetector`), memory probes and file streaming. Only the text normalisation before hashing is modelled.
- HTTP routing, temporary files, persistence and the PDF converter.
- `MemoryUtils.ChunkList`: a zero `chunk_size` makes the generator raise when iteration starts, not when it is created. The model returns the error as the result.
- Behaviour some tests expect but the code lacks: keyword extraction in the job-description fallback, and endpoints absent from the routing module. The model follows the code.
