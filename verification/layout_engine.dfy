/**
 * The layout engine: the length check every rewritten bullet must pass, and
 * the write-back of accepted rewrites into the paragraphs of a DOCX document.
 *
 * A document is a sequence of paragraphs, a paragraph a sequence of runs, and
 * a run a piece of text with its formatting. Loading and saving the file are
 * not modelled: `ReconstructDocx` works on a document already in memory.
 */
module LayoutEngine {
  import opened Wrappers
  import opened PyStr
  import opened Sets

  // ---------------------------------------------------------------- validate_constraints

  /** `validate_constraints`: the proposed text fits the character budget. */
  function ValidateConstraints(originalText: Str, newText: Str, maxChars: int): (valid: bool)
    ensures valid <==> |newText| <= maxChars
  {
    |newText| <= maxChars
  }

  /** The original text plays no part in the decision. */
  lemma ValidateIgnoresOriginal(a: Str, b: Str, newText: Str, maxChars: int)
    ensures ValidateConstraints(a, newText, maxChars) == ValidateConstraints(b, newText, maxChars)
  {
  }

  /** An identity edit passes exactly when the text already fits. */
  lemma ValidateIdentity(text: Str, maxChars: int)
    ensures ValidateConstraints(text, text, maxChars) <==> |text| <= maxChars
  {
  }

  /** A text that fits a budget fits every larger budget, and any prefix of it fits too. */
  lemma ValidateMonotone(originalText: Str, newText: Str, maxChars: int, larger: int, k: nat)
    requires ValidateConstraints(originalText, newText, maxChars)
    requires maxChars <= larger && k <= |newText|
    ensures ValidateConstraints(originalText, newText, larger)
    ensures ValidateConstraints(originalText, newText[..k], maxChars)
  {
  }

  // ---------------------------------------------------------------- document model

  /** The formatting of a run; the write-back never changes it. */
  datatype RunFormat = RunFormat(fontName: Option<Str>, fontSize: Option<int>, bold: bool, italic: bool)

  /** A run python-docx creates when text is assigned to a paragraph without runs. */
  const DEFAULT_FORMAT: RunFormat := RunFormat(None, None, false, false)

  datatype Run = Run(text: Str, format: RunFormat)

  datatype Paragraph = Paragraph(runs: seq<Run>)

  /** The text of a sequence of runs: their texts, concatenated. */
  function RunsText(runs: seq<Run>): Str {
    if runs == [] then [] else runs[0].text + RunsText(runs[1..])
  }

  /** `para.text`. */
  function ParagraphText(p: Paragraph): Str {
    RunsText(p.runs)
  }

  /** Runs whose texts are all empty contribute nothing to the paragraph text. */
  lemma {:induction false} RunsTextEmpty(runs: seq<Run>)
    requires forall j :: 0 <= j < |runs| ==> runs[j].text == []
    ensures RunsText(runs) == []
    decreases |runs|
  {
    if runs != [] {
      RunsTextEmpty(runs[1..]);
    }
  }

  /**
   * The replacement of one matched paragraph: the first run gets the new text
   * and every later run is emptied; a paragraph without runs gets one new run.
   */
  function PatchParagraph(p: Paragraph, newText: Str): (q: Paragraph)
    ensures ParagraphText(q) == newText
    ensures |p.runs| > 0 ==> |q.runs| == |p.runs|
    ensures |p.runs| > 0 ==> forall j :: 0 <= j < |q.runs| ==> q.runs[j].format == p.runs[j].format
    ensures |p.runs| > 0 ==> q.runs[0].text == newText
    ensures forall j :: 1 <= j < |q.runs| ==> q.runs[j].text == []
    ensures |p.runs| == 0 ==> q.runs == [Run(newText, DEFAULT_FORMAT)]
  {
    if |p.runs| > 0 then
      var rest := seq(|p.runs| - 1, j requires 0 <= j < |p.runs| - 1 => p.runs[j + 1].(text := []));
      var q := Paragraph([p.runs[0].(text := newText)] + rest);
      assert q.runs[1..] == rest;
      RunsTextEmpty(rest);
      assert RunsText(q.runs) == newText + RunsText(rest);
      q
    else
      var q := Paragraph([Run(newText, DEFAULT_FORMAT)]);
      assert RunsText(q.runs) == newText + RunsText([]);
      q
  }

  /** A paragraph is replaced when its whole text is a key of the map. */
  predicate Matches(p: Paragraph, replacements: map<Str, Str>) {
    ParagraphText(p) in replacements
  }

  /**
   * The document after the write-back: every matched paragraph patched with
   * the value of its own text, every other paragraph as it was.
   */
  function Patched(paras: seq<Paragraph>, replacements: map<Str, Str>): (r: seq<Paragraph>)
    ensures |r| == |paras|
    ensures forall i :: 0 <= i < |paras| && !Matches(paras[i], replacements) ==> r[i] == paras[i]
    ensures forall i :: 0 <= i < |paras| && Matches(paras[i], replacements) ==>
      ParagraphText(r[i]) == replacements[ParagraphText(paras[i])]
  {
    seq(|paras|, i requires 0 <= i < |paras| =>
      if Matches(paras[i], replacements) then PatchParagraph(paras[i], replacements[ParagraphText(paras[i])])
      else paras[i])
  }

  /** The number of matched paragraphs. */
  function MatchCount(paras: seq<Paragraph>, replacements: map<Str, Str>): nat {
    if paras == [] then 0
    else MatchCount(paras[..|paras| - 1], replacements) + (if Matches(paras[|paras| - 1], replacements) then 1 else 0)
  }

  /** The distinct keys that matched some paragraph. */
  function MatchedKeys(paras: seq<Paragraph>, replacements: map<Str, Str>): (r: set<Str>)
    ensures forall k :: k in r ==> k in replacements
  {
    if paras == [] then {}
    else
      var last := paras[|paras| - 1];
      MatchedKeys(paras[..|paras| - 1], replacements) + (if Matches(last, replacements) then {ParagraphText(last)} else {})
  }

  // ---------------------------------------------------------------- reconstruct_docx

  /** A DOCX document loaded in memory; the write-back changes its paragraphs in place. */
  class Document {
    var paragraphs: seq<Paragraph>

    constructor (paragraphs: seq<Paragraph>)
      ensures this.paragraphs == paragraphs
    {
      this.paragraphs := paragraphs;
    }
  }

  /**
   * The run loop of `reconstruct_docx` for one matched paragraph: the new text
   * goes into run 0, each later run is emptied in turn, and a paragraph without
   * runs gets its text through a fresh run.
   */
  method PatchRuns(para: Paragraph, newText: Str) returns (q: Paragraph)
    ensures q == PatchParagraph(para, newText)
  {
    var runs := para.runs;
    if |runs| > 0 {
      runs := runs[0 := runs[0].(text := newText)];
      var j := 1;
      while j < |runs|
        invariant 1 <= j <= |runs| == |para.runs|
        invariant runs[0] == para.runs[0].(text := newText)
        invariant forall k :: 1 <= k < j ==> runs[k] == para.runs[k].(text := [])
        invariant forall k :: j <= k < |runs| ==> runs[k] == para.runs[k]
      {
        runs := runs[j := runs[j].(text := [])];
        j := j + 1;
      }
    } else {
      runs := [Run(newText, DEFAULT_FORMAT)];
    }
    q := Paragraph(runs);
  }

  /**
   * The body of `reconstruct_docx`: one pass over the paragraphs in order,
   * patching each matched one, and counting the matches.
   */
  method ReconstructDocx(doc: Document, replacements: map<Str, Str>) returns (applied: nat)
    modifies doc
    ensures doc.paragraphs == Patched(old(doc.paragraphs), replacements)
    ensures applied == MatchCount(old(doc.paragraphs), replacements)
  {
    ghost var original := doc.paragraphs;
    ghost var target := Patched(original, replacements);
    applied := 0;
    var i := 0;
    while i < |doc.paragraphs|
      invariant 0 <= i <= |original| == |doc.paragraphs|
      invariant forall k :: 0 <= k < i ==> doc.paragraphs[k] == target[k]
      invariant forall k :: i <= k < |original| ==> doc.paragraphs[k] == original[k]
      invariant applied == MatchCount(original[..i], replacements)
    {
      var para := doc.paragraphs[i];
      assert original[..i + 1][..i] == original[..i];
      if ParagraphText(para) in replacements {
        var q := PatchRuns(para, replacements[ParagraphText(para)]);
        doc.paragraphs := doc.paragraphs[i := q];
        applied := applied + 1;
      }
      i := i + 1;
    }
    assert original[..i] == original;
  }

  // ---------------------------------------------------------------- properties of the write-back

  /** A matched paragraph keeps its run count and every run's formatting. */
  lemma PatchedKeepsFormatting(paras: seq<Paragraph>, replacements: map<Str, Str>, i: nat, j: nat)
    requires i < |paras| && j < |paras[i].runs|
    ensures var r := Patched(paras, replacements);
      |r[i].runs| == |paras[i].runs| && r[i].runs[j].format == paras[i].runs[j].format
  {
  }

  /** The count of applied replacements never exceeds the number of paragraphs. */
  lemma {:induction false} MatchCountBound(paras: seq<Paragraph>, replacements: map<Str, Str>)
    ensures MatchCount(paras, replacements) <= |paras|
    decreases |paras|
  {
    if paras != [] {
      MatchCountBound(paras[..|paras| - 1], replacements);
    }
  }

  /** Repeated paragraph texts are counted once per paragraph. */
  lemma {:induction false} MatchCountDistinctKeys(paras: seq<Paragraph>, replacements: map<Str, Str>)
    ensures |MatchedKeys(paras, replacements)| <= MatchCount(paras, replacements)
    decreases |paras|
  {
    if paras != [] {
      MatchCountDistinctKeys(paras[..|paras| - 1], replacements);
    }
  }

  /** Every key equal to some paragraph's text is among the matched keys. */
  lemma {:induction false} MatchedKeysComplete(paras: seq<Paragraph>, replacements: map<Str, Str>, i: nat)
    requires i < |paras| && Matches(paras[i], replacements)
    ensures ParagraphText(paras[i]) in MatchedKeys(paras, replacements)
    decreases |paras|
  {
    if i < |paras| - 1 {
      MatchedKeysComplete(paras[..|paras| - 1], replacements, i);
    }
  }

  /**
   * When fewer replacements were applied than there are keys (the case that
   * logs a warning), some key equals the text of no paragraph.
   */
  lemma UnappliedKeyExists(paras: seq<Paragraph>, replacements: map<Str, Str>)
    requires MatchCount(paras, replacements) < |replacements|
    ensures exists k :: k in replacements && forall i :: 0 <= i < |paras| ==> ParagraphText(paras[i]) != k
  {
    var matched := MatchedKeys(paras, replacements);
    MatchCountDistinctKeys(paras, replacements);
    if forall k :: k in replacements ==> k in matched {
      assert replacements.Keys <= matched;
      SubsetCard(replacements.Keys, matched);
      assert false;
    } else {
      var k :| k in replacements && k !in matched;
      forall i | 0 <= i < |paras| ensures ParagraphText(paras[i]) != k {
        if ParagraphText(paras[i]) == k {
          MatchedKeysComplete(paras, replacements, i);
        }
      }
    }
  }
}
