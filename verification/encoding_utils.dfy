/**
 * Text normalisation helpers of the backend (backend/utils/encoding_utils.py):
 * replacing what UTF-8 cannot encode, dropping control characters,
 * normalising whitespace and making text safe inside DOCX XML.
 */
module EncodingUtils {
  import opened PyStr

  const QUESTION_MARK: CodePoint := 0x3F
  const NBSP: CodePoint := 0xA0
  const ZERO_WIDTH_SPACE: CodePoint := 0x200B
  const AMPERSAND: CodePoint := 0x26
  const LESS_THAN: CodePoint := 0x3C
  const GREATER_THAN: CodePoint := 0x3E

  // ---------------------------------------------------------------- safe_encode_text

  /** UTF-8 encodes every code point except the surrogates. */
  predicate Encodable(c: CodePoint) {
    !(0xD800 <= c <= 0xDFFF)
  }

  predicate AllEncodable(s: Str) {
    forall i :: 0 <= i < |s| ==> Encodable(s[i])
  }

  /**
   * `safe_encode_text`: the text itself when it encodes as UTF-8; otherwise the
   * round trip through `encode('utf-8', errors='replace')`, which turns each
   * unencodable code point into '?'.
   */
  function SafeEncodeText(text: Str): (r: Str)
    ensures |r| == |text|
    ensures forall i :: 0 <= i < |text| ==>
              r[i] == if Encodable(text[i]) then text[i] else QUESTION_MARK
    ensures AllEncodable(r)
  {
    if AllEncodable(text) then text
    else seq(|text|, i requires 0 <= i < |text| => if Encodable(text[i]) then text[i] else QUESTION_MARK)
  }

  /** Encodable text passes through unchanged, and a second pass changes nothing. */
  lemma SafeEncodeIdentity(text: Str)
    ensures AllEncodable(text) <==> SafeEncodeText(text) == text
    ensures SafeEncodeText(SafeEncodeText(text)) == SafeEncodeText(text)
  {
    if SafeEncodeText(text) == text {
      assert AllEncodable(text);
    }
  }

  /** `handle_rtl_text`: right-to-left text only needs the encoding pass. */
  function HandleRtlText(text: Str): (r: Str)
    ensures |r| == |text| && AllEncodable(r)
    ensures AllEncodable(text) ==> r == text
    ensures forall i :: 0 <= i < |text| && !Encodable(text[i]) ==> r[i] == QUESTION_MARK
  {
    SafeEncodeText(text)
  }

  // ---------------------------------------------------------------- strip_control_characters

  /**
   * The characters `strip_control_characters` keeps: those in `string.printable`
   * (which holds \t \n \x0b \x0c \r among the controls), \n \r \t, and every
   * code point from 32 up.
   */
  predicate KeptByStrip(c: CodePoint) {
    c >= 0x20 || 0x09 <= c <= 0x0D
  }

  /** `strip_control_characters`: the characters of `text` that are kept, in order. */
  function StripControlCharacters(text: Str): (r: Str)
    ensures |r| <= |text|
    ensures forall i :: 0 <= i < |r| ==> KeptByStrip(r[i])
  {
    if text == [] then []
    else (if KeptByStrip(text[0]) then [text[0]] else []) + StripControlCharacters(text[1..])
  }

  /** Exactly the removable control characters go: every other character keeps its count. */
  lemma {:induction false} StripControlCounts(text: Str, c: CodePoint)
    ensures multiset(StripControlCharacters(text))[c] == if KeptByStrip(c) then multiset(text)[c] else 0
    decreases |text|
  {
    if text != [] {
      StripControlCounts(text[1..], c);
      assert text == [text[0]] + text[1..];
    }
  }

  /** Stripping works character by character, so it keeps the order of what it keeps. */
  lemma {:induction false} StripControlConcat(a: Str, b: Str)
    ensures StripControlCharacters(a + b) == StripControlCharacters(a) + StripControlCharacters(b)
    decreases |a|
  {
    if a != [] {
      assert (a + b)[1..] == a[1..] + b;
      StripControlConcat(a[1..], b);
    } else {
      assert a + b == b;
    }
  }

  /** Text without removable control characters is left unchanged. */
  lemma {:induction false} StripControlIdentity(text: Str)
    requires forall i :: 0 <= i < |text| ==> KeptByStrip(text[i])
    ensures StripControlCharacters(text) == text
    decreases |text|
  {
    if text != [] {
      StripControlIdentity(text[1..]);
    }
  }

  /** `strip_control_characters` is idempotent. */
  lemma StripControlIdempotent(text: Str)
    ensures StripControlCharacters(StripControlCharacters(text)) == StripControlCharacters(text)
  {
    StripControlIdentity(StripControlCharacters(text));
  }

  // ---------------------------------------------------------------- normalize_whitespace

  predicate NoDoubleSpace(s: Str) {
    forall i :: 0 <= i < |s| - 1 ==> !(s[i] == SPACE && s[i + 1] == SPACE)
  }

  predicate NoTripleNewline(s: Str) {
    forall i :: 0 <= i < |s| - 2 ==> !(s[i] == NEWLINE && s[i + 1] == NEWLINE && s[i + 2] == NEWLINE)
  }

  /** `s.replace(chr(a), chr(b))`. */
  function ReplaceChar(s: Str, a: CodePoint, b: CodePoint): (r: Str)
    ensures |r| == |s|
    ensures forall i :: 0 <= i < |s| ==> r[i] == if s[i] == a then b else s[i]
  {
    seq(|s|, i requires 0 <= i < |s| => if s[i] == a then b else s[i])
  }

  /** `s` without the code points in `gone`, in order: repeated `s.replace(chr(c), '')`. */
  function Without(s: Str, gone: set<int>): (r: Str)
    ensures |r| <= |s|
    ensures forall i :: 0 <= i < |r| ==> r[i] !in gone
  {
    if s == [] then []
    else (if s[0] in gone then [] else [s[0]]) + Without(s[1..], gone)
  }

  /** Deleting characters never brings in a character that was not there. */
  lemma {:induction false} WithoutAbsent(s: Str, gone: set<int>, c: CodePoint)
    requires c !in s
    ensures c !in Without(s, gone)
    decreases |s|
  {
    if s != [] {
      WithoutAbsent(s[1..], gone, c);
    }
  }

  /** A character that is not deleted survives. */
  lemma {:induction false} WithoutPresent(s: Str, gone: set<int>, c: CodePoint)
    requires c in s && c !in gone
    ensures c in Without(s, gone)
    decreases |s|
  {
    if s[0] != c {
      WithoutPresent(s[1..], gone, c);
    }
  }

  /** Deleting characters that do not occur changes nothing. */
  lemma {:induction false} WithoutKeeps(s: Str, gone: set<int>)
    requires forall i :: 0 <= i < |s| ==> s[i] !in gone
    ensures Without(s, gone) == s
    decreases |s|
  {
    if s != [] {
      WithoutKeeps(s[1..], gone);
    }
  }

  /** `re.sub(r' +', ' ', s)`: each run of spaces becomes a single space. */
  function CollapseSpaces(s: Str): (r: Str)
    ensures s != [] ==> r != [] && r[0] == s[0]
    ensures NoDoubleSpace(r)
    decreases |s|
  {
    if s == [] then []
    else if |s| >= 2 && s[0] == SPACE && s[1] == SPACE then CollapseSpaces(s[1..])
    else [s[0]] + CollapseSpaces(s[1..])
  }

  lemma {:induction false} CollapseSpacesAbsent(s: Str, c: CodePoint)
    requires c !in s
    ensures c !in CollapseSpaces(s)
    decreases |s|
  {
    if s != [] {
      CollapseSpacesAbsent(s[1..], c);
    }
  }

  /** Text without a doubled space is left unchanged. */
  lemma {:induction false} CollapseSpacesIdentity(s: Str)
    requires NoDoubleSpace(s)
    ensures CollapseSpaces(s) == s
    decreases |s|
  {
    if s != [] {
      CollapseSpacesIdentity(s[1..]);
      assert s == [s[0]] + s[1..];
    }
  }

  /** `re.sub(r'\n\n+', '\n\n', s)`: each run of two or more newlines becomes exactly two. */
  function CollapseNewlines(s: Str): (r: Str)
    ensures |r| <= |s|
    ensures s != [] ==> r != [] && r[0] == s[0]
    ensures |s| >= 2 && s[1] != NEWLINE ==> |r| >= 2 && r[1] == s[1]
    ensures NoTripleNewline(r)
    ensures NoDoubleSpace(s) ==> NoDoubleSpace(r)
    decreases |s|
  {
    if s == [] then []
    else if |s| >= 3 && s[0] == NEWLINE && s[1] == NEWLINE && s[2] == NEWLINE then CollapseNewlines(s[1..])
    else [s[0]] + CollapseNewlines(s[1..])
  }

  lemma {:induction false} CollapseNewlinesAbsent(s: Str, c: CodePoint)
    requires c !in s
    ensures c !in CollapseNewlines(s)
    decreases |s|
  {
    if s != [] {
      CollapseNewlinesAbsent(s[1..], c);
    }
  }

  /** Text without three newlines in a row is left unchanged. */
  lemma {:induction false} CollapseNewlinesIdentity(s: Str)
    requires NoTripleNewline(s)
    ensures CollapseNewlines(s) == s
    decreases |s|
  {
    if s != [] {
      CollapseNewlinesIdentity(s[1..]);
      assert s == [s[0]] + s[1..];
    }
  }

  /**
   * `normalize_whitespace`: non-breaking spaces become spaces, zero-width spaces
   * go, runs of spaces and of blank lines shrink, and the ends are stripped.
   */
  function NormalizeWhitespace(text: Str): (r: Str)
    ensures NBSP !in r && ZERO_WIDTH_SPACE !in r
    ensures NoDoubleSpace(r)
    ensures NoTripleNewline(r)
    ensures Trimmed(r)
  {
    var noNbsp := ReplaceChar(text, NBSP, SPACE);
    var noZws := Without(noNbsp, {ZERO_WIDTH_SPACE});
    var newlines := CollapseNewlines(CollapseSpaces(noZws));
    NormalizeSteps(noNbsp, noZws);
    Strip(newlines)
  }

  lemma NormalizeSteps(noNbsp: Str, noZws: Str)
    requires NBSP !in noNbsp && noZws == Without(noNbsp, {ZERO_WIDTH_SPACE})
    ensures var newlines := CollapseNewlines(CollapseSpaces(noZws));
      var r := Strip(newlines);
      NBSP !in r && ZERO_WIDTH_SPACE !in r && NoDoubleSpace(r) && NoTripleNewline(r)
  {
    WithoutAbsent(noNbsp, {ZERO_WIDTH_SPACE}, NBSP);
    CollapseSteps(noZws);
    var newlines := CollapseNewlines(CollapseSpaces(noZws));
    var lo := |newlines| - |LStrip(newlines)|;
    var r := Strip(newlines);
    assert r == newlines[lo..][..|r|];
    SliceKeeps(newlines, lo, |r|);
  }

  /** The two collapsing passes leave no NBSP or zero-width space where there was none, and no runs. */
  lemma CollapseSteps(noZws: Str)
    requires NBSP !in noZws && ZERO_WIDTH_SPACE !in noZws
    ensures var newlines := CollapseNewlines(CollapseSpaces(noZws));
      NBSP !in newlines && ZERO_WIDTH_SPACE !in newlines && NoDoubleSpace(newlines) && NoTripleNewline(newlines)
  {
    var spaces := CollapseSpaces(noZws);
    CollapseSpacesAbsent(noZws, NBSP);
    CollapseSpacesAbsent(noZws, ZERO_WIDTH_SPACE);
    CollapseNewlinesAbsent(spaces, NBSP);
    CollapseNewlinesAbsent(spaces, ZERO_WIDTH_SPACE);
  }


  /** A slice keeps the absence of the patterns above. */
  lemma SliceKeeps(s: Str, lo: nat, n: nat)
    requires lo + n <= |s|
    ensures NoDoubleSpace(s) ==> NoDoubleSpace(s[lo..][..n])
    ensures NoTripleNewline(s) ==> NoTripleNewline(s[lo..][..n])
    ensures forall c :: c !in s ==> c !in s[lo..][..n]
  {
    var t := s[lo..][..n];
    assert forall i :: 0 <= i < |t| ==> t[i] == s[lo + i];
  }

  /** `normalize_whitespace` is idempotent: every step is the identity on its own output. */
  lemma NormalizeWhitespaceIdempotent(text: Str)
    ensures NormalizeWhitespace(NormalizeWhitespace(text)) == NormalizeWhitespace(text)
  {
    var u := NormalizeWhitespace(text);
    NormalizedFixed(u);
  }

  /** Text with the four properties is a fixed point of every step. */
  lemma NormalizedFixed(u: Str)
    requires NBSP !in u && ZERO_WIDTH_SPACE !in u && NoDoubleSpace(u) && NoTripleNewline(u) && Trimmed(u)
    ensures Strip(CollapseNewlines(CollapseSpaces(Without(ReplaceChar(u, NBSP, SPACE), {ZERO_WIDTH_SPACE})))) == u
  {
    ReplaceAbsent(u, NBSP, SPACE);
    WithoutKeeps(u, {ZERO_WIDTH_SPACE});
    CollapseSpacesIdentity(u);
    CollapseNewlinesIdentity(u);
    StripTrimmed(u);
  }

  lemma ReplaceAbsent(s: Str, a: CodePoint, b: CodePoint)
    requires a !in s
    ensures ReplaceChar(s, a, b) == s
  {
  }

  /** Whitespace and the zero-width space: the characters `normalize_whitespace` may drop. */
  predicate Spacing(c: CodePoint) {
    IsSpace(c) || c == ZERO_WIDTH_SPACE
  }

  /** The characters of `s` that are not spacing, in order. */
  function Visible(s: Str): (r: Str)
    ensures forall i :: 0 <= i < |r| ==> !Spacing(r[i])
  {
    if s == [] then []
    else (if Spacing(s[0]) then [] else [s[0]]) + Visible(s[1..])
  }

  /**
   * `normalize_whitespace` only ever changes spacing: the other characters of
   * the text all survive, in order, and none is added.
   */
  lemma NormalizeKeepsVisible(text: Str)
    ensures Visible(NormalizeWhitespace(text)) == Visible(text)
  {
    var noNbsp := ReplaceChar(text, NBSP, SPACE);
    var noZws := Without(noNbsp, {ZERO_WIDTH_SPACE});
    var spaces := CollapseSpaces(noZws);
    var newlines := CollapseNewlines(spaces);
    VisibleReplace(text);
    VisibleWithout(noNbsp);
    VisibleCollapseSpaces(noZws);
    VisibleCollapseNewlines(spaces);
    VisibleStrip(newlines);
  }

  lemma {:induction false} VisibleConcat(x: Str, y: Str)
    ensures Visible(x + y) == Visible(x) + Visible(y)
    decreases |x|
  {
    if x == [] {
      assert x + y == y;
    } else {
      assert (x + y)[1..] == x[1..] + y;
      VisibleConcat(x[1..], y);
    }
  }

  lemma {:induction false} VisibleAllSpace(s: Str)
    requires AllSpace(s)
    ensures Visible(s) == []
    decreases |s|
  {
    if s != [] {
      VisibleAllSpace(s[1..]);
    }
  }

  lemma {:induction false} VisibleReplace(s: Str)
    ensures Visible(ReplaceChar(s, NBSP, SPACE)) == Visible(s)
    decreases |s|
  {
    if s != [] {
      var t := ReplaceChar(s, NBSP, SPACE);
      assert t[1..] == ReplaceChar(s[1..], NBSP, SPACE);
      VisibleReplace(s[1..]);
    }
  }

  lemma {:induction false} VisibleWithout(s: Str)
    ensures Visible(Without(s, {ZERO_WIDTH_SPACE})) == Visible(s)
    decreases |s|
  {
    if s != [] {
      VisibleWithout(s[1..]);
      VisibleConcat(if s[0] == ZERO_WIDTH_SPACE then [] else [s[0]], Without(s[1..], {ZERO_WIDTH_SPACE}));
    }
  }

  lemma {:induction false} VisibleCollapseSpaces(s: Str)
    ensures Visible(CollapseSpaces(s)) == Visible(s)
    decreases |s|
  {
    if s != [] {
      VisibleCollapseSpaces(s[1..]);
      if !(|s| >= 2 && s[0] == SPACE && s[1] == SPACE) {
        VisibleConcat([s[0]], CollapseSpaces(s[1..]));
      }
    }
  }

  lemma {:induction false} VisibleCollapseNewlines(s: Str)
    ensures Visible(CollapseNewlines(s)) == Visible(s)
    decreases |s|
  {
    if s != [] {
      VisibleCollapseNewlines(s[1..]);
      if !(|s| >= 3 && s[0] == NEWLINE && s[1] == NEWLINE && s[2] == NEWLINE) {
        VisibleConcat([s[0]], CollapseNewlines(s[1..]));
      }
    }
  }

  /** Stripping removes whitespace only. */
  lemma VisibleStrip(s: Str)
    ensures Visible(Strip(s)) == Visible(s)
  {
    var l := LStrip(s);
    assert Strip(s) == RStrip(l);
    VisibleLStrip(s, l);
    VisibleRStrip(l, RStrip(l));
  }

  lemma VisibleLStrip(s: Str, l: Str)
    requires l == LStrip(s)
    ensures Visible(l) == Visible(s)
  {
    var pre := s[..|s| - |l|];
    assert s == pre + l;
    VisibleConcat(pre, l);
    VisibleAllSpace(pre);
  }

  lemma VisibleRStrip(l: Str, r: Str)
    requires r == RStrip(l)
    ensures Visible(r) == Visible(l)
  {
    var post := l[|r|..];
    assert l == r + post;
    VisibleConcat(r, post);
    VisibleAllSpace(post);
  }


  // ---------------------------------------------------------------- sanitize_for_xml

  /** `html.escape(c, quote=False)` for one character. */
  function EscapeChar(c: CodePoint): Str {
    if c == AMPERSAND then AMP_ENTITY
    else if c == LESS_THAN then LT_ENTITY
    else if c == GREATER_THAN then GT_ENTITY
    else [c]
  }

  /** "&amp;", "&lt;" and "&gt;". */
  const AMP_ENTITY: Str := [AMPERSAND, 0x61, 0x6D, 0x70, 0x3B]
  const LT_ENTITY: Str := [AMPERSAND, 0x6C, 0x74, 0x3B]
  const GT_ENTITY: Str := [AMPERSAND, 0x67, 0x74, 0x3B]

  /** The characters the three entities are made of. */
  const ENTITY_CHARS: set<int> := {AMPERSAND, 0x61, 0x6D, 0x70, 0x3B, 0x6C, 0x74, 0x67}

  /**
   * `html.escape(s, quote=False)`: '&' first, then '<' and '>', which is the same
   * as escaping each character on its own.
   */
  function XmlEscape(s: Str): Str {
    if s == [] then [] else EscapeChar(s[0]) + XmlEscape(s[1..])
  }

  /** The code point ranges `sanitize_for_xml` deletes, as (first, last) pairs. */
  const INVALID_XML_RANGES: seq<(int, int)> :=
    [(0x00, 0x08), (0x0B, 0x0C), (0x0E, 0x1F), (0x7F, 0x84), (0x86, 0x9F), (0xFDD0, 0xFDDF), (0xFFFE, 0xFFFF)]

  /** The integers `lo <= c < hi`. */
  function Interval(lo: int, hi: int): (r: set<int>)
    ensures forall c :: c in r <==> lo <= c < hi
    decreases hi - lo
  {
    if lo >= hi then {} else {lo} + Interval(lo + 1, hi)
  }

  /** An interval that starts where it ends is empty; one more code point extends it by that point. */
  lemma IntervalStep(lo: int, hi: int)
    requires lo <= hi
    ensures Interval(lo, lo) == {}
    ensures Interval(lo, hi) + {hi} == Interval(lo, hi + 1)
  {
  }


  /** The code points of the first `k` ranges. */
  function RangesUpTo(k: nat): set<int>
    requires k <= |INVALID_XML_RANGES|
  {
    if k == 0 then {}
    else RangesUpTo(k - 1) + Interval(INVALID_XML_RANGES[k - 1].0, INVALID_XML_RANGES[k - 1].1 + 1)
  }

  /** A code point that `sanitize_for_xml` deletes. */
  predicate InvalidXmlChar(c: CodePoint) {
    || 0x00 <= c <= 0x08 || 0x0B <= c <= 0x0C || 0x0E <= c <= 0x1F
    || 0x7F <= c <= 0x84 || 0x86 <= c <= 0x9F
    || 0xFDD0 <= c <= 0xFDDF || 0xFFFE <= c <= 0xFFFF
  }

  lemma {:induction false} WithoutTwice(s: Str, a: set<int>, b: set<int>)
    ensures Without(Without(s, a), b) == Without(s, a + b)
    decreases |s|
  {
    if s != [] {
      WithoutTwice(s[1..], a, b);
      var head := if s[0] in a then [] else [s[0]];
      WithoutConcat(head, Without(s[1..], a), b);
    }
  }

  lemma {:induction false} WithoutConcat(x: Str, y: Str, gone: set<int>)
    ensures Without(x + y, gone) == Without(x, gone) + Without(y, gone)
    decreases |x|
  {
    if x == [] {
      assert x + y == y;
    } else {
      assert (x + y)[1..] == x[1..] + y;
      WithoutConcat(x[1..], y, gone);
    }
  }

  /**
   * `sanitize_for_xml`: escape, then delete each code point of each invalid
   * range in turn.
   */
  method SanitizeForXml(input: Str) returns (text: Str)
    ensures text == Without(XmlEscape(input), RangesUpTo(|INVALID_XML_RANGES|))
  {
    var escaped := XmlEscape(input);
    text := escaped;
    WithoutKeeps(escaped, {});
    var k := 0;
    while k < |INVALID_XML_RANGES|
      invariant 0 <= k <= |INVALID_XML_RANGES|
      invariant text == Without(escaped, RangesUpTo(k))
    {
      var first := INVALID_XML_RANGES[k].0;
      var last := INVALID_XML_RANGES[k].1;
      WithoutTwice(escaped, RangesUpTo(k), Interval(first, last + 1));
      text := DeleteRange(text, first, last);
      k := k + 1;
    }
  }

  /** The inner loop of `sanitize_for_xml`: deletes every code point of `range(first, last + 1)`. */
  method DeleteRange(s: Str, first: int, last: int) returns (t: Str)
    ensures t == Without(s, Interval(first, last + 1))
  {
    t := s;
    WithoutKeeps(s, {});
    IntervalStep(first, first);
    var code := first;
    while code <= last
      invariant first <= code && (code <= last + 1 || code == first)
      invariant t == Without(s, Interval(first, code))
    {
      WithoutTwice(s, Interval(first, code), {code});
      IntervalStep(first, code);
      t := Without(t, {code});
      code := code + 1;
    }
    if code != last + 1 {
      assert code == first && Interval(first, last + 1) == {};
    }
  }



  /** The deleted set is exactly the invalid XML 1.0 code points. */
  lemma RangesAreInvalidChars(c: CodePoint)
    ensures c in RangesUpTo(|INVALID_XML_RANGES|) <==> InvalidXmlChar(c)
  {
    assert c in RangesUpTo(1) <==> 0x00 <= c <= 0x08;
    assert c in RangesUpTo(2) <==> c in RangesUpTo(1) || 0x0B <= c <= 0x0C;
    assert c in RangesUpTo(3) <==> c in RangesUpTo(2) || 0x0E <= c <= 0x1F;
    assert c in RangesUpTo(4) <==> c in RangesUpTo(3) || 0x7F <= c <= 0x84;
    assert c in RangesUpTo(5) <==> c in RangesUpTo(4) || 0x86 <= c <= 0x9F;
    assert c in RangesUpTo(6) <==> c in RangesUpTo(5) || 0xFDD0 <= c <= 0xFDDF;
    assert c in RangesUpTo(7) <==> c in RangesUpTo(6) || 0xFFFE <= c <= 0xFFFF;
  }

  /** Every '&' of `s` starts one of the three entities `html.escape` produces. */
  predicate AmpersandsEscaped(s: Str) {
    forall i :: 0 <= i < |s| && s[i] == AMPERSAND ==> StartsEntity(s[i..])
  }

  predicate StartsEntity(s: Str) {
    || (|s| >= 5 && s[..5] == AMP_ENTITY)
    || (|s| >= 4 && s[..4] == LT_ENTITY)
    || (|s| >= 4 && s[..4] == GT_ENTITY)
  }

  lemma AmpersandsConcat(x: Str, y: Str)
    requires AmpersandsEscaped(x) && AmpersandsEscaped(y)
    ensures AmpersandsEscaped(x + y)
  {
    var s := x + y;
    forall i | 0 <= i < |s| && s[i] == AMPERSAND
      ensures StartsEntity(s[i..])
    {
      if i < |x| {
        assert StartsEntity(x[i..]);
        assert s[i..] == x[i..] + y;
      } else {
        assert s[i..] == y[i - |x|..];
      }
    }
  }

  /** The escaped text with some non-entity characters deleted has no '<' or '>' and no bare '&'. */
  lemma {:induction false} EscapedWithoutShape(s: Str, gone: set<int>)
    requires ENTITY_CHARS !! gone
    ensures LESS_THAN !in Without(XmlEscape(s), gone) && GREATER_THAN !in Without(XmlEscape(s), gone)
    ensures AmpersandsEscaped(Without(XmlEscape(s), gone))
    decreases |s|
  {
    if s != [] {
      EscapedWithoutShape(s[1..], gone);
      var head := EscapeChar(s[0]);
      var tail := Without(XmlEscape(s[1..]), gone);
      WithoutConcat(head, XmlEscape(s[1..]), gone);
      var h := Without(head, gone);
      EscapeCharShape(s[0], gone);
      AmpersandsConcat(h, tail);
    }
  }

  /** One escaped character, with non-entity characters deleted, has no '<' or '>' and no bare '&'. */
  lemma EscapeCharShape(c: CodePoint, gone: set<int>)
    requires ENTITY_CHARS !! gone
    ensures var h := Without(EscapeChar(c), gone);
      AmpersandsEscaped(h) && LESS_THAN !in h && GREATER_THAN !in h
  {
    if c == AMPERSAND {
      EntityShape(AMP_ENTITY, gone);
    } else if c == LESS_THAN {
      EntityShape(LT_ENTITY, gone);
    } else if c == GREATER_THAN {
      EntityShape(GT_ENTITY, gone);
    } else {
      assert Without([c], gone) == (if c in gone then [] else [c]) + Without([], gone);
    }
  }

  /** An entity survives the deletion whole, and its only '&' starts it. */
  lemma EntityShape(e: Str, gone: set<int>)
    requires |e| > 0 && StartsEntity(e)
    requires forall i :: 0 <= i < |e| ==> e[i] in ENTITY_CHARS
    requires forall i :: 1 <= i < |e| ==> e[i] != AMPERSAND
    requires ENTITY_CHARS !! gone
    ensures Without(e, gone) == e && AmpersandsEscaped(e) && LESS_THAN !in e && GREATER_THAN !in e
  {
    WithoutKeeps(e, gone);
    assert e[0..] == e;
  }



  lemma {:induction false} EscapeKeeps(s: Str, c: CodePoint)
    requires c in s && c != AMPERSAND && c != LESS_THAN && c != GREATER_THAN
    ensures c in XmlEscape(s)
    decreases |s|
  {
    if s[0] == c {
      assert XmlEscape(s) == [c] + XmlEscape(s[1..]);
    } else {
      EscapeKeeps(s[1..], c);
    }
  }

  /**
   * What `sanitize_for_xml` promises: no '<' or '>', every '&' starts an entity,
   * no invalid XML character, and every other character of the input (TAB, LF,
   * CR and 0x85 among them) is still present.
   */
  lemma SanitizedShape(input: Str, c: CodePoint)
    ensures var r := Without(XmlEscape(input), RangesUpTo(|INVALID_XML_RANGES|));
      && LESS_THAN !in r && GREATER_THAN !in r
      && AmpersandsEscaped(r)
      && (InvalidXmlChar(c) ==> c !in r)
      && (c in input && !InvalidXmlChar(c) && c != AMPERSAND && c != LESS_THAN && c != GREATER_THAN ==> c in r)
  {
    var gone := RangesUpTo(|INVALID_XML_RANGES|);
    forall d | d in ENTITY_CHARS ensures d !in gone {
      RangesAreInvalidChars(d);
    }
    EscapedWithoutShape(input, gone);
    RangesAreInvalidChars(c);
    if c in input && !InvalidXmlChar(c) && c != AMPERSAND && c != LESS_THAN && c != GREATER_THAN {
      EscapeKeeps(input, c);
      WithoutPresent(XmlEscape(input), gone, c);
    }
  }

  /** TAB, LF, CR and NEL are not deleted. */
  lemma LayoutCharactersSurvive()
    ensures !InvalidXmlChar(0x09) && !InvalidXmlChar(0x0A) && !InvalidXmlChar(0x0D) && !InvalidXmlChar(0x85)
  {
  }
}
