/**
 * The resume parser: choosing the DOCX or PDF path from the file extension,
 * cleaning each paragraph or page of text, and assembling the parsed result
 * (joined text, raw paragraphs in order, layout metadata).
 *
 * Opening a file with python-docx or pypdf is not modelled: a loader is a
 * function from the path to the loaded document or the error it raised, and
 * a loaded document is its sequence of sections and paragraphs, or of pages.
 */
module ParserAgent {
  import opened Wrappers
  import opened PyStr
  import opened EncodingUtils
  import opened LayoutEngine

  const SLASH: CodePoint := 0x2F

  // ---------------------------------------------------------------- os.path.splitext

  /**
   * `os.path.splitext(path)[1]` on POSIX: the text from the last '.' on, when
   * that '.' lies in the last path component and is not one of the dots a
   * file name starts with; otherwise the empty string.
   */
  function Extension(path: Str): (ext: Str)
    ensures ext == [] || (ext[0] == PERIOD && |ext| <= |path| && ext == path[|path| - |ext|..])
    ensures forall j :: 1 <= j < |ext| ==> ext[j] != PERIOD && ext[j] != SLASH
  {
    match LastIndexOf(path, PERIOD)
    case None => []
    case Some(dot) =>
      var nameStart := match LastIndexOf(path, SLASH) case None => 0 case Some(s) => s + 1;
      if nameStart <= dot && exists j :: nameStart <= j < dot && path[j] != PERIOD then path[dot..] else []
  }

  /** A file name with an extension, in any directory, has exactly that extension. */
  lemma ExtensionOfName(dir: Str, name: Str, ext: Str)
    requires dir == [] || dir[|dir| - 1] == SLASH
    requires forall j :: 0 <= j < |name| ==> name[j] != SLASH
    requires exists j :: 0 <= j < |name| && name[j] != PERIOD
    requires |ext| >= 1 && ext[0] == PERIOD
    requires forall j :: 1 <= j < |ext| ==> ext[j] != PERIOD && ext[j] != SLASH
    ensures Extension(dir + name + ext) == ext
  {
    var path := dir + name + ext;
    var dot := |dir| + |name|;
    assert path[dot] == PERIOD;
    assert forall j :: dot < j < |path| ==> path[j] == ext[j - dot];
    var lastDot := LastIndexOf(path, PERIOD);
    assert lastDot == Some(dot);
    var j :| 0 <= j < |name| && name[j] != PERIOD;
    assert path[|dir| + j] == name[j];
    match LastIndexOf(path, SLASH)
    case None =>
    case Some(s) =>
      assert forall k :: |dir| <= k < |path| ==> path[k] != SLASH by {
        forall k | |dir| <= k < |path| ensures path[k] != SLASH {
          if k < dot {
            assert path[k] == name[k - |dir|];
          } else if k > dot {
            assert path[k] == ext[k - dot];
          }
        }
      }
      assert s < |dir|;
    assert path[dot..] == ext;
  }

  /** A name made of leading dots and one word, such as ".bashrc", has no extension. */
  lemma LeadingDotsNoExtension(dir: Str, dots: Str, word: Str)
    requires dir == [] || dir[|dir| - 1] == SLASH
    requires forall j :: 0 <= j < |dots| ==> dots[j] == PERIOD
    requires forall j :: 0 <= j < |word| ==> word[j] != PERIOD && word[j] != SLASH
    ensures Extension(dir + dots + word) == []
  {
    var path := dir + dots + word;
    assert path == dir + (dots + word);
    NameStartIsDir(dir, dots + word);
    match LastIndexOf(path, PERIOD)
    case None =>
    case Some(dot) =>
      assert forall k :: |dir| + |dots| <= k < |path| ==> path[k] == word[k - |dir| - |dots|];
      assert dot < |dir| + |dots|;
      assert forall k :: |dir| <= k < |dir| + |dots| ==> path[k] == dots[k - |dir|];
  }

  /** Under a directory prefix ending in '/', the file name starts right after it. */
  lemma NameStartIsDir(dir: Str, name: Str)
    requires dir == [] || dir[|dir| - 1] == SLASH
    requires forall j :: 0 <= j < |name| ==> name[j] != SLASH
    ensures (match LastIndexOf(dir + name, SLASH) case None => 0 case Some(s) => s + 1) == |dir|
  {
    var path := dir + name;
    assert forall k :: |dir| <= k < |path| ==> path[k] == name[k - |dir|];
    if |dir| > 0 {
      assert path[|dir| - 1] == SLASH;
    }
  }


  // ---------------------------------------------------------------- parse_file dispatch

  datatype Format = Docx | Pdf

  const DOCX_EXT: Str := [PERIOD, 0x64, 0x6F, 0x63, 0x78]
  const PDF_EXT: Str := [PERIOD, 0x70, 0x64, 0x66]

  function UnsupportedFormat(ext: Str): Str {
    Lit("Unsupported file format: ") + ext
  }

  /** The dispatch of `parse_file` on the lower-cased extension; anything else is a `ValueError`. */
  function FileFormat(path: Str): (r: Result<Format, Str>)
    ensures r == Ok(Docx) <==> Lower(Extension(path)) == DOCX_EXT
    ensures r == Ok(Pdf) <==> Lower(Extension(path)) == PDF_EXT
    ensures r.Err? <==> Lower(Extension(path)) != DOCX_EXT && Lower(Extension(path)) != PDF_EXT
    ensures r.Err? ==> r.error == UnsupportedFormat(Lower(Extension(path)))
  {
    var ext := Lower(Extension(path));
    if ext == DOCX_EXT then Ok(Docx)
    else if ext == PDF_EXT then Ok(Pdf)
    else Err(UnsupportedFormat(ext))
  }

  /** The dispatch ignores the case of the extension: "CV.DOCX" is a DOCX file. */
  lemma FileFormatIgnoresCase(dir: Str, name: Str, ext: Str)
    requires dir == [] || dir[|dir| - 1] == SLASH
    requires forall j :: 0 <= j < |name| ==> name[j] != SLASH
    requires exists j :: 0 <= j < |name| && name[j] != PERIOD
    requires |ext| >= 1 && ext[0] == PERIOD
    requires forall j :: 1 <= j < |ext| ==> ext[j] != PERIOD && ext[j] != SLASH
    ensures Lower(ext) == DOCX_EXT ==> FileFormat(dir + name + ext) == Ok(Docx)
    ensures Lower(ext) == PDF_EXT ==> FileFormat(dir + name + ext) == Ok(Pdf)
    ensures Lower(ext) != DOCX_EXT && Lower(ext) != PDF_EXT ==>
      FileFormat(dir + name + ext) == Err(UnsupportedFormat(Lower(ext)))
  {
    ExtensionOfName(dir, name, ext);
  }

  // ---------------------------------------------------------------- _clean_text

  /** `_clean_text`: the encoding pass, then control-character removal, then `strip()`. */
  function CleanText(text: Str): (r: Str)
    ensures text == [] ==> r == []
    ensures |r| <= |text|
    ensures Trimmed(r)
  {
    if text == [] then [] else Strip(StripControlCharacters(SafeEncodeText(text)))
  }

  /** Every character the stripping keeps comes from its input. */
  lemma StripControlFrom(text: Str, i: nat)
    requires i < |StripControlCharacters(text)|
    ensures StripControlCharacters(text)[i] in text
  {
    var r := StripControlCharacters(text);
    StripControlCounts(text, r[i]);
    assert r[i] in multiset(r);
  }

  /** Stripping control characters from encodable text leaves it encodable. */
  lemma StripControlEncodable(e: Str)
    requires AllEncodable(e)
    ensures AllEncodable(StripControlCharacters(e))
  {
    var s := StripControlCharacters(e);
    forall i | 0 <= i < |s| ensures Encodable(s[i]) {
      StripControlFrom(e, i);
      var j :| 0 <= j < |e| && e[j] == s[i];
    }
  }

  /** A slice of encodable text free of removable controls is both as well. */
  lemma SliceChars(s: Str, lo: nat, n: nat)
    requires lo + n <= |s|
    requires AllEncodable(s) && forall i :: 0 <= i < |s| ==> KeptByStrip(s[i])
    ensures AllEncodable(s[lo..][..n]) && forall i :: 0 <= i < n ==> KeptByStrip(s[lo..][..n][i])
  {
    forall i | 0 <= i < n ensures Encodable(s[lo..][..n][i]) && KeptByStrip(s[lo..][..n][i]) {
      assert s[lo..][..n][i] == s[lo + i];
    }
  }

  /** Cleaned text is encodable and free of the removable control characters. */
  lemma CleanTextChars(text: Str)
    ensures AllEncodable(CleanText(text))
    ensures forall i :: 0 <= i < |CleanText(text)| ==> KeptByStrip(CleanText(text)[i])
  {
    if text != [] {
      var e := SafeEncodeText(text);
      var s := StripControlCharacters(e);
      var r := Strip(s);
      var off := |s| - |LStrip(s)|;
      StripControlEncodable(e);
      SliceChars(s, off, |r|);
    }
  }

  /** Cleaning a cleaned text changes nothing. */
  lemma CleanTextIdempotent(text: Str)
    ensures CleanText(CleanText(text)) == CleanText(text)
  {
    var r := CleanText(text);
    if r != [] {
      CleanTextChars(text);
      SafeEncodeIdentity(r);
      StripControlIdentity(r);
      StripTrimmed(r);
    }
  }

  /** The stripping removes every character of a text made only of removable controls. */
  lemma {:induction false} StripControlAllRemoved(text: Str)
    requires forall i :: 0 <= i < |text| ==> !KeptByStrip(text[i])
    ensures StripControlCharacters(text) == []
    decreases |text|
  {
    if text != [] {
      StripControlAllRemoved(text[1..]);
    }
  }

  /**
   * A paragraph that is not blank can still clean to the empty string: one
   * made only of control characters below TAB, for instance.
   */
  lemma NonBlankCleansToEmpty(text: Str)
    requires text != [] && forall i :: 0 <= i < |text| ==> text[i] < 0x09
    ensures !AllSpace(text) && CleanText(text) == []
  {
    assert !IsSpace(text[0]);
    var e := SafeEncodeText(text);
    assert forall i :: 0 <= i < |e| ==> e[i] == text[i];
    StripControlAllRemoved(e);
  }

  // ---------------------------------------------------------------- documents

  /** A section's page margins as python-docx lengths in EMU, or absent. */
  datatype Section = Section(topMargin: Option<int>, bottomMargin: Option<int>, leftMargin: Option<int>, rightMargin: Option<int>)

  /** One entry of the `margins` metadata list, in inches. */
  datatype MarginData = MarginData(top: Option<real>, bottom: Option<real>, left: Option<real>, right: Option<real>)

  const EMU_PER_INCH: int := 914400

  /**
   * `length.inches if length else None`: a python-docx length is an `int`, so
   * a zero margin is falsy and reported as `None` like an absent one.
   */
  function Inches(length: Option<int>): (r: Option<real>)
    ensures r.None? <==> length.None? || length.value == 0
    ensures r.Some? ==> r.value * EMU_PER_INCH as real == length.value as real
  {
    match length
    case None => None
    case Some(emu) => if emu == 0 then None else Some(emu as real / EMU_PER_INCH as real)
  }

  function SectionMargins(s: Section): MarginData {
    MarginData(Inches(s.topMargin), Inches(s.bottomMargin), Inches(s.leftMargin), Inches(s.rightMargin))
  }

  /** A DOCX paragraph: its runs, and the font name of its style when the style has one. */
  datatype DocxParagraph = DocxParagraph(body: Paragraph, styleFont: Option<Str>)

  datatype DocxFile = DocxFile(sections: seq<Section>, paragraphs: seq<DocxParagraph>)

  /** A PDF file as its pages, each with the text `extract_text()` returned, or `None`. */
  datatype PdfFile = PdfFile(pages: seq<Option<Str>>)

  datatype Metadata =
    | DocxMetadata(pageCount: nat, margins: seq<MarginData>, fonts: seq<Str>)
    | PdfMetadata(pageCount: nat, marginsNote: Str)

  datatype ParsedResume = ParsedResume(text: Str, metadata: Metadata, rawContent: seq<Str>)

  /** The text of a parsed resume: its raw paragraphs joined by newlines. */
  function JoinLines(rawContent: seq<Str>): Str {
    Join([NEWLINE], rawContent)
  }

  // ---------------------------------------------------------------- _parse_docx

  /** `para.text.strip()` is truthy. */
  predicate NonBlank(p: DocxParagraph) {
    !AllSpace(ParagraphText(p.body))
  }

  /** The `text_content` list of `_parse_docx`: the cleaned text of each non-blank paragraph. */
  function DocxRawContent(paras: seq<DocxParagraph>): (r: seq<Str>)
    ensures |r| <= |paras|
  {
    if paras == [] then []
    else
      var last := paras[|paras| - 1];
      DocxRawContent(paras[..|paras| - 1]) + (if NonBlank(last) then [CleanText(ParagraphText(last.body))] else [])
  }

  /** The font a paragraph adds to the set: a non-empty style font name of a non-blank paragraph. */
  function FontOf(p: DocxParagraph): (r: Option<Str>)
    ensures r.Some? <==> NonBlank(p) && p.styleFont.Some? && p.styleFont.value != []
    ensures r.Some? ==> r == p.styleFont
  {
    if NonBlank(p) && p.styleFont.Some? && p.styleFont.value != [] then p.styleFont else None
  }

  /** The font set of `_parse_docx`, listed in order of first appearance. */
  function DocxFonts(paras: seq<DocxParagraph>): seq<Str> {
    if paras == [] then []
    else
      var fonts := DocxFonts(paras[..|paras| - 1]);
      match FontOf(paras[|paras| - 1])
      case Some(f) => if f in fonts then fonts else fonts + [f]
      case None => fonts
  }

  function DocxMargins(sections: seq<Section>): (r: seq<MarginData>)
    ensures |r| == |sections|
    ensures forall i :: 0 <= i < |sections| ==> r[i] == SectionMargins(sections[i])
  {
    seq(|sections|, i requires 0 <= i < |sections| => SectionMargins(sections[i]))
  }

  /** The dictionary `_parse_docx` returns. */
  function DocxParse(file: DocxFile): ParsedResume {
    var raw := DocxRawContent(file.paragraphs);
    ParsedResume(JoinLines(raw), DocxMetadata(|file.sections|, DocxMargins(file.sections), DocxFonts(file.paragraphs)), raw)
  }

  /** One more paragraph: its cleaned text and its font, if any, are appended. */
  lemma DocxStep(paras: seq<DocxParagraph>, i: nat)
    requires i < |paras|
    ensures DocxRawContent(paras[..i + 1])
      == DocxRawContent(paras[..i]) + (if NonBlank(paras[i]) then [CleanText(ParagraphText(paras[i].body))] else [])
    ensures DocxFonts(paras[..i + 1])
      == match FontOf(paras[i])
         case Some(f) => if f in DocxFonts(paras[..i]) then DocxFonts(paras[..i]) else DocxFonts(paras[..i]) + [f]
         case None => DocxFonts(paras[..i])
  {
    assert paras[..i + 1][..i] == paras[..i];
  }

  /** The two loops of `_parse_docx`: margins per section, then text and fonts per paragraph. */
  method ParseDocx(file: DocxFile) returns (parsed: ParsedResume)
    ensures parsed == DocxParse(file)
  {
    var margins: seq<MarginData> := [];
    var s := 0;
    while s < |file.sections|
      invariant 0 <= s <= |file.sections|
      invariant margins == DocxMargins(file.sections[..s])
    {
      margins := margins + [SectionMargins(file.sections[s])];
      s := s + 1;
    }
    assert file.sections[..s] == file.sections;

    var paras := file.paragraphs;
    var textContent: seq<Str> := [];
    var fonts: seq<Str> := [];
    var i := 0;
    while i < |paras|
      invariant 0 <= i <= |paras|
      invariant textContent == DocxRawContent(paras[..i])
      invariant fonts == DocxFonts(paras[..i])
    {
      var para := paras[i];
      DocxStep(paras, i);
      var text := ParagraphText(para.body);
      if !AllSpace(text) {
        textContent := textContent + [CleanText(text)];
        if para.styleFont.Some? && para.styleFont.value != [] && para.styleFont.value !in fonts {
          fonts := fonts + [para.styleFont.value];
        }
      }
      i := i + 1;
    }
    assert paras[..i] == paras;
    parsed := ParsedResume(JoinLines(textContent), DocxMetadata(|file.sections|, margins, fonts), textContent);
  }

  /**
   * The raw content works paragraph by paragraph: a non-blank paragraph gives
   * its cleaned text, a blank one nothing, and the order is the document's.
   */
  lemma {:induction false} DocxRawContentConcat(a: seq<DocxParagraph>, b: seq<DocxParagraph>)
    ensures DocxRawContent(a + b) == DocxRawContent(a) + DocxRawContent(b)
    decreases |b|
  {
    if b == [] {
      assert a + b == a;
    } else {
      assert (a + b)[..|a + b| - 1] == a + b[..|b| - 1];
      DocxRawContentConcat(a, b[..|b| - 1]);
    }
  }

  lemma DocxRawContentOne(p: DocxParagraph)
    ensures DocxRawContent([p]) == if NonBlank(p) then [CleanText(ParagraphText(p.body))] else []
  {
    assert [p][..0] == [];
  }

  /** Every raw entry is trimmed; there is one per non-blank paragraph, so none when all are blank. */
  lemma DocxRawContentTrimmed(paras: seq<DocxParagraph>)
    ensures forall i :: 0 <= i < |DocxRawContent(paras)| ==> Trimmed(DocxRawContent(paras)[i])
    ensures (forall i :: 0 <= i < |paras| ==> !NonBlank(paras[i])) <==> DocxRawContent(paras) == []
  {
    RawEntriesTrimmed(paras);
    RawContentEmpty(paras);
  }

  lemma {:induction false} RawEntriesTrimmed(paras: seq<DocxParagraph>)
    ensures forall i :: 0 <= i < |DocxRawContent(paras)| ==> Trimmed(DocxRawContent(paras)[i])
    decreases |paras|
  {
    if paras != [] {
      var init := paras[..|paras| - 1];
      var last := paras[|paras| - 1];
      RawEntriesTrimmed(init);
      var a := DocxRawContent(init);
      var r := DocxRawContent(paras);
      assert r == a + (if NonBlank(last) then [CleanText(ParagraphText(last.body))] else []);
      forall i | 0 <= i < |r| ensures Trimmed(r[i]) {
        if i < |a| {
          assert r[i] == a[i];
        }
      }
    }
  }

  lemma {:induction false} RawContentEmpty(paras: seq<DocxParagraph>)
    ensures (forall i :: 0 <= i < |paras| ==> !NonBlank(paras[i])) <==> DocxRawContent(paras) == []
    decreases |paras|
  {
    if paras != [] {
      var init := paras[..|paras| - 1];
      var last := paras[|paras| - 1];
      RawContentEmpty(init);
      assert DocxRawContent(paras) == DocxRawContent(init) + (if NonBlank(last) then [CleanText(ParagraphText(last.body))] else []);
      if NonBlank(last) {
        assert |DocxRawContent(paras)| > 0;
        assert NonBlank(paras[|paras| - 1]);
      } else {
        assert forall i :: 0 <= i < |init| ==> init[i] == paras[i];
        assert (forall i :: 0 <= i < |paras| ==> !NonBlank(paras[i])) <==> (forall i :: 0 <= i < |init| ==> !NonBlank(init[i]));
      }
    }
  }

  /** The font list has no duplicates. */
  lemma {:induction false} DocxFontsDistinct(paras: seq<DocxParagraph>)
    ensures forall i, j :: 0 <= i < j < |DocxFonts(paras)| ==> DocxFonts(paras)[i] != DocxFonts(paras)[j]
    decreases |paras|
  {
    if paras != [] {
      DocxFontsDistinct(paras[..|paras| - 1]);
    }
  }

  /** The font list holds exactly the fonts of the paragraphs that add one. */
  lemma {:induction false} DocxFontsMembers(paras: seq<DocxParagraph>, f: Str)
    ensures f in DocxFonts(paras) <==> exists i :: 0 <= i < |paras| && FontOf(paras[i]) == Some(f)
    decreases |paras|
  {
    if paras != [] {
      var init := paras[..|paras| - 1];
      DocxFontsMembers(init, f);
      if exists i :: 0 <= i < |init| && FontOf(init[i]) == Some(f) {
        var i :| 0 <= i < |init| && FontOf(init[i]) == Some(f);
        assert FontOf(paras[i]) == Some(f);
      }
      if exists i :: 0 <= i < |paras| && FontOf(paras[i]) == Some(f) {
        var i :| 0 <= i < |paras| && FontOf(paras[i]) == Some(f);
        if i < |init| {
          assert FontOf(init[i]) == Some(f);
        }
      }
    }
  }

  /** The DOCX metadata: one margin entry per section, and the section count as the page count. */
  lemma DocxParseShape(file: DocxFile)
    ensures var parsed := DocxParse(file);
      && parsed.text == JoinLines(parsed.rawContent)
      && parsed.metadata.DocxMetadata?
      && parsed.metadata.pageCount == |file.sections| == |parsed.metadata.margins|
      && |parsed.rawContent| <= |file.paragraphs|
  {
  }

  // ---------------------------------------------------------------- _parse_pdf

  /** `page.extract_text() or ""`. */
  function PageText(page: Option<Str>): Str {
    match page
    case None => []
    case Some(t) => t
  }

  const PDF_MARGINS_NOTE: Str := Lit("Unknown (PDF)")

  /** The `text_content` list of `_parse_pdf`: the cleaned text of every page. */
  function PdfRawContent(pages: seq<Option<Str>>): (r: seq<Str>)
    ensures |r| == |pages|
  {
    if pages == [] then []
    else PdfRawContent(pages[..|pages| - 1]) + [CleanText(PageText(pages[|pages| - 1]))]
  }

  /** Entry `i` of the PDF raw content is the cleaned text of page `i`. */
  lemma {:induction false} PdfRawContentAt(pages: seq<Option<Str>>, i: nat)
    requires i < |pages|
    ensures PdfRawContent(pages)[i] == CleanText(PageText(pages[i]))
    decreases |pages|
  {
    if i < |pages| - 1 {
      PdfRawContentAt(pages[..|pages| - 1], i);
    }
  }

  /** The dictionary `_parse_pdf` returns. */
  function PdfParse(file: PdfFile): ParsedResume {
    var raw := PdfRawContent(file.pages);
    ParsedResume(JoinLines(raw), PdfMetadata(|file.pages|, PDF_MARGINS_NOTE), raw)
  }

  /** The page loop of `_parse_pdf`: every page gives one entry, empty pages included. */
  method ParsePdf(file: PdfFile) returns (parsed: ParsedResume)
    ensures parsed == PdfParse(file)
  {
    var textContent: seq<Str> := [];
    var i := 0;
    while i < |file.pages|
      invariant 0 <= i <= |file.pages|
      invariant textContent == PdfRawContent(file.pages[..i])
    {
      var pageText := CleanText(PageText(file.pages[i]));
      textContent := textContent + [pageText];
      assert file.pages[..i + 1][..i] == file.pages[..i];
      i := i + 1;
    }
    assert file.pages[..i] == file.pages;
    parsed := ParsedResume(JoinLines(textContent), PdfMetadata(|file.pages|, PDF_MARGINS_NOTE), textContent);
  }

  /** A page without text gives an empty entry, so the page count and the entry count agree. */
  lemma PdfParseShape(file: PdfFile, i: nat)
    requires i < |file.pages|
    ensures var parsed := PdfParse(file);
      && |parsed.rawContent| == |file.pages| == parsed.metadata.pageCount
      && (file.pages[i].None? ==> parsed.rawContent[i] == [])
      && Trimmed(parsed.rawContent[i])
  {
    PdfRawContentAt(file.pages, i);
  }

  // ---------------------------------------------------------------- the joined text

  /** Every part of a joined text appears in it, at the offset its predecessors and separators fill. */
  lemma {:induction false} JoinHoldsParts(sep: Str, parts: seq<Str>, i: nat)
    requires i < |parts|
    ensures OccursAt(Join(sep, parts), parts[i], TotalLength(parts[..i]) + i * |sep|)
    decreases |parts|
  {
    if i == 0 {
      assert parts[..0] == [];
      JoinHoldsFirst(sep, parts);
    } else {
      var tail := parts[1..];
      JoinHoldsParts(sep, tail, i - 1);
      var off := TotalLength(tail[..i - 1]) + (i - 1) * |sep|;
      PrefixLength(parts, i);
      StepOffset(|sep|, i);
      assert tail[i - 1] == parts[i];
      assert Join(sep, parts) == (parts[0] + sep) + Join(sep, tail);
      SliceShift(parts[0] + sep, Join(sep, tail), off, |parts[i]|);
    }
  }

  /** `JoinHoldsParts` for newline-joined lines, where each separator adds one. */
  lemma JoinLinesHoldsParts(text: Str, lines: seq<Str>, i: nat)
    requires text == JoinLines(lines) && i < |lines|
    ensures OccursAt(text, lines[i], TotalLength(lines[..i]) + i)
  {
    var newline: Str := [NEWLINE];
    assert text == Join(newline, lines);
    JoinHoldsParts(newline, lines, i);
    assert i * |newline| == i;
  }

  /** The first part opens the joined text. */
  lemma JoinHoldsFirst(sep: Str, parts: seq<Str>)
    requires |parts| > 0
    ensures OccursAt(Join(sep, parts), parts[0], 0)
  {
    if |parts| > 1 {
      assert Join(sep, parts) == parts[0] + (sep + Join(sep, parts[1..]));
    }
  }

  /** The length of a prefix, peeled at its first part. */
  lemma PrefixLength(parts: seq<Str>, i: nat)
    requires 0 < i <= |parts|
    ensures TotalLength(parts[..i]) == |parts[0]| + TotalLength(parts[1..][..i - 1])
  {
    assert parts[..i][1..] == parts[1..][..i - 1];
  }

  lemma StepOffset(n: nat, i: nat)
    requires i > 0
    ensures i * n == (i - 1) * n + n
  {
  }

  /** A slice of the second half of a concatenation, seen from the whole. */
  lemma SliceShift(a: Str, b: Str, off: nat, n: nat)
    requires off + n <= |b|
    ensures (a + b)[|a| + off..|a| + off + n] == b[off..off + n]
  {
  }


  lemma {:induction false} TotalLengthConcat(a: seq<Str>, b: seq<Str>)
    ensures TotalLength(a + b) == TotalLength(a) + TotalLength(b)
    decreases |a|
  {
    if a != [] {
      assert (a + b)[1..] == a[1..] + b;
      TotalLengthConcat(a[1..], b);
    } else {
      assert a + b == b;
    }
  }

  // ---------------------------------------------------------------- parse_file

  /**
   * `parse_file`: dispatch on the extension, then parse with the matching
   * loader; an error the loader raises propagates. Encoding detection is
   * called first but its answer is unused, and it never raises.
   */
  function ParseFile(path: Str, loadDocx: Str -> Result<DocxFile, Str>, loadPdf: Str -> Result<PdfFile, Str>): (r: Result<ParsedResume, Str>)
    ensures FileFormat(path).Err? ==> r == Err(FileFormat(path).error)
    ensures FileFormat(path) == Ok(Docx) ==> (r.Ok? <==> loadDocx(path).Ok?)
    ensures FileFormat(path) == Ok(Pdf) ==> (r.Ok? <==> loadPdf(path).Ok?)
    ensures FileFormat(path) == Ok(Docx) && loadDocx(path).Ok? ==> r == Ok(DocxParse(loadDocx(path).value))
    ensures FileFormat(path) == Ok(Docx) && loadDocx(path).Err? ==> r == Err(loadDocx(path).error)
    ensures FileFormat(path) == Ok(Pdf) && loadPdf(path).Ok? ==> r == Ok(PdfParse(loadPdf(path).value))
    ensures FileFormat(path) == Ok(Pdf) && loadPdf(path).Err? ==> r == Err(loadPdf(path).error)
  {
    match FileFormat(path)
    case Err(e) => Err(e)
    case Ok(Docx) =>
      (match loadDocx(path)
       case Ok(file) => Ok(DocxParse(file))
       case Err(e) => Err(e))
    case Ok(Pdf) =>
      (match loadPdf(path)
       case Ok(file) => Ok(PdfParse(file))
       case Err(e) => Err(e))
  }

  /**
   * A parsed resume's text is its raw paragraphs joined by newlines, so each
   * paragraph can be found in the text, and every paragraph is trimmed.
   */
  lemma ParsedTextHoldsParagraphs(path: Str, loadDocx: Str -> Result<DocxFile, Str>, loadPdf: Str -> Result<PdfFile, Str>, i: nat)
    requires ParseFile(path, loadDocx, loadPdf).Ok?
    requires i < |ParseFile(path, loadDocx, loadPdf).value.rawContent|
    ensures var parsed := ParseFile(path, loadDocx, loadPdf).value;
      Trimmed(parsed.rawContent[i]) && OccursAt(parsed.text, parsed.rawContent[i], TotalLength(parsed.rawContent[..i]) + i)
  {
    var parsed := ParseFile(path, loadDocx, loadPdf).value;
    ParsedShape(path, loadDocx, loadPdf, i);
    JoinLinesHoldsParts(parsed.text, parsed.rawContent, i);
  }

  /** A parsed resume's text is its raw content joined by newlines, and its entries are trimmed. */
  lemma ParsedShape(path: Str, loadDocx: Str -> Result<DocxFile, Str>, loadPdf: Str -> Result<PdfFile, Str>, i: nat)
    requires ParseFile(path, loadDocx, loadPdf).Ok?
    requires i < |ParseFile(path, loadDocx, loadPdf).value.rawContent|
    ensures var parsed := ParseFile(path, loadDocx, loadPdf).value;
      parsed.text == JoinLines(parsed.rawContent) && Trimmed(parsed.rawContent[i])
  {
    var parsed := ParseFile(path, loadDocx, loadPdf).value;
    if FileFormat(path) == Ok(Docx) {
      var file := loadDocx(path).value;
      assert parsed == DocxParse(file);
      RawEntriesTrimmed(file.paragraphs);
    } else {
      var file := loadPdf(path).value;
      assert parsed == PdfParse(file);
      PdfRawContentAt(file.pages, i);
    }
  }
}
