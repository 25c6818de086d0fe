/** Text extraction from an uploaded résumé (parser.py): the reader is chosen
    from the file name's suffix alone, and a DOCX document's text is its
    paragraph texts joined by line feeds. The PDF and DOCX libraries are not
    part of this model: what they would make of a file is given by a
    `Readers` value. */
module Parser {
  import opened Strings

  /** What the foreign readers make of a file of type `F`: pdfminer's text
      of a PDF, and the texts of python-docx's paragraphs of a DOCX, in
      document order. */
  datatype Readers<!F> = Readers(pdfText: F -> string, docxParagraphs: F -> seq<string>)

  /** The extractor a file name selects. */
  datatype Format = Pdf | Docx | Unsupported

  const PdfSuffix: string := ".pdf"
  const DocxSuffix: string := ".docx"

  /** No file name ends in both ".pdf" and ".docx", so the order of the two
      tests never decides between them. */
  lemma SuffixesExclusive(filename: string)
    ensures !(EndsWith(filename, PdfSuffix) && EndsWith(filename, DocxSuffix))
  {
    var n := |filename|;
    assert EndsWith(filename, PdfSuffix) ==> filename[n - 1] == filename[n - 4..][3] == 'f';
    assert EndsWith(filename, DocxSuffix) ==> filename[n - 1] == filename[n - 5..][4] == 'x';
  }

  /** The suffix test of `extract_resume_text`: ".pdf" first, then ".docx",
      anything else is unsupported. */
  function FormatOf(filename: string): (f: Format)
    ensures f == Pdf <==> EndsWith(filename, PdfSuffix)
    ensures f == Docx <==> EndsWith(filename, DocxSuffix)
    ensures f == Unsupported <==> !EndsWith(filename, PdfSuffix) && !EndsWith(filename, DocxSuffix)
  {
    SuffixesExclusive(filename);
    if EndsWith(filename, PdfSuffix) then Pdf
    else if EndsWith(filename, DocxSuffix) then Docx
    else Unsupported
  }

  /** `extract_text_from_docx`: the paragraph texts in document order, with a
      single line feed between neighbours. The text starts with the first
      paragraph and holds at least all the paragraphs' characters. */
  function DocxText<F>(readers: Readers<F>, file: F): (text: string)
    ensures readers.docxParagraphs(file) == [] ==> text == ""
    ensures |text| >= TotalLength(readers.docxParagraphs(file))
    ensures readers.docxParagraphs(file) != [] ==>
              |text| >= |readers.docxParagraphs(file)[0]| &&
              text[..|readers.docxParagraphs(file)[0]|] == readers.docxParagraphs(file)[0]
  {
    Join("\n", readers.docxParagraphs(file))
  }

  /** `extract_resume_text`: the PDF reader's text for a ".pdf" name, the
      DOCX paragraph join for a ".docx" name, and the empty string for every
      other name. */
  function ExtractResumeText<F>(readers: Readers<F>, file: F, filename: string): (text: string)
    ensures EndsWith(filename, PdfSuffix) ==> text == readers.pdfText(file)
    ensures EndsWith(filename, DocxSuffix) ==> text == DocxText(readers, file)
    ensures !EndsWith(filename, PdfSuffix) && !EndsWith(filename, DocxSuffix) ==> text == ""
  {
    match FormatOf(filename)
    case Pdf => readers.pdfText(file)
    case Docx => DocxText(readers, file)
    case Unsupported => ""
  }

  /** The choice of reader depends on the file name only: two files, or two
      pairs of readers, that the chosen reader cannot tell apart give the
      same text, whatever the other reader would have made of them. */
  lemma ExtractorChosenByName<F>(r1: Readers<F>, f1: F, r2: Readers<F>, f2: F, filename: string)
    requires FormatOf(filename) == Pdf ==> r1.pdfText(f1) == r2.pdfText(f2)
    requires FormatOf(filename) == Docx ==> r1.docxParagraphs(f1) == r2.docxParagraphs(f2)
    ensures ExtractResumeText(r1, f1, filename) == ExtractResumeText(r2, f2, filename)
  {
  }

  /** Suffix matching is exact and case-sensitive. */
  lemma UnsupportedNames<F>(readers: Readers<F>, file: F)
    ensures ExtractResumeText(readers, file, "CV.PDF") == ""
    ensures ExtractResumeText(readers, file, "cv.doc") == ""
    ensures ExtractResumeText(readers, file, "cv.pdfx") == ""
    ensures ExtractResumeText(readers, file, "cv.pdf.docx") == DocxText(readers, file)
    ensures ExtractResumeText(readers, file, "cv.docx.pdf") == readers.pdfText(file)
  {
    assert !EndsWith("CV.PDF", PdfSuffix) && !EndsWith("CV.PDF", DocxSuffix);
    assert !EndsWith("cv.doc", PdfSuffix) && !EndsWith("cv.doc", DocxSuffix);
    assert !EndsWith("cv.pdfx", PdfSuffix) && !EndsWith("cv.pdfx", DocxSuffix);
    assert "cv.pdf.docx"[6..] == DocxSuffix;
    assert "cv.docx.pdf"[7..] == PdfSuffix;
  }

  /** Zero paragraphs give the empty text and one paragraph gives that
      paragraph unchanged. */
  lemma DocxTextSmall<F>(readers: Readers<F>, file: F)
    ensures readers.docxParagraphs(file) == [] ==> DocxText(readers, file) == ""
    ensures |readers.docxParagraphs(file)| == 1 ==>
              DocxText(readers, file) == readers.docxParagraphs(file)[0]
  {
  }

  /** For k >= 1 paragraphs the text is as long as the paragraphs together
      plus the k - 1 line feeds between them. */
  lemma DocxTextLength<F>(readers: Readers<F>, file: F)
    requires readers.docxParagraphs(file) != []
    ensures |DocxText(readers, file)| ==
            TotalLength(readers.docxParagraphs(file)) + |readers.docxParagraphs(file)| - 1
  {
    JoinLength("\n", readers.docxParagraphs(file));
  }

  /** The paragraphs can be read back, in document order, by splitting the
      text at its line feeds, provided that there is at least one paragraph
      and no paragraph holds a line feed of its own. */
  lemma DocxTextSplitsBack<F>(readers: Readers<F>, file: F)
    requires readers.docxParagraphs(file) != []
    requires forall p :: p in readers.docxParagraphs(file) ==> '\n' !in p
    ensures SplitOn(DocxText(readers, file), '\n') == readers.docxParagraphs(file)
  {
    SplitOnJoin(readers.docxParagraphs(file), '\n');
  }
}
