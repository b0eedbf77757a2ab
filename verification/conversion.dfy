/**
  The two halves of a conversion put together (app.py:175, 184-200): the text
  extract_text_from_pdf returns is what create_word_docx exports.
*/
module Conversion {
  import opened PyStr
  import opened Extraction
  import opened Export

  /** The non-blank lines of each page's text, page after page. */
  function PageLines<Img>(pages: seq<Img>, ocr: Img -> Recognition, nfc: string -> string): seq<string>
    requires AllRecognized(pages, ocr)
  {
    if pages == [] then []
    else
      var last := pages[|pages| - 1];
      PageLines(pages[..|pages| - 1], ocr, nfc) + NonBlank(Split(PageText(last, ocr, nfc), LineBreak))
  }

  /** A trailing line break adds no paragraph. */
  lemma TrailingLineBreak(b: string)
    ensures NonBlank(Split(b + LineBreak, LineBreak)) == NonBlank(Split(b, LineBreak))
  {
    assert b + LineBreak == b + LineBreak + "";
    SplitAtSeparator(b, "", LineBreak);
    NonBlankAppend(Split(b, LineBreak), [""]);
    assert IsBlank("");
  }

  /** Text that starts a new line is exported independently of the text before it. */
  lemma AfterLineBreak(a: string, t: string)
    requires a == "" || a[|a| - 1] == '\n'
    ensures NonBlank(Split(a + t, LineBreak)) == NonBlank(Split(a, LineBreak)) + NonBlank(Split(t, LineBreak))
  {
    if a == "" {
      assert a + t == t;
      assert IsBlank("");
    } else {
      var front := a[..|a| - 1];
      assert a == front + LineBreak;
      assert a + t == front + LineBreak + t;
      SplitAtSeparator(front, t, LineBreak);
      NonBlankAppend(Split(front, LineBreak), Split(t, LineBreak));
      TrailingLineBreak(front);
    }
  }

  /**
    Exporting the extracted text gives, after the heading, the non-blank lines
    of every page, page after page: the blank lines that separate pages add no
    paragraph, and no line of one page is merged with a line of another.
  */
  lemma {:induction false} ExportedPagesInOrder<Img>(pages: seq<Img>, ocr: Img -> Recognition, nfc: string -> string)
    requires AllRecognized(pages, ocr)
    ensures NonBlank(Split(Assemble(pages, ocr, nfc), LineBreak)) == PageLines(pages, ocr, nfc)
  {
    if pages == [] {
      assert IsBlank("");
    } else {
      var front := pages[..|pages| - 1];
      var a := Assemble(front, ocr, nfc);
      var t := PageText(pages[|pages| - 1], ocr, nfc);
      ExportedPagesInOrder(front, ocr, nfc);
      assert Assemble(pages, ocr, nfc) == (a + t + LineBreak) + LineBreak;
      TrailingLineBreak(a + t + LineBreak);
      TrailingLineBreak(a + t);
      AfterLineBreak(a, t);
    }
  }
}
