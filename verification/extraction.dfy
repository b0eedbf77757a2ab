/**
  extract_text_from_pdf (app.py:83-124): render the uploaded PDF into page
  images, recognise each page with Tesseract, normalise the recognised text to
  NFC and accumulate it, page after page, each page followed by a blank line.

  The renderer, the recogniser and the normaliser are foreign code. The
  renderer's outcome is an input (`Rendering`); recognition (`ocr`) and NFC
  normalisation (`nfc`) are functions passed in, about which nothing is
  assumed beyond their being functions of their argument.
*/
module Extraction {

  /** What app.py:119 appends after every page's text. */
  const PageSeparator: string := "\n\n"

  /**
    What convert_from_bytes produced: the page images in page order, or the
    exception it raised (app.py:90-97).
  */
  datatype Rendering<Img> = Rendered(pages: seq<Img>) | RenderError(message: string)

  /** What image_to_string produced for one page: its text, or an exception. */
  datatype Recognition = Recognized(text: string) | RecognitionError

  /**
    How a call of extract_text_from_pdf ends: it returns the accumulated text;
    it returns None after a render error (app.py:97-99); or the exception that
    recognition raised on a page escapes, uncaught, and no text is returned.
  */
  datatype Outcome = Extracted(text: string) | RenderFailed | RecognitionRaised(page: nat)

  /** Recognition succeeds on every page. */
  predicate AllRecognized<Img>(pages: seq<Img>, ocr: Img -> Recognition) {
    forall i :: 0 <= i < |pages| ==> ocr(pages[i]).Recognized?
  }

  /** Page `k` is the first page on which recognition fails. */
  predicate FirstUnrecognized<Img>(pages: seq<Img>, ocr: Img -> Recognition, k: nat) {
    k < |pages| && ocr(pages[k]).RecognitionError? && AllRecognized(pages[..k], ocr)
  }

  /** The text a page contributes: its recognised text, normalised (app.py:115-118). */
  function PageText<Img>(page: Img, ocr: Img -> Recognition, nfc: string -> string): string
    requires ocr(page).Recognized?
  {
    nfc(ocr(page).text)
  }

  /** The text accumulated over `pages`: each page's text and the separator, in page order. */
  function Assemble<Img>(pages: seq<Img>, ocr: Img -> Recognition, nfc: string -> string): string
    requires AllRecognized(pages, ocr)
  {
    if pages == [] then ""
    else
      var last := pages[|pages| - 1];
      Assemble(pages[..|pages| - 1], ocr, nfc) + PageText(last, ocr, nfc) + PageSeparator
  }

  /** The number of characters of recognised, normalised text over `pages`. */
  function TextLength<Img>(pages: seq<Img>, ocr: Img -> Recognition, nfc: string -> string): nat
    requires AllRecognized(pages, ocr)
  {
    if pages == [] then 0
    else TextLength(pages[..|pages| - 1], ocr, nfc) + |PageText(pages[|pages| - 1], ocr, nfc)|
  }

  /**
    extract_text_from_pdf with the three foreign calls as inputs. A render
    error gives RenderFailed; otherwise the pages are processed in order and
    the first page whose recognition fails ends the call; if none fails the
    result is the assembly of all pages.
  */
  method ExtractTextFromPdf<Img>(rendering: Rendering<Img>, ocr: Img -> Recognition, nfc: string -> string)
    returns (outcome: Outcome)
    ensures rendering.RenderError? <==> outcome.RenderFailed?
    ensures rendering.Rendered? && AllRecognized(rendering.pages, ocr) ==>
      outcome == Extracted(Assemble(rendering.pages, ocr, nfc))
    ensures rendering.Rendered? && !AllRecognized(rendering.pages, ocr) ==>
      outcome.RecognitionRaised? && FirstUnrecognized(rendering.pages, ocr, outcome.page)
  {
    if rendering.RenderError? {
      return RenderFailed;
    }
    var images := rendering.pages;
    var extractedText := "";
    for i := 0 to |images|
      invariant AllRecognized(images[..i], ocr)
      invariant extractedText == Assemble(images[..i], ocr, nfc)
    {
      match ocr(images[i]) {
        case RecognitionError =>
          return RecognitionRaised(i);
        case Recognized(text) =>
          var fixedText := nfc(text);
          extractedText := extractedText + fixedText + PageSeparator;
      }
      assert images[..i + 1][..i] == images[..i];
    }
    assert images[..|images|] == images;
    return Extracted(extractedText);
  }

  /** Assembling two runs of pages one after the other gives the two texts one after the other. */
  lemma {:induction false} AssembleAppend<Img>(a: seq<Img>, b: seq<Img>, ocr: Img -> Recognition, nfc: string -> string)
    requires AllRecognized(a, ocr) && AllRecognized(b, ocr)
    ensures AllRecognized(a + b, ocr)
    ensures Assemble(a + b, ocr, nfc) == Assemble(a, ocr, nfc) + Assemble(b, ocr, nfc)
    decreases |b|
  {
    forall i | 0 <= i < |a + b| ensures ocr((a + b)[i]).Recognized? {
      if i < |a| {
        assert (a + b)[i] == a[i];
      } else {
        assert (a + b)[i] == b[i - |a|];
      }
    }
    if b == [] {
      assert a + b == a;
    } else {
      var front, last := b[..|b| - 1], b[|b| - 1];
      assert AllRecognized(front, ocr);
      assert (a + b)[..|a + b| - 1] == a + front && (a + b)[|a + b| - 1] == last;
      AssembleAppend(a, front, ocr, nfc);
      assert Assemble(b, ocr, nfc) == Assemble(front, ocr, nfc) + PageText(last, ocr, nfc) + PageSeparator;
    }
  }

  /**
    Each page contributes its text plus the separator, so the result is as
    long as all page texts together plus two characters per page; zero pages
    give the empty string, and an empty page still adds its separator.
  */
  lemma {:induction false} AssembleLength<Img>(pages: seq<Img>, ocr: Img -> Recognition, nfc: string -> string)
    requires AllRecognized(pages, ocr)
    ensures |Assemble(pages, ocr, nfc)| == TextLength(pages, ocr, nfc) + 2 * |pages|
  {
    if pages != [] {
      AssembleLength(pages[..|pages| - 1], ocr, nfc);
    }
  }

  /**
    Page `k`'s text, followed by the separator, sits in the result right
    after the text of the pages before it: no page is skipped, moved or
    repeated, and the next page starts where this one's separator ends.
  */
  lemma PageInPlace<Img>(pages: seq<Img>, ocr: Img -> Recognition, nfc: string -> string, k: nat)
    requires AllRecognized(pages, ocr)
    requires k < |pages|
    ensures AllRecognized(pages[..k], ocr) && AllRecognized(pages[..k + 1], ocr)
    ensures
      var start := |Assemble(pages[..k], ocr, nfc)|;
      var piece := PageText(pages[k], ocr, nfc) + PageSeparator;
      && |Assemble(pages[..k + 1], ocr, nfc)| == start + |piece|
      && start + |piece| <= |Assemble(pages, ocr, nfc)|
      && Assemble(pages, ocr, nfc)[start..start + |piece|] == piece
  {
    var before, page, after := pages[..k], pages[k..k + 1], pages[k + 1..];
    assert pages[..k + 1] == before + page;
    assert pages == before + page + after;
    assert page[..0] == [];
    AssembleAppend(before, page, ocr, nfc);
    AssembleAppend(before + page, after, ocr, nfc);
  }
}
