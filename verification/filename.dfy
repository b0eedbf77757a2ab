/**
  The name offered for the downloaded Word document (app.py:203): the
  uploaded file's name with `.pdf` replaced by `_converted.docx`, using
  Python's `str.replace`, which rewrites every occurrence and not only a
  trailing extension.
*/
module FileName {
  import opened PyStr

  const PdfExtension: string := ".pdf"
  const DocxSuffix: string := "_converted.docx"

  /** The download name derived from the uploaded file's name. */
  function OutputName(name: string): string {
    Replace(name, PdfExtension, DocxSuffix)
  }

  /**
    Cutting the name at its `.pdf` occurrences, left to right, gives pieces
    without `.pdf` that join back into the name with `.pdf`; the output name
    is the same pieces joined with `_converted.docx`. So every occurrence is
    replaced and every other character is kept, in order.
  */
  lemma OutputNameReplacesEveryOccurrence(name: string)
    ensures
      var pieces := Split(name, PdfExtension);
      && Join(pieces, PdfExtension) == name
      && (forall k :: 0 <= k < |pieces| ==> !Contains(pieces[k], PdfExtension))
      && OutputName(name) == Join(pieces, DocxSuffix)
  {
    SplitJoin(name, PdfExtension);
    SplitPiecesFree(name, PdfExtension);
    ReplaceIsJoinOfSplit(name, PdfExtension, DocxSuffix);
  }

  /** Each replaced occurrence makes the name 11 characters longer. */
  lemma OutputNameLength(name: string)
    ensures |OutputName(name)| == |name| + 11 * (|Split(name, PdfExtension)| - 1)
  {
    var pieces := Split(name, PdfExtension);
    OutputNameReplacesEveryOccurrence(name);
    JoinLength(pieces, PdfExtension);
    JoinLength(pieces, DocxSuffix);
  }

  /** The name comes back unchanged exactly when it does not contain `.pdf`. */
  lemma OutputNameUnchanged(name: string)
    ensures OutputName(name) == name <==> !Contains(name, PdfExtension)
  {
    OutputNameLength(name);
    if Contains(name, PdfExtension) {
      SplitOccurrence(name, PdfExtension);
    } else {
      SplitNoOccurrence(name, PdfExtension);
      OutputNameReplacesEveryOccurrence(name);
    }
  }
}
