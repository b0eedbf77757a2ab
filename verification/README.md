# BanglaOCR2Docs: a Dafny model of the conversion core

BanglaOCR2Docs is a Streamlit application that turns a scanned Bangla PDF into
an editable Word document. Its core consists of two functions and a file-name
rule, all in `app.py`:

- `extract_text_from_pdf` rasterises the PDF into page images with Poppler. If
  rendering raises, it reports the error and returns `None`. Otherwise it runs
  Tesseract on every page in order and normalises each page's text to Unicode
  NFC. It accumulates the result, following every page with a blank line
  (`"\n\n"`).
- `create_word_docx` starts a document with the level-0 heading
  "Converted Bangla Document". It splits the text on `'\n'` and adds one
  paragraph for every piece whose `strip()` is non-empty. Each paragraph is
  the piece itself, unstripped, in its original order.
- The download name is the uploaded name with `.pdf` replaced by
  `_converted.docx` through Python's `str.replace`. That call replaces every
  occurrence, not only the extension.

The model is split into five modules:

- `PyStr` (`pystr.dfy`) defines the Python string built-ins the core relies
  on: `split` and `join` with an explicit separator, `replace`, `strip` and
  `isspace`. It also proves the laws that connect them.
- `Extraction` (`extraction.dfy`) models `extract_text_from_pdf`. The method
  keeps the source's accumulator loop. It is proved against `Assemble`, the
  function giving the text of the first k pages.
- `Export` (`export.dfy`) models `create_word_docx`. The method keeps the
  source's loop over the split pieces. The document is modelled as the
  sequence of heading and paragraph blocks added to it.
- `FileName` (`filename.dfy`) models the download-name rule.
- `Conversion` (`conversion.dfy`) connects the two halves. It describes what
  exporting the extracted text yields.

Three calls are foreign code: the renderer (`convert_from_bytes`), the
recogniser (`pytesseract.image_to_string`) and the NFC normaliser
(`unicodedata.normalize`). The renderer's result is an input of type
`Rendering`, either the page images or an error. Recognition and
normalisation are function parameters (`ocr`, `nfc`). Nothing is assumed
about them beyond their being functions of their argument. In particular,
NFC is not assumed to be idempotent. Page images are a type parameter.

Recognition can raise on a page, and `extract_text_from_pdf` does not catch
that exception. The model returns `RecognitionRaised(k)` for the first page k
on which recognition fails. No text is returned in that case.

## Model

| member | source | states |
|---|---|---|
| Extraction.ExtractTextFromPdf | app.py:83-124 | A render error, and nothing else, gives the render-failure outcome (the source's `None`). If every page is recognised, the result is the text of all pages, each followed by `"\n\n"`, in page order. Otherwise the call ends at the first page whose recognition fails. The loop invariant is that after k pages the accumulator equals the assembly of the first k pages. |
| Extraction.AssembleAppend | app.py:101-119 | Accumulating two runs of pages one after the other gives the two texts one after the other. Nothing is skipped, duplicated or reordered. |
| Extraction.AssembleLength | app.py:101-119 | The accumulated text is as long as all page texts together plus two characters per page. Zero pages give the empty string, and an empty page still contributes its separator. |
| Extraction.PageInPlace | app.py:108-119 | Page k's normalised text, followed by `"\n\n"`, sits in the result immediately after the text of pages 0..k-1. |
| Export.CreateWordDocx | app.py:126-133 | The document is the level-0 heading "Converted Bangla Document" followed by one paragraph for each piece of `text.split('\n')` whose `strip()` is non-empty. The pieces are kept verbatim and in order. |
| Export.NonBlankStep | app.py:131-133 | One loop step adds the piece as a paragraph exactly when its `strip()` is non-empty, and otherwise leaves the document unchanged. |
| Export.NonBlankAppend | app.py:131-133 | Filtering two runs of pieces one after the other filters each in turn. |
| Export.NonBlankSelects | app.py:131-133 | Every kept piece is a non-blank piece of the input, and every non-blank piece of the input is kept. |
| Export.NonBlankKeepsAll | app.py:131-133 | The filter drops nothing exactly when no piece is blank. |
| Export.ParagraphsAreLines | app.py:130-133 | The unfiltered pieces joined with `'\n'` give the text back. Every paragraph is a piece of the split, contains no `'\n'` and is not blank. |
| Export.ExportRoundTrip | app.py:130-133 | A text made of non-blank lines without line breaks, joined with `'\n'`, exports to exactly those lines, in order. |
| FileName.OutputNameReplacesEveryOccurrence | app.py:203 | The uploaded name cut at its `.pdf` occurrences, left to right and without overlap, gives pieces free of `.pdf` that rejoin to the name. The output name is those pieces joined with `_converted.docx`. |
| FileName.OutputNameLength | app.py:203 | Each replaced occurrence makes the name 11 characters longer. |
| FileName.OutputNameUnchanged | app.py:203 | The name is returned unchanged exactly when it does not contain `.pdf`. |
| Conversion.ExportedPagesInOrder | app.py:175-200 | The paragraphs exported from the extracted text are the non-blank lines of each page, page after page. The page separators add no paragraph, and no line of one page merges with a line of the next. |
| Conversion.TrailingLineBreak | app.py:130-133 | A trailing `'\n'` adds no paragraph. |
| Conversion.AfterLineBreak | app.py:130-133 | Text that starts after a line break exports independently of the text before it. |
| PyStr.Split | app.py:130 | `str.split` with an explicit separator always yields at least one piece. |
| PyStr.SplitJoin | app.py:130 | Joining the pieces of a split with the same separator gives the string back. |
| PyStr.SplitPiecesFree | app.py:130 | No piece of a split contains the separator. |
| PyStr.SplitNoOccurrence | app.py:130 | A string without the separator splits into itself alone. |
| PyStr.SplitOccurrence | app.py:130 | A string containing the separator splits into at least two pieces. |
| PyStr.SplitAtSeparator | app.py:130 | For a one-character separator, splitting `x + sep + y` gives the pieces of `x` followed by the pieces of `y`. |
| PyStr.JoinSplit | app.py:130 | For a one-character separator, splitting the join of separator-free parts gives the parts back. |
| PyStr.ContainsChar | app.py:130 | A one-character string occurs in `s` exactly when its character does. |
| PyStr.Strip | app.py:132 | `strip()` never lengthens its argument, and its result neither starts nor ends with whitespace. The fact the filter relies on is `PyStr.StripEmpty`, and `PyStr.StripIsSlice` says what the result is. |
| PyStr.StripEmpty | app.py:132 | `strip()` returns the empty string exactly for the strings made only of whitespace. |
| PyStr.StripIsSlice | app.py:132 | `strip()` returns a slice `s[i..j]` of its argument, and the parts it cuts off, `s[..i]` and `s[j..]`, are all whitespace. |
| PyStr.ReplaceIsJoinOfSplit | app.py:203 | `s.replace(pat, rep)` equals `rep.join(s.split(pat))`. |
| PyStr.JoinLength | app.py:203 | A join of n parts is n - 1 separators longer than the parts together. |

## Left out

- The Streamlit interface is not modelled. This covers page layout, styling, the sidebar, the upload widget, buttons, tabs, the preview and the download button, which are presentation only.
- The session state that carries the text and file name between reruns (app.py:175-176, 183-184) is not modelled. `Conversion.ExportedPagesInOrder` feeds the extracted text directly to the export.
- The guard `if text_data:` (app.py:186) is not modelled. It skips the export for `None` and for the empty text of a zero-page PDF.
- Poppler's rasterisation and the Windows `poppler_path` choice (app.py:90-96) are foreign code. They are modelled as a `Rendering` input. The `st.error` message shown on failure is not modelled.
- Tesseract recognition, with its language and `--oem 1 --psm 6` configuration, is foreign code and is modelled as the `ocr` parameter.
- Unicode NFC normalisation is foreign code and is modelled as the `nfc` parameter. Its tables, and properties such as idempotence, are not modelled.
- The progress bar and status text (app.py:102-111, 121-123) are UI side effects, as is the integer progress percentage.
- python-docx is not modelled. This covers the `Arial` font style (app.py:134), serialisation to a `BytesIO` buffer (app.py:136-139) and the document object itself. The document is represented by its sequence of blocks.
- checkModel.py lists the generative-AI models available to an API key. It is unrelated to the conversion and is not modelled.
- Export.CreateWordDocx: does not model python-docx's handling of paragraph text, and always returns a document. python-docx turns `'\t'` into a tab and `'\r'` into a line break, and lxml rejects control characters XML does not allow, such as `'\x0b'`, `'\x0c'` and `'\x1c'` to `'\x1f'`. `isspace` counts these as whitespace, so a line such as `"abc\x0c"` passes the `strip()` filter and makes `create_word_docx` raise.
- The code never splits the extracted text on its page separator. Splitting it on `"\n\n"` would not give one piece per page. The last separator leaves a trailing `""`, and a page text that ends in `'\n'` or contains `"\n\n"` shifts or adds pieces. `Conversion.ExportedPagesInOrder` states what holds about pages and paragraphs.
- A piece is kept when `strip()` leaves something, using `str.isspace`'s whitespace set, so a line of spaces or tabs is dropped.
