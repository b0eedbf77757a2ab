/**
  create_word_docx (app.py:126-139): a new Word document gets the title as a
  level-0 heading, then one paragraph per line of the text that is not blank,
  in order and unstripped. The document is modelled as the sequence of blocks
  added to it; its styling and serialisation belong to python-docx.
*/
module Export {
  import opened PyStr

  /** The heading every exported document starts with (app.py:128). */
  const Title: string := "Converted Bangla Document"

  /** The line break the text is split on (app.py:130). */
  const LineBreak: string := "\n"

  datatype Block = Heading(text: string, level: nat) | Paragraph(text: string)

  /** The pieces whose `strip()` is truthy, in their order and as they are. */
  function NonBlank(pieces: seq<string>): seq<string> {
    if pieces == [] then []
    else
      var last := pieces[|pieces| - 1];
      NonBlank(pieces[..|pieces| - 1]) + (if IsBlank(last) then [] else [last])
  }

  /** One paragraph block per text. */
  function AsParagraphs(texts: seq<string>): seq<Block> {
    if texts == [] then [] else AsParagraphs(texts[..|texts| - 1]) + [Paragraph(texts[|texts| - 1])]
  }

  /**
    create_word_docx: the blocks of the document it builds, the heading first
    and then a paragraph for each non-blank piece of `text.split('\n')`.
  */
  method CreateWordDocx(text: string) returns (doc: seq<Block>)
    ensures doc == [Heading(Title, 0)] + AsParagraphs(NonBlank(Split(text, LineBreak)))
  {
    doc := [Heading(Title, 0)];
    var paragraphs := Split(text, LineBreak);
    for k := 0 to |paragraphs|
      invariant doc == [Heading(Title, 0)] + AsParagraphs(NonBlank(paragraphs[..k]))
    {
      var para := paragraphs[k];
      var stripped := Strip(para);
      NonBlankStep(paragraphs, k, stripped == "");
      if stripped != "" {
        doc := doc + [Paragraph(para)];
      }
    }
    assert paragraphs[..|paragraphs|] == paragraphs;
  }

  /** Moving past one more piece adds its paragraph exactly when its `strip()` is non-empty. */
  lemma NonBlankStep(pieces: seq<string>, k: nat, blank: bool)
    requires k < |pieces| && blank == (Strip(pieces[k]) == "")
    ensures blank ==>
      AsParagraphs(NonBlank(pieces[..k + 1])) == AsParagraphs(NonBlank(pieces[..k]))
    ensures !blank ==>
      AsParagraphs(NonBlank(pieces[..k + 1])) == AsParagraphs(NonBlank(pieces[..k])) + [Paragraph(pieces[k])]
  {
    assert pieces[..k + 1][..k] == pieces[..k];
    StripEmpty(pieces[k]);
    var kept := NonBlank(pieces[..k]);
    if Strip(pieces[k]) == "" {
      assert NonBlank(pieces[..k + 1]) == kept + [] == kept;
    } else {
      assert NonBlank(pieces[..k + 1]) == kept + [pieces[k]];
      assert (kept + [pieces[k]])[..|kept|] == kept;
    }
  }

  /** Selecting from two runs of pieces one after the other selects from each in turn. */
  lemma {:induction false} NonBlankAppend(a: seq<string>, b: seq<string>)
    ensures NonBlank(a + b) == NonBlank(a) + NonBlank(b)
    decreases |b|
  {
    if b == [] {
      assert a + b == a;
    } else {
      var front := b[..|b| - 1];
      assert (a + b)[..|a + b| - 1] == a + front;
      NonBlankAppend(a, front);
    }
  }

  /**
    Exactly the non-blank pieces are kept: every kept piece is a non-blank
    piece of the input, and every non-blank piece of the input is kept.
  */
  lemma {:induction false} NonBlankSelects(pieces: seq<string>)
    ensures forall q :: q in NonBlank(pieces) ==> q in pieces && !IsBlank(q)
    ensures forall p :: p in pieces && !IsBlank(p) ==> p in NonBlank(pieces)
  {
    if pieces != [] {
      var front := pieces[..|pieces| - 1];
      NonBlankSelects(front);
      assert pieces == front + [pieces[|pieces| - 1]];
    }
  }

  /** Nothing is dropped exactly when no piece is blank. */
  lemma {:induction false} NonBlankKeepsAll(pieces: seq<string>)
    ensures NonBlank(pieces) == pieces <==> forall p :: p in pieces ==> !IsBlank(p)
  {
    NonBlankSelects(pieces);
    if forall p :: p in pieces ==> !IsBlank(p) {
      if pieces != [] {
        var front := pieces[..|pieces| - 1];
        NonBlankKeepsAll(front);
        assert pieces == front + [pieces[|pieces| - 1]];
      }
    }
  }

  /**
    The paragraphs of an exported document are pieces of the text's
    line split, none holds a line break and none is blank; the unfiltered
    pieces, joined with line breaks, give the text back.
  */
  lemma ParagraphsAreLines(text: string)
    ensures Join(Split(text, LineBreak), LineBreak) == text
    ensures forall q :: q in NonBlank(Split(text, LineBreak)) ==>
      q in Split(text, LineBreak) && '\n' !in q && !IsBlank(q)
  {
    var pieces := Split(text, LineBreak);
    SplitJoin(text, LineBreak);
    SplitPiecesFree(text, LineBreak);
    NonBlankSelects(pieces);
    forall q | q in NonBlank(pieces) ensures '\n' !in q {
      var k :| 0 <= k < |pieces| && pieces[k] == q;
      ContainsChar(q, '\n');
    }
  }

  /**
    A text made of K non-blank lines, joined with line breaks, exports to
    exactly those K lines as paragraphs, verbatim and in order.
  */
  lemma ExportRoundTrip(lines: seq<string>)
    requires forall l :: l in lines ==> '\n' !in l && !IsBlank(l)
    ensures NonBlank(Split(Join(lines, LineBreak), LineBreak)) == lines
  {
    if lines == [] {
      assert IsBlank("");
    } else {
      forall k | 0 <= k < |lines| ensures !Contains(lines[k], LineBreak) {
        ContainsChar(lines[k], '\n');
      }
      JoinSplit(lines, LineBreak);
      NonBlankKeepsAll(lines);
    }
  }
}
