/**
 The FAQ accordion assembly of the QuickAbout generator (`build_html` in
 main.py). The two language-model answers it starts from, the formatted body
 HTML and the raw "Q: ... A: ..." FAQ text, are parameters here.
 */
module FaqHtml {
  import opened Wrappers
  import opened PyStr
  import opened Template

  // ---------------------------------------------------------------------
  // The templates (BASE_TEMPLATE, FAQ_TEMPLATE, SPACER)
  // ---------------------------------------------------------------------

  const BaseHead: string :=
    "\n"
    + "<div class=\"cdkeys-content-wrap\">\n"
    + "\n"
    + "  "
  const BaseMid: string :=
    "\n"
    + "\n"
    + "  <div class=\"cdkeys-paragraph\">\n"
    + "    <h4 class=\"text-center font-weight-bold mt-4 mb-3\">FAQs</h4>\n"
    + "  </div>\n"
    + "\n"
    + "  <div class=\"accordion\" id=\"accordions\">\n"
    + "    "
  const BaseTail: string :=
    "\n"
    + "  </div>\n"
    + "\n"
    + "  "
  const BaseEnd: string :=
    "\n"
    + "\n"
    + "</div>\n"

  /** The page wrapper: body blocks, the FAQ heading, the accordion and the
      spacer slot. */
  const BaseTemplate: seq<Segment> :=
    [Lit(BaseHead), Field("content_blocks"), Lit(BaseMid), Field("faq_blocks"),
     Lit(BaseTail), Field("spacer_block"), Lit(BaseEnd)]

  const FaqHead: string :=
    "\n"
    + "    <div class=\"accordion-item\">\n"
    + "      <h5 class=\"collapsed heading\" data-toggle=\"collapse\" data-target=\"#faq-"
  const FaqAfterTarget: string :=
    "\" aria-expanded=\"false\">\n"
    + "        "
  const FaqAfterQuestion: string :=
    "\n"
    + "      </h5>\n"
    + "      <div id=\"faq-"
  const FaqAfterId: string :=
    "\" class=\"collapse\" data-parent=\"#accordions\">\n"
    + "        <div class=\"acr-body\">\n"
    + "          <p>"
  const FaqEnd: string :=
    "</p>\n"
    + "        </div>\n"
    + "      </div>\n"
    + "    </div>\n"

  /** One accordion item; `{index}` appears twice, as the collapse target
      and as the id of the collapsible answer. */
  const FaqTemplate: seq<Segment> :=
    [Lit(FaqHead), Field("index"), Lit(FaqAfterTarget), Field("question"),
     Lit(FaqAfterQuestion), Field("index"), Lit(FaqAfterId), Field("answer"),
     Lit(FaqEnd)]

  /** An empty heading block that closes a non-empty accordion. */
  const Spacer: string :=
    "\n"
    + "  <div class=\"cdkeys-paragraph\">\n"
    + "    <h4 class=\"text-center font-weight-bold mt-4 mb-3\"></h4>\n"
    + "  </div>\n"

  const QMarker: string := "Q: "
  const AMarker: string := "A: "

  // ---------------------------------------------------------------------
  // Parsing the FAQ text
  // ---------------------------------------------------------------------

  /** One rendered accordion item: its 1-based position among the "Q: "
      pieces, and its trimmed question and answer. */
  datatype Faq = Faq(index: nat, question: string, answer: string)

  /** The pieces after each "Q: " marker: `faqs_raw.split("Q: ")[1:]`. */
  function Pieces(faqsRaw: string): seq<string>
  {
    Split(faqsRaw, QMarker)[1..]
  }

  /** What one piece contributes: the stripped piece is split on "A: " and
      kept only when that gives exactly two parts, which are then stripped
      to give the question and the answer. */
  function ParsePiece(piece: string): Option<(string, string)>
  {
    var parts := Split(Strip(piece), AMarker);
    if |parts| == 2 then Some((Strip(parts[0]), Strip(parts[1]))) else None
  }

  /** The outcome for each piece, in order. */
  function Parsed(pieces: seq<string>): (r: seq<Option<(string, string)>>)
    ensures |r| == |pieces|
  {
    seq(|pieces|, j requires 0 <= j < |pieces| => ParsePiece(pieces[j]))
  }

  /** The accordion items for a run of piece outcomes, the first outcome
      having index `start`: one item per parsed piece, in piece order. */
  function FaqsOf(parsed: seq<Option<(string, string)>>, start: nat): (faqs: seq<Faq>)
    ensures |faqs| <= |parsed|
    decreases |parsed|
  {
    if parsed == [] then []
    else
      var rest := FaqsOf(parsed[1..], start + 1);
      match parsed[0]
      case None => rest
      case Some((q, a)) => [Faq(start, q, a)] + rest
  }

  /** Some item of `faqs` has index `i`. */
  predicate HasIndex(faqs: seq<Faq>, i: nat)
  {
    exists t :: 0 <= t < |faqs| && faqs[t].index == i
  }

  /** The accordion items `build_html` renders from the FAQ text. */
  function Faqs(faqsRaw: string): seq<Faq>
  {
    FaqsOf(Parsed(Pieces(faqsRaw)), 1)
  }

  // ---------------------------------------------------------------------
  // Rendering
  // ---------------------------------------------------------------------

  /** The anchor id of the item with this index. */
  function FaqId(index: nat): string
  {
    "faq-" + Decimal(index)
  }

  /** `FAQ_TEMPLATE.format(index=i, question=question, answer=answer)`. */
  function RenderFaq(f: Faq): string
  {
    Format(FaqTemplate, map["index" := Decimal(f.index), "question" := f.question, "answer" := f.answer])
  }

  function Rendered(faqs: seq<Faq>): seq<string>
  {
    seq(|faqs|, k requires 0 <= k < |faqs| => RenderFaq(faqs[k]))
  }

  /** `SPACER if faq_html_blocks else ""`. */
  function SpacerFor(blocks: seq<string>): string
  {
    if |blocks| > 0 then Spacer else ""
  }

  /** `BASE_TEMPLATE.format(content_blocks=..., faq_blocks=..., spacer_block=...)`. */
  function FillBase(contentBlocks: string, faqBlocks: string, spacerBlock: string): string
  {
    Format(BaseTemplate, map["content_blocks" := contentBlocks, "faq_blocks" := faqBlocks,
                             "spacer_block" := spacerBlock])
  }

  /** The whole snippet, given the formatted body and the raw FAQ text: the
      rendered items joined by newlines, with the spacer after a non-empty
      accordion. */
  function AssembledHtml(body: string, faqsRaw: string): string
  {
    var blocks := Rendered(Faqs(faqsRaw));
    FillBase(body, Join(blocks, "\n"), SpacerFor(blocks))
  }

  // ---------------------------------------------------------------------
  // build_html
  // ---------------------------------------------------------------------

  /** `build_html` once both model answers are in: walks the "Q: " pieces
      with a 1-based counter, appending a rendered item for each piece that
      splits into one question and one answer, then fills the wrapper. */
  method BuildHtml(body: string, faqsRaw: string) returns (html: string)
    ensures html == AssembledHtml(body, faqsRaw)
  {
    var pieces := Split(faqsRaw, QMarker)[1..];
    var blocks: seq<string> := [];
    var i := 0;
    while i < |pieces|
      invariant 0 <= i <= |pieces|
      invariant blocks == Rendered(FaqsOf(Parsed(pieces[..i]), 1))
    {
      var parts := Split(Strip(pieces[i]), AMarker);
      ghost var done := FaqsOf(Parsed(pieces[..i]), 1);
      FaqsOfSnoc(Parsed(pieces[..i]), ParsePiece(pieces[i]), 1);
      ParsedSnoc(pieces, i);
      if |parts| == 2 {
        var question := Strip(parts[0]);
        var answer := Strip(parts[1]);
        assert ParsePiece(pieces[i]) == Some((question, answer));
        RenderedSnoc(done, Faq(i + 1, question, answer));
        blocks := blocks + [RenderFaq(Faq(i + 1, question, answer))];
      } else {
        assert ParsePiece(pieces[i]) == None;
      }
      i := i + 1;
    }
    assert pieces[..i] == pieces == Pieces(faqsRaw);
    var spacer := if |blocks| > 0 then Spacer else "";
    html := FillBase(body, Join(blocks, "\n"), spacer);
  }

  /** The button handler's guard: generation happens only when the pasted
      text is not blank, and then yields the assembled snippet. */
  function Generate(aboutInput: string, body: string, faqsRaw: string): (r: Option<string>)
    ensures r.None? <==> AllSpace(aboutInput)
    ensures r.Some? ==> r.value == AssembledHtml(body, faqsRaw)
  {
    StripSpec(aboutInput);
    if Strip(aboutInput) != [] then Some(AssembledHtml(body, faqsRaw)) else None
  }

  // ---------------------------------------------------------------------
  // Lemmas
  // ---------------------------------------------------------------------

  lemma {:induction false} FaqsOfSnoc(parsed: seq<Option<(string, string)>>, o: Option<(string, string)>, start: nat)
    ensures FaqsOf(parsed + [o], start) ==
      FaqsOf(parsed, start) + (match o
                               case None => []
                               case Some((q, a)) => [Faq(start + |parsed|, q, a)])
    decreases |parsed|
  {
    if parsed == [] {
      assert [o][1..] == [];
    } else {
      assert (parsed + [o])[1..] == parsed[1..] + [o];
      FaqsOfSnoc(parsed[1..], o, start + 1);
    }
  }

  /** Every item comes from the outcome at its index, and indices stay
      within the outcomes. */
  lemma {:induction false} FaqsOfSound(parsed: seq<Option<(string, string)>>, start: nat)
    ensures forall t :: 0 <= t < |FaqsOf(parsed, start)| ==>
      var f := FaqsOf(parsed, start)[t];
      && start <= f.index < start + |parsed|
      && parsed[f.index - start] == Some((f.question, f.answer))
    decreases |parsed|
  {
    if parsed != [] {
      FaqsOfSound(parsed[1..], start + 1);
    }
  }

  /** Item indices strictly increase. */
  lemma {:induction false} FaqsOfIncreasing(parsed: seq<Option<(string, string)>>, start: nat)
    ensures forall a, b :: 0 <= a < b < |FaqsOf(parsed, start)| ==>
      FaqsOf(parsed, start)[a].index < FaqsOf(parsed, start)[b].index
    decreases |parsed|
  {
    if parsed != [] {
      FaqsOfIncreasing(parsed[1..], start + 1);
      FaqsOfSound(parsed[1..], start + 1);
      var faqs, rest := FaqsOf(parsed, start), FaqsOf(parsed[1..], start + 1);
      if parsed[0].Some? {
        assert faqs == [Faq(start, parsed[0].value.0, parsed[0].value.1)] + rest;
        forall a, b | 0 <= a < b < |faqs| ensures faqs[a].index < faqs[b].index {
          assert faqs[b] == rest[b - 1];
          if a > 0 { assert faqs[a] == rest[a - 1]; }
        }
      } else {
        assert faqs == rest;
      }
    }
  }

  /** Every outcome that parsed has its item. */
  lemma {:induction false} FaqsOfComplete(parsed: seq<Option<(string, string)>>, start: nat)
    ensures forall j :: 0 <= j < |parsed| && parsed[j].Some? ==> HasIndex(FaqsOf(parsed, start), start + j)
    decreases |parsed|
  {
    if parsed != [] {
      FaqsOfComplete(parsed[1..], start + 1);
      var faqs, rest := FaqsOf(parsed, start), FaqsOf(parsed[1..], start + 1);
      var skip := if parsed[0].Some? then 1 else 0;
      assert parsed[0].Some? ==> faqs == [Faq(start, parsed[0].value.0, parsed[0].value.1)] + rest;
      assert parsed[0].None? ==> faqs == rest;
      forall j | 0 <= j < |parsed| && parsed[j].Some?
        ensures HasIndex(faqs, start + j)
      {
        if j == 0 {
          assert faqs[0].index == start + j;
        } else {
          assert parsed[1..][j - 1] == parsed[j];
          assert HasIndex(rest, start + 1 + (j - 1));
          var t :| 0 <= t < |rest| && rest[t].index == start + 1 + (j - 1);
          assert faqs[t + skip].index == start + j;
        }
      }
    }
  }

  lemma ParsedSnoc(pieces: seq<string>, i: nat)
    requires i < |pieces|
    ensures Parsed(pieces[..i + 1]) == Parsed(pieces[..i]) + [ParsePiece(pieces[i])]
  {
  }

  lemma RenderedSnoc(faqs: seq<Faq>, f: Faq)
    ensures Rendered(faqs + [f]) == Rendered(faqs) + [RenderFaq(f)]
  {
  }

  // ---------------------------------------------------------------------
  // What the snippet looks like
  // ---------------------------------------------------------------------

  /** The wrapper takes its three values verbatim, in order. */
  lemma FillBaseLayout(contentBlocks: string, faqBlocks: string, spacerBlock: string)
    ensures FillBase(contentBlocks, faqBlocks, spacerBlock) ==
      BaseHead + contentBlocks + BaseMid + faqBlocks + BaseTail + spacerBlock + BaseEnd
  {
    FormatThreeFields(BaseHead, "content_blocks", BaseMid, "faq_blocks", BaseTail, "spacer_block", BaseEnd,
                      map["content_blocks" := contentBlocks, "faq_blocks" := faqBlocks,
                          "spacer_block" := spacerBlock]);
  }

  /** An item shows its question and answer verbatim and uses its index in
      both the collapse target `#faq-<index>` and the answer's id
      `faq-<index>`. */
  lemma RenderFaqLayout(f: Faq)
    ensures RenderFaq(f) ==
      FaqHead + Decimal(f.index) + FaqAfterTarget + f.question + FaqAfterQuestion
      + Decimal(f.index) + FaqAfterId + f.answer + FaqEnd
    ensures FaqHead == FaqHead[..|FaqHead| - 5] + "#" + "faq-"
    ensures FaqAfterQuestion == FaqAfterQuestion[..|FaqAfterQuestion| - 8] + "id=\"" + "faq-"
  {
    FormatFourFields(FaqHead, "index", FaqAfterTarget, "question", FaqAfterQuestion, "index",
                     FaqAfterId, "answer", FaqEnd,
                     map["index" := Decimal(f.index), "question" := f.question, "answer" := f.answer]);
  }

  /** The snippet is the wrapper around the body, taken verbatim, and the
      rendered items joined by newlines, in item order; the spacer follows
      exactly when at least one item was rendered. */
  lemma AssembledHtmlLayout(body: string, faqsRaw: string)
    ensures var faqs := Faqs(faqsRaw);
      AssembledHtml(body, faqsRaw) ==
        BaseHead + body + BaseMid + Join(Rendered(faqs), "\n") + BaseTail
        + (if |faqs| > 0 then Spacer else "") + BaseEnd
  {
    var blocks := Rendered(Faqs(faqsRaw));
    FillBaseLayout(body, Join(blocks, "\n"), SpacerFor(blocks));
  }

  // ---------------------------------------------------------------------
  // Which pieces become items, and with what index
  // ---------------------------------------------------------------------

  /** Each item comes from the "Q: " piece at its 1-based index and carries
      that piece's parsed question and answer. */
  lemma FaqsFromPieces(faqsRaw: string)
    ensures var pieces, faqs := Pieces(faqsRaw), Faqs(faqsRaw);
      forall t :: 0 <= t < |faqs| ==>
        && 1 <= faqs[t].index <= |pieces|
        && ParsePiece(pieces[faqs[t].index - 1]) == Some((faqs[t].question, faqs[t].answer))
  {
    var pieces := Pieces(faqsRaw);
    var parsed := Parsed(pieces);
    FaqsOfSound(parsed, 1);
    forall j | 0 <= j < |pieces| ensures parsed[j] == ParsePiece(pieces[j]) {}
  }

  /** Item indices strictly increase, so items keep the order of their
      pieces. */
  lemma FaqIndicesIncrease(faqsRaw: string)
    ensures var faqs := Faqs(faqsRaw);
      forall a, b :: 0 <= a < b < |faqs| ==> faqs[a].index < faqs[b].index
  {
    FaqsOfIncreasing(Parsed(Pieces(faqsRaw)), 1);
  }

  /** Every piece that parses has its item. */
  lemma ParsedPiecesRendered(faqsRaw: string)
    ensures var pieces, faqs := Pieces(faqsRaw), Faqs(faqsRaw);
      forall j :: 0 <= j < |pieces| && ParsePiece(pieces[j]).Some? ==> HasIndex(faqs, j + 1)
  {
    var pieces := Pieces(faqsRaw);
    var parsed := Parsed(pieces);
    FaqsOfComplete(parsed, 1);
    forall j | 0 <= j < |pieces| ensures parsed[j] == ParsePiece(pieces[j]) {}
  }

  /** No two items share an anchor id, although ids may skip numbers. */
  lemma FaqIdsDistinct(faqsRaw: string)
    ensures var faqs := Faqs(faqsRaw);
      forall a, b :: 0 <= a < b < |faqs| ==> FaqId(faqs[a].index) != FaqId(faqs[b].index)
  {
    var faqs := Faqs(faqsRaw);
    FaqIndicesIncrease(faqsRaw);
    forall a, b | 0 <= a < b < |faqs| ensures FaqId(faqs[a].index) != FaqId(faqs[b].index) {
      DecimalInjective(faqs[a].index, faqs[b].index);
      assert FaqId(faqs[a].index)[4..] == Decimal(faqs[a].index);
      assert FaqId(faqs[b].index)[4..] == Decimal(faqs[b].index);
    }
  }

  /** There are as many pieces as "Q: " markers, so never more items than
      markers, and every index is at most the number of markers. */
  lemma FaqCountBound(faqsRaw: string)
    ensures |Pieces(faqsRaw)| == Count(faqsRaw, QMarker)
    ensures |Faqs(faqsRaw)| <= Count(faqsRaw, QMarker)
    ensures forall t :: 0 <= t < |Faqs(faqsRaw)| ==> Faqs(faqsRaw)[t].index <= Count(faqsRaw, QMarker)
  {
    SplitCount(faqsRaw, QMarker);
    FaqsFromPieces(faqsRaw);
  }

  /** Without a "Q: " marker there are no items: the accordion is empty and
      there is no spacer. */
  lemma NoMarkerNoFaqs(body: string, faqsRaw: string)
    requires !Contains(faqsRaw, QMarker)
    ensures Faqs(faqsRaw) == []
    ensures AssembledHtml(body, faqsRaw) == BaseHead + body + BaseMid + BaseTail + BaseEnd
  {
    assert Split(faqsRaw, QMarker) == [faqsRaw];
    AssembledHtmlLayout(body, faqsRaw);
  }

  lemma MarkersSelfDisjoint()
    ensures SelfDisjoint(QMarker) && SelfDisjoint(AMarker)
  {
    assert QMarker[1..] != QMarker[..2] by { assert QMarker[1..][0] != QMarker[..2][0]; }
    assert QMarker[2..] != QMarker[..1] by { assert QMarker[2..][0] != QMarker[..1][0]; }
    assert AMarker[1..] != AMarker[..2] by { assert AMarker[1..][0] != AMarker[..2][0]; }
    assert AMarker[2..] != AMarker[..1] by { assert AMarker[2..][0] != AMarker[..1][0]; }
  }

  /** A piece becomes an item exactly when its stripped text holds exactly
      one "A: "; with none or several it is dropped. */
  lemma PieceKeptIff(piece: string)
    ensures ParsePiece(piece).Some? <==> Count(Strip(piece), AMarker) == 1
  {
    SplitCount(Strip(piece), AMarker);
  }

  /** When the stripped piece is a question part, one "A: " and an answer
      part, the item's question and answer are those parts stripped. */
  lemma PieceParts(piece: string, q: string, a: string)
    requires Strip(piece) == q + AMarker + a
    requires !Contains(q, AMarker) && !Contains(a, AMarker)
    ensures ParsePiece(piece) == Some((Strip(q), Strip(a)))
  {
    MarkersSelfDisjoint();
    SplitInTwo(Strip(piece), AMarker, q, a);
  }

  /** A kept item never has an empty answer: stripping the piece removes
      the space of a trailing "A: ", so a piece whose answer part is blank
      no longer holds the marker and is dropped. */
  lemma AnswerNonEmpty(piece: string)
    ensures ParsePiece(piece).Some? ==> ParsePiece(piece).value.1 != []
  {
    if |Split(Strip(piece), AMarker)| == 2 {
      assert IsSpace(AMarker[2]);
      StrippedSecondPiece(piece, AMarker);
      StripSpec(Split(Strip(piece), AMarker)[1]);
    }
  }

  /** Text before the first "Q: " never reaches an item: any marker-free
      preamble gives the same items as none. */
  lemma PreambleIgnored(pre: string, rest: string)
    requires !Contains(pre, QMarker)
    ensures Faqs(pre + QMarker + rest) == Faqs(QMarker + rest)
  {
    MarkersSelfDisjoint();
    FindAfter(pre, QMarker, rest);
    assert !Contains([], QMarker);
    FindAfter([], QMarker, rest);
    var s1, s2 := pre + QMarker + rest, QMarker + rest;
    assert s1[|pre| + |QMarker|..] == rest;
    assert [] + QMarker + rest == s2;
    assert s2[|QMarker|..] == rest;
    assert Pieces(s1) == Split(rest, QMarker) == Pieces(s2);
  }

  /** Text that opens with "Q: " and holds no other marker is one piece. */
  lemma SinglePiece(rest: string)
    requires !Contains(rest, QMarker)
    ensures Pieces(QMarker + rest) == [rest]
  {
    MarkersSelfDisjoint();
    assert !Contains([], QMarker);
    FindAfter([], QMarker, rest);
    assert [] + QMarker + rest == QMarker + rest;
    assert (QMarker + rest)[|QMarker|..] == rest;
  }

  /** Text that opens with "Q: " and holds no other marker gives at most
      one item, numbered 1. */
  lemma SingleQuestion(piece: string)
    requires !Contains(piece, QMarker)
    ensures Faqs(QMarker + piece) ==
      match ParsePiece(piece)
      case None => []
      case Some((q, a)) => [Faq(1, q, a)]
  {
    SinglePiece(piece);
    assert Parsed([piece]) == [ParsePiece(piece)];
  }
}
