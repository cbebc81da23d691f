/**
 * The content of the two PDF documents: the paragraphs in the order they are added, and the
 * rectangles of the histogram. Fonts, colours and the PDF encoding itself are not modelled.
 */
module GeneratePdfFile {
  import opened JavaInt
  import opened MapSum
  import opened JavaString

  /** Histogram geometry, in PDF points. */
  const BarWidth: int := 50
  const BarGap: int := 20
  const FirstBarX: int := 50
  const BarBaseY: int := 200
  const PointsPerEnergy: int := 5

  /** A filled rectangle: lower-left corner, width and height. */
  datatype Bar = Bar(x: int, y: int, width: int, height: int)

  /** The paragraphs the two documents are made of; `Text` gives the string each one shows. */
  datatype Paragraph =
    | Banner
    | Title
    | DeckId(id: string)
    | TotalCost(total: int)
    | InvalidRule
    | InvalidHeading
    | InvalidLine(line: string)
    | HistogramRule
    | HistogramHeading
    | CardLabel(key: string, energy: int)
    | VoidMarker

  const TotalPrefix := "Total Cost: "

  /** The string a paragraph shows; only a verbatim invalid line can be empty. */
  function Text(p: Paragraph): (s: string)
    ensures s == [] <==> p.InvalidLine? && p.line == []
  {
    match p
    case Banner => "======================================"
    case Title => "SLAY THE SPIRE DECK COST TALLY REPORT"
    case DeckId(id) => "Deck ID: " + id
    case TotalCost(total) => TotalPrefix + IntToString(total) + " energy"
    case InvalidRule => "---------------"
    case InvalidHeading => "Invalid Cards:"
    case InvalidLine(line) => line
    case HistogramRule => "--------------------"
    case HistogramHeading => "Histogram of Cards:"
    case CardLabel(key, energy) => key + " (" + IntToString(energy) + " energy )"
    case VoidMarker => "VOID"
  }

  datatype Document = Document(paragraphs: seq<Paragraph>, bars: seq<Bar>)

  /** The paragraphs both documents open with. */
  function Header(id: string): seq<Paragraph>
  {
    [Banner, Title, Banner, DeckId(id)]
  }

  /**
   * One bar per key, left to right from `x`, each moved `BarWidth + BarGap` past the previous one;
   * the height is `value * 5` computed in `int`.
   */
  function Bars(deck: map<string, int>, keys: seq<string>, x: int): (bars: seq<Bar>)
    requires forall i :: 0 <= i < |keys| ==> keys[i] in deck
    ensures |bars| == |keys|
    ensures forall i :: 0 <= i < |keys| ==>
      bars[i] == Bar(x + (BarWidth + BarGap) * i, BarBaseY, BarWidth, Wrap(deck[keys[i]] * PointsPerEnergy))
  {
    if keys == [] then []
    else
      [Bar(x, BarBaseY, BarWidth, Wrap(deck[keys[0]] * PointsPerEnergy))]
      + Bars(deck, keys[1..], x + BarWidth + BarGap)
  }

  /** One label paragraph per key, in the same order as the bars. */
  function Labels(deck: map<string, int>, keys: seq<string>): (labels: seq<Paragraph>)
    requires forall i :: 0 <= i < |keys| ==> keys[i] in deck
    ensures |labels| == |keys|
    ensures forall i :: 0 <= i < |keys| ==> labels[i] == CardLabel(keys[i], deck[keys[i]])
  {
    if keys == [] then [] else [CardLabel(keys[0], deck[keys[0]])] + Labels(deck, keys[1..])
  }

  /** The invalid lines, one paragraph each. */
  function InvalidLines(invalid: seq<string>): (lines: seq<Paragraph>)
    ensures |lines| == |invalid|
    ensures forall i :: 0 <= i < |invalid| ==> lines[i] == InvalidLine(invalid[i])
  {
    if invalid == [] then [] else [InvalidLine(invalid[0])] + InvalidLines(invalid[1..])
  }

  /** Where the label paragraphs start in the summary report. */
  function LabelStart(invalid: seq<string>): nat
  {
    11 + |invalid|
  }

  /**
   * `generatePDF`: header, total cost, the invalid lines under their heading, then the histogram
   * heading and one label per deck key; `order` is the order the map hands out its keys.
   */
  function GeneratePdf(id: string, total: int, deck: map<string, int>, invalid: seq<string>, order: seq<string>)
    : (doc: Document)
    requires Enumerates(order, deck)
  {
    Document(
      Header(id) + [TotalCost(total), InvalidRule, InvalidHeading, InvalidRule] + InvalidLines(invalid)
      + [HistogramRule, HistogramHeading, HistogramRule] + Labels(deck, order),
      Bars(deck, order, FirstBarX))
  }

  /** The four parts the summary report's paragraphs are concatenated from. */
  lemma SummaryConcat(id: string, total: int, deck: map<string, int>, invalid: seq<string>, order: seq<string>)
    requires Enumerates(order, deck)
    ensures GeneratePdf(id, total, deck, invalid, order).paragraphs
      == SummaryFront(id, total) + InvalidLines(invalid) + HistogramBlock() + Labels(deck, order)
  {
  }

  /** The eight paragraphs before the invalid lines. */
  function SummaryFront(id: string, total: int): (front: seq<Paragraph>)
    ensures front == [Banner, Title, Banner, DeckId(id), TotalCost(total), InvalidRule, InvalidHeading, InvalidRule]
  {
    Header(id) + [TotalCost(total), InvalidRule, InvalidHeading, InvalidRule]
  }

  /** The histogram heading between its two rules. */
  function HistogramBlock(): seq<Paragraph>
  {
    [HistogramRule, HistogramHeading, HistogramRule]
  }

  lemma SummaryFrontAt(id: string, total: int, deck: map<string, int>, invalid: seq<string>, order: seq<string>)
    requires Enumerates(order, deck)
    ensures var p := GeneratePdf(id, total, deck, invalid, order).paragraphs;
      && |p| == LabelStart(invalid) + |order|
      && p[0] == Banner && p[1] == Title && p[2] == Banner && p[3] == DeckId(id)
      && p[4] == TotalCost(total) && p[5] == InvalidRule && p[6] == InvalidHeading && p[7] == InvalidRule
  {
    SummaryConcat(id, total, deck, invalid, order);
    ConcatIndex(SummaryFront(id, total), InvalidLines(invalid), HistogramBlock(), Labels(deck, order));
  }

  lemma SummaryInvalidAt(id: string, total: int, deck: map<string, int>, invalid: seq<string>, order: seq<string>)
    requires Enumerates(order, deck)
    ensures var p := GeneratePdf(id, total, deck, invalid, order).paragraphs;
      && |p| == LabelStart(invalid) + |order|
      && (forall i :: 0 <= i < |invalid| ==> p[8 + i] == InvalidLine(invalid[i]))
      && p[8 + |invalid|] == HistogramRule && p[9 + |invalid|] == HistogramHeading && p[10 + |invalid|] == HistogramRule
  {
    SummaryConcat(id, total, deck, invalid, order);
    var p := GeneratePdf(id, total, deck, invalid, order).paragraphs;
    var middle := SummaryFront(id, total) + InvalidLines(invalid);
    var head := middle + HistogramBlock();
    assert p == head + Labels(deck, order);
    forall i | 0 <= i < |invalid|
      ensures p[8 + i] == InvalidLine(invalid[i])
    {
      assert p[8 + i] == head[8 + i] == middle[8 + i];
    }
    assert p[8 + |invalid|] == head[|middle|];
    assert p[9 + |invalid|] == head[|middle| + 1];
    assert p[10 + |invalid|] == head[|middle| + 2];
  }

  lemma SummaryLabelsAt(id: string, total: int, deck: map<string, int>, invalid: seq<string>, order: seq<string>)
    requires Enumerates(order, deck)
    ensures var p := GeneratePdf(id, total, deck, invalid, order).paragraphs;
      && |p| == LabelStart(invalid) + |order|
      && (forall i :: 0 <= i < |order| ==> p[LabelStart(invalid) + i] == CardLabel(order[i], deck[order[i]]))
  {
    SummaryConcat(id, total, deck, invalid, order);
    var p := GeneratePdf(id, total, deck, invalid, order).paragraphs;
    var head := SummaryFront(id, total) + InvalidLines(invalid) + HistogramBlock();
    var labels := Labels(deck, order);
    assert p == head + labels;
    assert |head| == LabelStart(invalid);
    forall i | 0 <= i < |order|
      ensures p[LabelStart(invalid) + i] == CardLabel(order[i], deck[order[i]])
    {
      assert p[|head| + i] == labels[i];
    }
  }

  /**
   * Where each paragraph of the summary report sits: banner, title, banner, deck ID, total, the
   * invalid-card heading between two rules, one paragraph per invalid line, the histogram heading
   * between two rules, then one label per key; and one bar per key.
   */
  lemma SummaryLayout(id: string, total: int, deck: map<string, int>, invalid: seq<string>, order: seq<string>)
    requires Enumerates(order, deck)
    ensures var p := GeneratePdf(id, total, deck, invalid, order).paragraphs;
      && |p| == LabelStart(invalid) + |order|
      && p[0] == Banner && p[1] == Title && p[2] == Banner && p[3] == DeckId(id)
      && p[4] == TotalCost(total) && p[5] == InvalidRule && p[6] == InvalidHeading && p[7] == InvalidRule
    ensures var p := GeneratePdf(id, total, deck, invalid, order).paragraphs;
      && (forall i :: 0 <= i < |invalid| ==> p[8 + i] == InvalidLine(invalid[i]))
      && p[8 + |invalid|] == HistogramRule && p[9 + |invalid|] == HistogramHeading && p[10 + |invalid|] == HistogramRule
    ensures var p := GeneratePdf(id, total, deck, invalid, order).paragraphs;
      && (forall i :: 0 <= i < |order| ==> p[LabelStart(invalid) + i] == CardLabel(order[i], deck[order[i]]))
    ensures |GeneratePdf(id, total, deck, invalid, order).bars| == |order|
  {
    SummaryFrontAt(id, total, deck, invalid, order);
    SummaryInvalidAt(id, total, deck, invalid, order);
    SummaryLabelsAt(id, total, deck, invalid, order);
  }

  /** `generateVoidPDF`. */
  function GenerateVoidPdf(id: string): Document
  {
    Document(Header(id) + [VoidMarker], [])
  }

  predicate StartsWith(s: string, prefix: string)
  {
    |prefix| <= |s| && s[..|prefix|] == prefix
  }

  /** A text whose first character differs from the prefix's does not start with it. */
  lemma FirstCharDiffers(s: string, prefix: string)
    requires s != [] && prefix != [] && s[0] != prefix[0]
    ensures !StartsWith(s, prefix)
  {
    if |prefix| <= |s| {
      assert s[..|prefix|][0] == s[0];
    }
  }

  /** Apart from verbatim lines and labels, only the total-cost paragraph shows text starting with `Total Cost: `. */
  lemma TotalPrefixOnlyOnTotal(p: Paragraph)
    requires !p.InvalidLine? && !p.CardLabel?
    ensures StartsWith(Text(p), TotalPrefix) <==> p.TotalCost?
  {
    var t := Text(p);
    assert TotalPrefix[0] == 'T';
    if p.TotalCost? {
      assert t == TotalPrefix + (IntToString(p.total) + " energy");
    } else if p.DeckId? {
      assert t[0] == 'D';
      FirstCharDiffers(t, TotalPrefix);
    } else if p.Title? {
      assert t[0] == 'S';
      FirstCharDiffers(t, TotalPrefix);
    } else if p.VoidMarker? {
      assert t[0] == 'V';
      FirstCharDiffers(t, TotalPrefix);
    } else if p.InvalidHeading? {
      assert t[0] == 'I';
      FirstCharDiffers(t, TotalPrefix);
    } else if p.HistogramHeading? {
      assert t[0] == 'H';
      FirstCharDiffers(t, TotalPrefix);
    } else if p.Banner? || p.InvalidRule? || p.HistogramRule? {
      assert t[0] in "=-";
      FirstCharDiffers(t, TotalPrefix);
    }
  }

  /**
   * The void report is the header and the VOID marker only: no total-cost paragraph, no invalid-card
   * or histogram heading, no bars.
   */
  lemma VoidReportContent(id: string)
    ensures GenerateVoidPdf(id).paragraphs == [Banner, Title, Banner, DeckId(id), VoidMarker]
    ensures forall p :: p in GenerateVoidPdf(id).paragraphs ==>
      !p.TotalCost? && p != InvalidHeading && p != HistogramHeading && !p.CardLabel?
    ensures GenerateVoidPdf(id).bars == []
  {
  }

  /** Read as text, the summary always shows a `Total Cost: ` line and the void report never does. */
  lemma TotalTextOnlyInSummary(id: string, total: int, deck: map<string, int>, invalid: seq<string>, order: seq<string>)
    requires Enumerates(order, deck)
    ensures var p := GeneratePdf(id, total, deck, invalid, order).paragraphs;
      exists i :: 0 <= i < |p| && StartsWith(Text(p[i]), TotalPrefix)
    ensures var p := GenerateVoidPdf(id).paragraphs;
      forall i :: 0 <= i < |p| ==> !StartsWith(Text(p[i]), TotalPrefix)
  {
    var p := GeneratePdf(id, total, deck, invalid, order).paragraphs;
    SummaryHasTotalAndHistogram(id, total, deck, invalid, order);
    TotalPrefixOnlyOnTotal(p[4]);
    var v := GenerateVoidPdf(id).paragraphs;
    forall i | 0 <= i < |v|
      ensures !StartsWith(Text(v[i]), TotalPrefix)
    {
      TotalPrefixOnlyOnTotal(v[i]);
    }
  }

  /** The summary report always has the total-cost paragraph, fifth, and both headings. */
  lemma SummaryHasTotalAndHistogram(id: string, total: int, deck: map<string, int>, invalid: seq<string>, order: seq<string>)
    requires Enumerates(order, deck)
    ensures var doc := GeneratePdf(id, total, deck, invalid, order);
      && doc.paragraphs[4] == TotalCost(total)
      && HistogramHeading in doc.paragraphs
      && InvalidHeading in doc.paragraphs
  {
    SummaryLayout(id, total, deck, invalid, order);
  }

  /** Both documents begin with the same four paragraphs. */
  lemma SharedHeader(id: string, total: int, deck: map<string, int>, invalid: seq<string>, order: seq<string>)
    requires Enumerates(order, deck)
    ensures GeneratePdf(id, total, deck, invalid, order).paragraphs[..4] == GenerateVoidPdf(id).paragraphs[..4]
  {
    SummaryLayout(id, total, deck, invalid, order);
  }

  /** Every key of the deck has exactly one label paragraph, showing its accumulated cost. */
  lemma OneLabelPerKey(id: string, total: int, deck: map<string, int>, invalid: seq<string>, order: seq<string>, key: string)
    requires Enumerates(order, deck) && key in deck
    ensures var doc := GeneratePdf(id, total, deck, invalid, order);
      && (exists i :: 0 <= i < |order| && order[i] == key
                      && doc.paragraphs[LabelStart(invalid) + i] == CardLabel(key, deck[key]))
      && (forall i, j :: 0 <= i < |order| && 0 <= j < |order| && order[i] == key && order[j] == key ==> i == j)
  {
    SummaryLayout(id, total, deck, invalid, order);
    assert key in order;
  }

  /** Bars stand on the same base line, left to right, 20 points apart, never overlapping. */
  lemma BarsDoNotOverlap(deck: map<string, int>, order: seq<string>, i: nat, j: nat)
    requires Enumerates(order, deck) && i < j < |order|
    ensures var bars := Bars(deck, order, FirstBarX);
      && bars[i].y == bars[j].y == BarBaseY
      && bars[i].x + bars[i].width + BarGap <= bars[j].x
  {
  }

  /** With costs that fit, a bar is 5 points high per unit of energy. */
  lemma BarHeightIsProportional(deck: map<string, int>, order: seq<string>, i: nat)
    requires Enumerates(order, deck) && i < |order|
    requires 0 <= deck[order[i]] <= MaxInt / PointsPerEnergy
    ensures Bars(deck, order, FirstBarX)[i].height == PointsPerEnergy * deck[order[i]]
  {
  }
}
