/**
 * The deck reader of `SlayTheSpire`: the per-line handling of `readTxtFile`, its two abort checks,
 * `isInteger`, `calculateTotalDeckCost`, the output path of `generateFile` and the directory
 * extraction of `main`.
 *
 * The Java class keeps the deck and the invalid-line list in static fields that are never cleared;
 * here they are the `Tally` value a run starts from and returns. The line counter is local to a call.
 */
module SlayTheSpire {
  import opened Wrappers
  import opened JavaInt
  import opened JavaString
  import opened MapSum
  import DeckIdGenerator
  import GeneratePdfFile

  const MaxLines: nat := 1000
  const MaxInvalid: nat := 10
  const MinCost: int := 0
  const MaxCost: int := 6
  const Separator: char := ':'

  /** The static `cardDeck` map and `invalid_cards` list. */
  datatype Tally = Tally(deck: map<string, int>, invalid: seq<string>)

  /** The statics after `readTxtFile`, and its boolean result. */
  datatype Outcome = Outcome(deck: map<string, int>, invalid: seq<string>, success: bool)

  /** What reading the file yields: every line, or the lines before an `IOException` (none when it cannot be opened). */
  datatype Source = Read(lines: seq<string>) | BrokenAfter(lines: seq<string>)

  /** `isInteger`: non-empty and accepted by `Integer.parseInt`. */
  function IsInteger(s: string): (b: bool)
    ensures b <==> ParseInt(s).Some?
    ensures b ==> s != [] && (IsDigit(s[0]) || s[0] == '+' || s[0] == '-')
    ensures b ==> forall i :: 1 <= i < |s| ==> IsDigit(s[i])
    ensures b ==> IsDigit(s[|s| - 1])
  {
    s != [] && ParseInt(s).Some?
  }

  /** A sign with no digit after it is not an integer, so `Strike:+` and `Strike:-` are no card lines. */
  lemma LoneSignNotInteger()
    ensures !IsInteger("+") && !IsInteger("-")
  {
  }

  /** A line that is empty once every `\s` character is deleted. */
  predicate IsBlank(line: string)
  {
    DeleteWhitespace(line) == []
  }

  /** The body of the reading loop after its two abort checks. */
  function HandleLine(t: Tally, line: string): (r: Tally)
    ensures t.invalid <= r.invalid && |r.invalid| <= |t.invalid| + 2
    ensures r.deck.Keys == t.deck.Keys || |r.invalid| == |t.invalid|
  {
    var invalid1 := if IsBlank(line) then t.invalid + [line] else t.invalid;
    var invalid2 := if Separator !in line then invalid1 + [line] else invalid1;
    var fields := Split(line, Separator);
    if |fields| == 2 && IsInteger(fields[1]) then
      var key := fields[0];
      var value := ParseInt(fields[1]).value;
      if !(value <= MaxCost) || !(value >= MinCost) then Tally(t.deck, invalid2 + [line])
      else if key in t.deck then Tally(t.deck[key := Wrap(t.deck[key] + value)], invalid2)
      else Tally(t.deck[key := value], invalid2)
    else Tally(t.deck, invalid2)
  }

  /** How a line is treated, stated from the line's shape rather than from `split`. */
  datatype LineKind =
    | Blank                              // only whitespace: recorded as invalid twice
    | Unseparated                        // no separator: recorded as invalid once
    | OutOfRange                         // `name:cost` with an integer cost outside [0, 6]: invalid once
    | Card(name: string, cost: int)      // `name:cost` with cost in [0, 6]: added to the deck
    | Dropped                            // anything else with a separator: ignored

  function Classify(line: string): (kind: LineKind)
    ensures kind.Card? ==> MinCost <= kind.cost <= MaxCost && Separator !in kind.name
  {
    if forall i :: 0 <= i < |line| ==> IsRegexSpace(line[i]) then Blank
    else if Separator !in line then Unseparated
    else
      match FieldsAtFirstSeparator(line, Separator)
      case None => Dropped
      case Some((name, costText)) =>
        match ParseInt(costText)
        case None => Dropped
        case Some(cost) => if MinCost <= cost <= MaxCost then Card(name, cost) else OutOfRange
  }

  /** The deck after adding `cost` to `name`, with Java's `int` addition. */
  function AddCost(deck: map<string, int>, name: string, cost: int): (r: map<string, int>)
    ensures r.Keys == deck.Keys + {name}
    ensures forall other :: other in deck && other != name ==> r[other] == deck[other]
    ensures name !in deck ==> r[name] == cost
    ensures name in deck && InRange(deck[name] + cost) ==> r[name] == deck[name] + cost
    ensures name in deck ==> InRange(r[name])
  {
    deck[name := if name in deck then Wrap(deck[name] + cost) else cost]
  }

  /** What one line does to the tally, case by case. */
  lemma HandleLineByKind(t: Tally, line: string)
    ensures match Classify(line)
      case Blank => HandleLine(t, line) == Tally(t.deck, t.invalid + [line, line])
      case Unseparated => HandleLine(t, line) == Tally(t.deck, t.invalid + [line])
      case OutOfRange => HandleLine(t, line) == Tally(t.deck, t.invalid + [line])
      case Card(name, cost) => HandleLine(t, line) == Tally(AddCost(t.deck, name, cost), t.invalid)
      case Dropped => HandleLine(t, line) == t
  {
    if Separator !in line {
      HandleUnseparatedLine(t, line);
    } else {
      HandleSeparatedLine(t, line);
    }
  }

  /** A line without separator: recorded once, or twice when it is blank. */
  lemma HandleUnseparatedLine(t: Tally, line: string)
    requires Separator !in line
    ensures HandleLine(t, line) == Tally(t.deck, t.invalid + if IsBlank(line) then [line, line] else [line])
  {
    assert Split(line, Separator) == [line];
  }

  /** A line with a separator is not blank; it adds a card, is recorded once, or is ignored. */
  lemma HandleSeparatedLine(t: Tally, line: string)
    requires Separator in line
    ensures !IsBlank(line)
    ensures HandleLine(t, line) ==
      match FieldsAtFirstSeparator(line, Separator)
      case None => t
      case Some((name, costText)) =>
        match ParseInt(costText)
        case None => t
        case Some(cost) =>
          if MinCost <= cost <= MaxCost then Tally(AddCost(t.deck, name, cost), t.invalid)
          else Tally(t.deck, t.invalid + [line])
  {
    SplitIntoTwo(line, Separator);
    var i := IndexOf(line, Separator);
    assert !IsRegexSpace(line[i]);
  }

  /** The deck changes only for a card line, and then only by `AddCost`. */
  lemma HandleLineDeck(t: Tally, line: string)
    ensures var kind := Classify(line);
      HandleLine(t, line).deck == if kind.Card? then AddCost(t.deck, kind.name, kind.cost) else t.deck
    ensures Classify(line).Card? ==> MinCost <= Classify(line).cost <= MaxCost
  {
    HandleLineByKind(t, line);
  }

  /** A blank line lands in the invalid list twice and the deck is untouched. */
  lemma BlankLineRecordedTwice(t: Tally, line: string)
    requires DeleteWhitespace(line) == []
    ensures HandleLine(t, line) == Tally(t.deck, t.invalid + [line, line])
  {
    HandleLineByKind(t, line);
  }

  /** A non-blank line without separator, or with an integer cost outside [0, 6], lands in the list once. */
  lemma MalformedLineRecordedOnce(t: Tally, line: string)
    requires DeleteWhitespace(line) != []
    requires Separator !in line
      || (FieldsAtFirstSeparator(line, Separator).Some?
          && ParseInt(FieldsAtFirstSeparator(line, Separator).value.1).Some?
          && !(MinCost <= ParseInt(FieldsAtFirstSeparator(line, Separator).value.1).value <= MaxCost))
    ensures HandleLine(t, line) == Tally(t.deck, t.invalid + [line])
  {
    assert !forall i :: 0 <= i < |line| ==> IsRegexSpace(line[i]);
    if Separator !in line {
      assert Classify(line) == Unseparated;
    } else {
      assert Classify(line) == OutOfRange;
    }
    HandleLineByKind(t, line);
  }

  /** `name:cost`, with any number of trailing separators, is a card line when the cost is an integer in [0, 6]. */
  lemma CardLineClassified(name: string, costText: string, k: nat)
    requires Separator !in name && Separator !in costText
    requires ParseInt(costText).Some? && MinCost <= ParseInt(costText).value <= MaxCost
    ensures Classify(name + [Separator] + costText + Repeat(Separator, k)) == Card(name, ParseInt(costText).value)
  {
    var line := name + [Separator] + costText + Repeat(Separator, k);
    FieldsOfShape(name, Separator, costText, k);
    assert line[|name|] == Separator;
    CardFields(line, name, costText);
  }

  /** A line whose fields at its first separator are a name and an in-range integer is a card line. */
  lemma CardFields(line: string, name: string, costText: string)
    requires Separator in line && FieldsAtFirstSeparator(line, Separator) == Some((name, costText))
    requires ParseInt(costText).Some? && MinCost <= ParseInt(costText).value <= MaxCost
    ensures Classify(line) == Card(name, ParseInt(costText).value)
  {
    var i := IndexOf(line, Separator);
    assert !IsRegexSpace(line[i]);
  }

  /**
   * A card line adds its cost to that name's entry (0 when absent); no other entry and not the
   * invalid list change. `CardLineClassified` says which lines are card lines.
   */
  lemma CardLineAccumulates(t: Tally, line: string, name: string, cost: int)
    requires Classify(line) == Card(name, cost)
    requires name in t.deck ==> InRange(t.deck[name]) && t.deck[name] + cost <= MaxInt
    ensures var r := HandleLine(t, line);
      && r.invalid == t.invalid
      && r.deck.Keys == t.deck.Keys + {name}
      && r.deck[name] == (if name in t.deck then t.deck[name] else 0) + cost
      && forall other :: other in t.deck && other != name ==> r.deck[other] == t.deck[other]
  {
    HandleLineByKind(t, line);
  }

  /** A line with a separator that does not split into two fields with an integer second field is ignored. */
  lemma UnparsableLineIgnored(t: Tally, line: string)
    requires Separator in line
    requires |Split(line, Separator)| != 2 || !IsInteger(Split(line, Separator)[1])
    ensures HandleLine(t, line) == t
  {
    var i := IndexOf(line, Separator);
    assert !IsRegexSpace(line[i]);
  }

  /**
   * The loop of `readTxtFile` from line counter `counter`: at the start of every iteration the
   * counter is bumped and checked against 1000, then the invalid list against 10, and only then is
   * the line handled.
   */
  function Run(lines: seq<string>, counter: nat, t: Tally): (o: Outcome)
    requires counter <= MaxLines
    ensures t.invalid <= o.invalid
    ensures o.success ==> counter + |lines| <= MaxLines
    decreases |lines|
  {
    if lines == [] then Outcome(t.deck, t.invalid, true)
    else if counter + 1 > MaxLines then Outcome(t.deck, t.invalid, false)
    else if |t.invalid| > MaxInvalid then Outcome(t.deck, t.invalid, false)
    else
      Run(lines[1..], counter + 1, HandleLine(t, lines[0]))
  }

  /** `readTxtFile`: the run over the lines that were read; an `IOException` makes the result false. */
  function ReadTxtFile(source: Source, t: Tally): (o: Outcome)
    ensures source.BrokenAfter? ==> !o.success
    ensures o.success ==> |source.lines| <= MaxLines
    ensures t.invalid <= o.invalid
  {
    var o := Run(source.lines, 0, t);
    match source
    case Read(_) => o
    case BrokenAfter(_) => o.(success := false)
  }

  /** `calculateTotalDeckCost`: the values added up in `int`, along the order the map hands out its keys. */
  function TotalDeckCost(deck: map<string, int>, order: seq<string>): (total: int)
    requires KeysIn(order, deck)
    ensures InRange(total)
  {
    if order == [] then 0
    else Wrap(TotalDeckCost(deck, order[..|order| - 1]) + deck[order[|order| - 1]])
  }

  /** Wrapping after every addition ends where wrapping the exact sum once does. */
  lemma {:induction false} TotalIsWrappedSumOver(deck: map<string, int>, order: seq<string>)
    requires KeysIn(order, deck)
    ensures TotalDeckCost(deck, order) == Wrap(SumOver(deck, order))
  {
    if order != [] {
      var init := order[..|order| - 1];
      TotalIsWrappedSumOver(deck, init);
      WrapAdd(SumOver(deck, init), deck[order[|order| - 1]]);
    }
  }

  /** Whatever order the map hands out its keys in, the total is the sum of the values reduced to `int`. */
  lemma TotalIsWrappedSum(deck: map<string, int>, order: seq<string>)
    requires Enumerates(order, deck)
    ensures KeysIn(order, deck) && TotalDeckCost(deck, order) == Wrap(Sum(deck))
  {
    SumOverEnumeration(deck, order);
    TotalIsWrappedSumOver(deck, order);
  }

  /** The directory part of the input path, `path.substring(0, path.lastIndexOf("/"))`; `None` when there is no `/`, where Java throws. */
  function ParentDirectory(path: string): (dir: Option<string>)
    ensures dir.None? <==> '/' !in path
    ensures dir.Some? ==> |dir.value| < |path| && path[..|dir.value|] == dir.value && path[|dir.value|] == '/'
    ensures dir.Some? ==> '/' !in path[|dir.value| + 1..]
  {
    var i := LastIndexOf(path, '/');
    if i < 0 then None else Some(path[..i])
  }

  const FilePrefix := "/SpireDeck_"
  const ReportSuffix := ".pdf"
  const VoidSuffix := "(VOID).pdf"

  /** What follows the ID in the file name. */
  function Suffix(report: bool): string
  {
    if report then ReportSuffix else VoidSuffix
  }

  /** The file `generateFile` writes: the report name when `report` holds, the VOID name otherwise. */
  function OutputPath(dir: string, id: string, report: bool): string
  {
    dir + FilePrefix + id + Suffix(report)
  }

  /**
   * The output file lies directly in the chosen directory: its path is the directory, a `/`, then
   * the file name, and when the ID has no `/` of its own the parent directory of the path is again
   * the chosen one.
   */
  lemma OutputPathInDirectory(dir: string, id: string, report: bool)
    ensures var path := OutputPath(dir, id, report);
      && |dir| < |path| && path[..|dir|] == dir && path[|dir|] == '/'
    ensures '/' !in id ==> ParentDirectory(OutputPath(dir, id, report)) == Some(dir)
  {
    var name := FilePrefix + id + Suffix(report);
    assert OutputPath(dir, id, report) == dir + name;
    FileNameSlash(id, report);
    if '/' !in id {
      LastSlashAt(dir, name);
    }
  }

  /** The file name opens with the only `/` it has, unless the ID brings one of its own. */
  lemma FileNameSlash(id: string, report: bool)
    ensures var name := FilePrefix + id + Suffix(report);
      name != [] && name[0] == '/' && ('/' !in id ==> '/' !in name[1..])
  {
    var name := FilePrefix + id + Suffix(report);
    assert name[1..] == FilePrefix[1..] + id + Suffix(report);
    assert '/' !in FilePrefix[1..] && '/' !in Suffix(report);
  }

  /** A path made of a directory and a name that starts with the only `/` of the name lies in that directory. */
  lemma LastSlashAt(dir: string, name: string)
    requires name != [] && name[0] == '/' && '/' !in name[1..]
    ensures ParentDirectory(dir + name) == Some(dir)
  {
    var path := dir + name;
    forall j | |dir| < j < |path|
      ensures path[j] != '/'
    {
      assert path[j] == name[1..][j - |dir| - 1];
    }
    assert path[|dir|] == '/';
    assert path[..|dir|] == dir;
  }

  /** The ID sits in the output path right after the directory and the file prefix. */
  lemma OutputPathParts(dir: string, id: string, report: bool)
    ensures var path := OutputPath(dir, id, report);
      && |path| == |dir| + |FilePrefix| + |id| + |Suffix(report)|
      && path[|dir| + |FilePrefix|..|dir| + |FilePrefix| + |id|] == id
  {
    ConcatParts(dir, FilePrefix, id, Suffix(report));
  }

  /** Within one directory, IDs of the same width never share a file name, and a report never shares one with a void file. */
  lemma OutputPathInjective(dir: string, id1: string, id2: string, report1: bool, report2: bool)
    requires |id1| == |id2|
    requires OutputPath(dir, id1, report1) == OutputPath(dir, id2, report2)
    ensures id1 == id2 && report1 == report2
  {
    OutputPathParts(dir, id1, report1);
    OutputPathParts(dir, id2, report2);
    assert |ReportSuffix| != |VoidSuffix|;
  }

  /** The file `generateFile` produces: where it goes and what it holds. */
  datatype GeneratedFile = GeneratedFile(path: string, document: GeneratePdfFile.Document, next: DeckIdGenerator.Generator)

  /**
   * `generateFile`: allocate a deck ID first (also for a void file), then write the void document
   * or the summary with the total of the deck. `None` when the supplied draws yield no fresh ID.
   */
  function GenerateFile(report: bool, dir: string, g: DeckIdGenerator.Generator, draws: seq<int>, writable: bool,
                        t: Tally, order: seq<string>): (r: Option<GeneratedFile>)
    requires DeckIdGenerator.AllDraws(draws)
    requires Enumerates(order, t.deck)
    ensures r.None? <==> DeckIdGenerator.GenerateUniqueNumber(g, draws, writable).None?
  {
    match DeckIdGenerator.GenerateUniqueNumber(g, draws, writable)
    case None => None
    case Some(issued) =>
      if !report then
        Some(GeneratedFile(OutputPath(dir, issued.id, false), GeneratePdfFile.GenerateVoidPdf(issued.id), issued.next))
      else
        EnumerationKeysIn(order, t.deck);
        var total := TotalDeckCost(t.deck, order);
        Some(GeneratedFile(OutputPath(dir, issued.id, true),
                           GeneratePdfFile.GeneratePdf(issued.id, total, t.deck, t.invalid, order), issued.next))
  }

  /**
   * The file goes under a fresh 9-digit ID that the generator now knows, in the directory of the
   * input; the summary carries the deck's sum reduced to `int` whatever order the keys come in,
   * and the void document does not depend on the deck at all.
   */
  lemma GeneratedFileContent(report: bool, dir: string, g: DeckIdGenerator.Generator, draws: seq<int>, writable: bool,
                             t: Tally, order: seq<string>)
    requires DeckIdGenerator.AllDraws(draws)
    requires Enumerates(order, t.deck)
    requires GenerateFile(report, dir, g, draws, writable, t, order).Some?
    ensures var f := GenerateFile(report, dir, g, draws, writable, t, order).value;
      var issued := DeckIdGenerator.GenerateUniqueNumber(g, draws, writable).value;
      && |issued.id| == DeckIdGenerator.IdWidth && issued.id !in g.ids && f.next == issued.next
      && f.path == OutputPath(dir, issued.id, report)
      && f.document == if report then GeneratePdfFile.GeneratePdf(issued.id, Wrap(Sum(t.deck)), t.deck, t.invalid, order)
                       else GeneratePdfFile.GenerateVoidPdf(issued.id)
  {
    var issued := DeckIdGenerator.GenerateUniqueNumber(g, draws, writable).value;
    TotalIsWrappedSum(t.deck, order);
  }
}
