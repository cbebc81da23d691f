# Slay the Spire deck cost tally, modelled in Dafny

The program reads a text file of `name:cost` card lines. It checks each line and adds the costs of
valid cards per name in a deck map. It also collects the lines it rejects. Then it writes one of two
PDF documents into the directory of the input file:

- a summary with the deck ID, the total cost, the rejected lines and a bar histogram with one bar per card name;
- a VOID document when `readTxtFile` returns false: the file could not be read to its end, it has more
  than 1000 lines, or the invalid list already held more than 10 entries when another line came.

Deck IDs are random nine-digit numbers that are kept unique through a store file. Each new ID is
appended to that file as a line of its own. A write that fails leaves the ID out of the file. A last
line without a newline absorbs the next ID (`UnterminatedStoreLosesId`). Otherwise the file holds
every ID handed out so far, one per line.

The model has eight modules:

- `SlayTheSpire` (`slay_the_spire.dfy`): `readTxtFile`, its per-line handling and its two abort
  checks. Also `isInteger`, `calculateTotalDeckCost`, the output path of `generateFile` and the
  directory extraction of `main`. The static deck map and invalid list are a `Tally` value that a
  run starts from and returns. `Classify` reads a line by its shape, as a second definition.
  `HandleLineByKind` proves the Java-faithful handler agrees with it on every line.
- `TallyProperties` (`tally_properties.dfy`): properties of whole runs. These are the 1000-line
  limit, the bound on the invalid list, exactly when a run succeeds (against a reference fold
  without abort checks), and the total cost.
- `DeckIdGenerator` (`deck_id_generator.dfy`): `%09d` formatting, the resampling loop over
  caller-supplied draws, and loading and appending on the store text.
- `GeneratePdfFile` (`generate_pdf_file.dfy`): the paragraphs of both documents, in order, and the
  histogram rectangles.
- `JavaInt`, `JavaString`, `MapSum` and `Wrappers`: the Java library behaviour the code relies on.
  - `JavaInt` covers 32-bit `int` wrap-around, `Integer.parseInt`, `Integer.toString` and zero padding.
  - `JavaString` covers `replaceAll("\\s+", "")`, `trim`, `split(":")` (trailing empty strings
    dropped), `contains`, `lastIndexOf`, and `BufferedReader.readLine` line splitting on `\n`,
    `\r` and `\r\n`.
  - `MapSum` is an order-free sum over map values.

The model keeps these behaviours of the code:

- `split(":")` cuts at every `:`. A line is a card line only when it has exactly two fields after
  trailing empty fields are dropped. So `a:5:` is a card line, and `a:b:5` is silently ignored.
- Whitespace is deleted only to test for a blank line. The cost text is parsed raw, so `Strike: 2`
  is ignored without being recorded as invalid.
- A blank line is recorded as invalid twice: it is empty once whitespace is deleted, and it has no `:`.
- Card names are taken as written: no name whitelist, no case folding.
- The cap on the invalid list is checked at the start of each line. The list can hold 11 or 12
  entries at the end of a run that succeeds (`CapCheckedBeforeEachLine`). Processing stops only
  when another line follows.

## Model

| member | source | states |
|---|---|---|
| SlayTheSpire.IsInteger | src/SlayTheSpire.java:150-160 | true exactly when `parseInt` accepts the text; false on empty text; an accepted text is a sign or digit followed only by digits, and ends with a digit |
| SlayTheSpire.LoneSignNotInteger | src/SlayTheSpire.java:150-160 | `+` and `-` alone are not integers |
| SlayTheSpire.HandleLine | src/SlayTheSpire.java:93-119 | one line only appends to the invalid list (at most two entries) and either leaves the deck's keys alone or leaves the list alone |
| SlayTheSpire.Classify | src/SlayTheSpire.java:104-112 | a card line found by the shape of the line has a cost in [0, 6] and a name without `:` |
| SlayTheSpire.HandleLineByKind | src/SlayTheSpire.java:93-119 | for each kind of line (blank, no separator, out-of-range cost, card, other) the exact tally the loop body leaves |
| SlayTheSpire.HandleLineDeck | src/SlayTheSpire.java:104-118 | the deck changes only for a card line, and then only by adding that line's cost to its name |
| SlayTheSpire.BlankLineRecordedTwice | src/SlayTheSpire.java:93-102 | a line that is empty once whitespace is deleted is appended verbatim twice and the deck is unchanged |
| SlayTheSpire.MalformedLineRecordedOnce | src/SlayTheSpire.java:96-112 | a non-blank line without `:`, or a two-field line whose integer cost is outside [0, 6], is appended once and the deck is unchanged |
| SlayTheSpire.CardLineClassified | src/SlayTheSpire.java:104-110 | `name:cost` followed by any number of `:` is a card line for `name` when the cost parses to a value in [0, 6] |
| SlayTheSpire.CardLineAccumulates | src/SlayTheSpire.java:114-118 | a card line sets its name's entry to the old value (0 when absent) plus the cost, when that sum fits in `int`; no other entry and not the invalid list change |
| SlayTheSpire.UnparsableLineIgnored | src/SlayTheSpire.java:104-106 | a line with `:` that does not give two fields with an integer second field changes nothing |
| SlayTheSpire.Run | src/SlayTheSpire.java:83-120 | the loop only appends to the invalid list, and it succeeds only within 1000 lines |
| SlayTheSpire.ReadTxtFile | src/SlayTheSpire.java:71-136 | an `IOException` makes the result false; success implies at most 1000 lines; the invalid list only grows |
| SlayTheSpire.AddCost | src/SlayTheSpire.java:114-117 | the deck gains the name as a key and nothing else; every other entry is kept; a new name maps to its cost; an existing entry becomes the old value plus the cost when that fits in `int`, and stays an `int` in any case |
| SlayTheSpire.TotalDeckCost | src/SlayTheSpire.java:174-181 | the total is an `int` value |
| SlayTheSpire.TotalIsWrappedSumOver | src/SlayTheSpire.java:176-178 | adding in `int` along any list of keys gives the exact sum along that list reduced to `int` |
| SlayTheSpire.TotalIsWrappedSum | src/SlayTheSpire.java:174-181 | whatever order the map hands out its keys in, the total is the sum of the values reduced to `int` |
| SlayTheSpire.ParentDirectory | src/SlayTheSpire.java:254 | the directory is the prefix of the path before its last `/`; there is none exactly when the path has no `/` |
| SlayTheSpire.OutputPathInDirectory | src/SlayTheSpire.java:205-215 | the output path is the chosen directory, a `/`, then the file name; when the ID has no `/` of its own, the parent directory of that path is the chosen directory again |
| SlayTheSpire.OutputPathInjective | src/SlayTheSpire.java:205-215 | within one directory, two IDs of equal width give the same file name only when the IDs and the report/VOID choice are equal |
| SlayTheSpire.GenerateFile | src/SlayTheSpire.java:198-217 | a file is produced exactly when the ID allocation succeeds |
| SlayTheSpire.GeneratedFileContent | src/SlayTheSpire.java:198-217 | the file is named after a fresh nine-digit ID (`.pdf` or `(VOID).pdf`), and the summary carries the deck's sum reduced to `int` |
| TallyProperties.RunSucceedsIff | src/SlayTheSpire.java:83-91 | a run succeeds exactly when it stays within 1000 lines and the list holds at most 10 entries before each line; it then ends in the reference fold |
| TallyProperties.ReadTxtFileSucceedsIff | src/SlayTheSpire.java:71-136 | `readTxtFile` returns true exactly when the file was read without an `IOException`, has at most 1000 lines, and the invalid list holds at most 10 entries before each line; the deck and list are then those of the reference fold |
| TallyProperties.LinesBeyondLimitIgnored | src/SlayTheSpire.java:84-87 | lines past the 1000th are never handled: the run ends false with exactly what the first 1000 lines left |
| TallyProperties.LongFileFails | src/SlayTheSpire.java:83-87 | a file of more than 1000 lines gives false, with the tally of its first 1000 lines |
| TallyProperties.InvalidListBounded | src/SlayTheSpire.java:89-112 | a run that starts with at most 12 invalid entries ends with at most 12 |
| TallyProperties.TooManyInvalidStops | src/SlayTheSpire.java:89-91 | with more than 10 invalid entries, the next line is not handled and the result is false |
| TallyProperties.CapCheckedBeforeEachLine | src/SlayTheSpire.java:89-102 | ten invalid entries and one blank last line end with twelve entries and true |
| TallyProperties.CostOf | src/SlayTheSpire.java:110-118 | the energy one line adds to the deck is in [0, 6] |
| TallyProperties.AddCostSum | src/SlayTheSpire.java:114-118 | while the deck's sum leaves room for 6 more within `int`, adding an accepted cost to a non-negative deck adds exactly that cost to the sum and keeps every entry non-negative |
| TallyProperties.HandleLineCost | src/SlayTheSpire.java:104-118 | while the deck is non-negative and its sum leaves room for 6 more within `int`, one line adds exactly its card cost (0 for any other line) to the sum, and entries stay non-negative |
| TallyProperties.AfterCost | src/SlayTheSpire.java:83-118 | while the deck is non-negative and its sum leaves room for 6 per line within `int`, over all lines the sum grows by exactly the costs of the card lines and entries stay non-negative |
| TallyProperties.RunCostBounded | src/SlayTheSpire.java:83-118 | from a non-negative deck whose sum leaves room for 6 per line the run may still handle within `int`, any run, successful or not, adds at most 6 per such line and keeps every entry non-negative |
| TallyProperties.TotalCostFromEmptyDeck | src/SlayTheSpire.java:174-181 | from the empty deck the total is the plain sum (at most 6000, so no wrap-around), and after success it is the sum of the card lines' costs |
| TallyProperties.AddCostWrapsAtMaxInt | src/SlayTheSpire.java:114-115 | an entry at `MaxInt` that gains 1 becomes `MinInt`, so the sum facts hold only while there is room within `int` |
| TallyProperties.AddCostExact | src/SlayTheSpire.java:114-117 | an entry that stays within `int` grows by plain addition, and a new name starts at its cost |
| TallyProperties.AddCostTwice | src/SlayTheSpire.java:114-115 | while the entry is non-negative and at most `MaxInt` − 12, two accepted costs added to one name add up (`Strike:2` then `Strike:3` gives 5) |
| TallyProperties.SameCardTwiceAdds | src/SlayTheSpire.java:114-118 | two card lines for the same name apply both additions to that entry and leave the invalid list alone |
| DeckIdGenerator.FormatId | src/DeckIDGenerator.java:71 | a draw below 10^9 formats to nine ASCII digits whose decimal value is the draw |
| DeckIdGenerator.FormatIdInjective | src/DeckIDGenerator.java:71 | two draws give the same ID exactly when they are equal, and `parseInt` reads the ID back as its draw |
| DeckIdGenerator.LoadGeneratedNumbers | src/DeckIDGenerator.java:41-50 | a missing store gives no IDs; otherwise the IDs are exactly the trimmed lines of the store |
| DeckIdGenerator.FirstFresh | src/DeckIDGenerator.java:70-72 | the first candidate not yet known, every earlier one known; none exactly when all are known |
| DeckIdGenerator.Start | src/DeckIDGenerator.java:22-26 | the start state keeps the store text and knows exactly the IDs a load of it gives, whatever its last character; when the text is missing or newline-terminated, memory and store are in step |
| DeckIdGenerator.GenerateUniqueNumber | src/DeckIDGenerator.java:66-77 | the ID is nine digits and was unknown; it is the ID of the first draw whose ID is unknown, every earlier draw giving a known ID; the known set grows by exactly it; the store gains exactly the ID and a newline when writable and is unchanged otherwise; none exactly when every draw formats to a known ID |
| DeckIdGenerator.ConsecutiveIdsDiffer | src/DeckIDGenerator.java:70-75 | two calls in a row never return the same ID |
| DeckIdGenerator.SavedLines | src/DeckIDGenerator.java:91-94 | for a store text that ends with a newline, after a save the store's lines are the old lines and then the ID |
| DeckIdGenerator.SaveGeneratedNumber | src/DeckIDGenerator.java:91-98 | a failed write leaves the store unchanged; otherwise the old text (empty when missing) stays as a prefix, exactly the ID and a newline follow, and the store ends with a newline |
| DeckIdGenerator.SaveThenLoad | src/DeckIDGenerator.java:44-45 | for a store that is missing or ends with a newline, saving an ID and reloading gives the old set of IDs plus that one |
| DeckIdGenerator.AllocationKeepsStoreSynced | src/DeckIDGenerator.java:74-75 | with a writable store, memory and store stay in step, and a fresh load knows the ID just issued |
| DeckIdGenerator.UnterminatedStoreLosesId | src/DeckIDGenerator.java:91-94 | when the store ends in a line without a newline that holds a character above U+0020, an ID not stored before is glued onto that line by the next save and a reload does not find it |
| GeneratePdfFile.Bars | src/GeneratePDFFile.java:94-113 | one bar per key; bar i sits at x = 50 + 70·i and y = 200, is 50 wide and is `value * 5` high in `int` |
| GeneratePdfFile.Labels | src/GeneratePDFFile.java:94-109 | one label per key, in the same order as the bars, showing that key's accumulated cost |
| GeneratePdfFile.InvalidLines | src/GeneratePDFFile.java:76-78 | the invalid lines verbatim, one paragraph each, in list order |
| GeneratePdfFile.SummaryLayout | src/GeneratePDFFile.java:55-122 | the contract of `generatePDF`: it has 11 paragraphs more than there are invalid lines and keys; paragraphs 0-7 are banner, title, banner, deck ID, total, rule, invalid-card heading, rule; invalid line i is paragraph 8+i; the histogram rule, heading and rule follow; the label of key i is paragraph 11+n+i, with n invalid lines; and there is one bar per key |
| GeneratePdfFile.Text | src/GeneratePDFFile.java:66-148 | the exact string each paragraph shows, literal by literal, empty only for an empty invalid line; what follows from it is stated by `TotalPrefixOnlyOnTotal` and `TotalTextOnlyInSummary` |
| GeneratePdfFile.TotalPrefixOnlyOnTotal | src/GeneratePDFFile.java:66-81 | among the fixed paragraphs, only the total-cost one shows text starting with `Total Cost: ` |
| GeneratePdfFile.VoidReportContent | src/GeneratePDFFile.java:137-156 | the contract of `generateVoidPDF`: the VOID document is exactly banner, title, banner, deck ID, `VOID`: no total, no headings, no labels, no bars |
| GeneratePdfFile.TotalTextOnlyInSummary | src/GeneratePDFFile.java:66-148 | some paragraph of the summary shows text starting with `Total Cost: `, and no paragraph of the VOID document does |
| GeneratePdfFile.SummaryHasTotalAndHistogram | src/GeneratePDFFile.java:70-80 | the summary always has the total-cost paragraph (fifth) and both headings |
| GeneratePdfFile.SharedHeader | src/GeneratePDFFile.java:66-69 | both documents start with the same four paragraphs |
| GeneratePdfFile.OneLabelPerKey | src/GeneratePDFFile.java:94-109 | every key of the deck has exactly one label paragraph, showing its cost |
| GeneratePdfFile.BarsDoNotOverlap | src/GeneratePDFFile.java:85-112 | bars share the base line and each next bar starts at least 20 points after the previous one ends |
| GeneratePdfFile.BarHeightIsProportional | src/GeneratePDFFile.java:97 | with a cost that fits, a bar is 5 points high per unit of energy |
| JavaInt.Wrap | src/SlayTheSpire.java:115 | the value an `int` expression holds is in the `int` range, and an exact result already in range is kept |
| JavaInt.WrapAdd | src/SlayTheSpire.java:177 | wrapping after every `int` addition ends where wrapping the exact sum once does |
| JavaInt.ParseInt | src/SlayTheSpire.java:108 | an accepted text denotes an `int`, starts with a sign or a digit, has only digits after that and ends with a digit, so the empty text and a lone sign are refused |
| JavaInt.ParseIntAccepts | src/SlayTheSpire.java:106-108 | an optional `+` or `-` followed by one or more ASCII digits is accepted exactly when its value is in the `int` range, and then gives that value |
| JavaInt.IntToString | src/GeneratePDFFile.java:70 | a non-negative number prints as digits only, a negative one as `-` followed by digits |
| JavaInt.NatToStringValue | src/GeneratePDFFile.java:70 | the decimal text of a number denotes that number and has no leading zero |
| JavaInt.IntToStringRoundTrip | src/GeneratePDFFile.java:105 | `parseInt` reads back every `int` that string concatenation prints |
| JavaInt.ZeroPadded | src/DeckIDGenerator.java:71 | `%0Nd` of a value below 10^N is N digits denoting that value |
| JavaInt.DecimalValueInjective | src/DeckIDGenerator.java:71 | digit strings of one width denote the same value only when they are equal |
| JavaString.DeleteWhitespace | src/SlayTheSpire.java:93 | the result holds no `\s` character, and it is empty exactly when every character of the line is `\s` |
| JavaString.Trim | src/DeckIDGenerator.java:45 | the result is the line cut at its first and last kept character, with no character at or below U+0020 left at either end |
| JavaString.JoinPieces | src/SlayTheSpire.java:104 | gluing the pieces between separators back together gives the line |
| JavaString.Split | src/SlayTheSpire.java:104 | no field contains the separator, and a line without it is one field |
| JavaString.SplitIntoTwo | src/SlayTheSpire.java:104-107 | `split` gives exactly two fields exactly when the line is a first field, a `:`, a non-empty second field, then only `:`s; the two fields are those |
| JavaString.SplitTwoFields | src/SlayTheSpire.java:104-106 | `name:cost:::` splits into exactly `[name, cost]` |
| JavaString.LastIndexOf | src/SlayTheSpire.java:254 | the last position of the character, or -1 exactly when it is absent |
| JavaString.ReadLines | src/DeckIDGenerator.java:44 | no line read contains a line break |
| JavaString.ReadLinesAppend | src/DeckIDGenerator.java:44 | reading a text whose first part ends with a newline reads that part's lines, then the rest's |
| JavaString.ReadOneLine | src/DeckIDGenerator.java:93-94 | a line without breaks, written followed by a newline, reads back as that one line |
| MapSum.SumUpdate | src/SlayTheSpire.java:115-117 | replacing or adding one entry changes the sum of the values by exactly the difference |
| MapSum.SumOverEnumeration | src/SlayTheSpire.java:176-178 | adding the values along any enumeration of the keys gives the order-free sum |

## Left out

- File reading and writing, and the console. Lines already read are a `Source`: either every line,
  or the lines before an `IOException` (none when the file cannot be opened). The store file is its
  text (`None` when missing). A failed write is a `writable` flag.
- `java.util.Random`: the draws are a sequence the caller supplies. When the sequence runs out
  before a fresh ID turns up, the result is `None`, because the Java loop has no termination bound.
- The interactive `Scanner` prompt and the `File.isFile` check of `main`. The check only prints a
  message. Calling `main` itself (prompt, read, generate) is not modelled as one function.
- The line separator written after an ID. `newLine()` writes the platform separator; the model
  writes `\n`.
- `String.format("%09d", …)` uses the digits of the default locale. The model writes ASCII digits.
- An `IOException` while loading the store after some lines were read keeps the IDs added so far.
  The model loads either the whole store text or nothing.
- `ParentDirectory`: Java throws on a path without `/`; the model returns `None`.
- `Paths.get(...).toString()` normalisation of the output path, which is a library call.
  `OutputPath` is the string before normalisation.
- All iText rendering: fonts, random bar and label colours, label spacing, and the PDF encoding. The
  `float` bar geometry is modelled with integers. All its values are whole numbers, and the height is
  computed in `int` before the conversion to `float`.
- `Integer.parseInt` acceptance of non-ASCII Unicode digits. Only ASCII digits with an optional
  sign and the 32-bit range check are modelled.
- The static initializer's timing. `Start` is the state after the load.
- `GenerateFile`: its contract states only when a file is produced. Where the file goes and what it
  holds are stated by `GeneratedFileContent`.
- `TotalDeckCost`: its contract states only that the total is an `int`. The relation to the sum of
  the deck is `TotalIsWrappedSum`.
- `Run`: its contract is the list-growth and line-limit facts. Exactly when it succeeds, and what it
  ends with, is `RunSucceedsIff`.
- `ReadTxtFile`: its contract states one direction only. Exactly when it returns true, and what it
  ends with, is `ReadTxtFileSucceedsIff`.
- `Wrap`: its contract states the range and that in-range values are kept. That the result differs
  from the exact value by a multiple of 2^32 is `WrapOffset`, and the use in sums is `WrapAdd`.
- `Split`: its contract is structural. Exactly when it gives two fields, and which, is `SplitIntoTwo`.
- `HandleLine`: its contract is a frame. What each kind of line does is `HandleLineByKind`.
