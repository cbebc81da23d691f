/**
 * Properties of whole runs of the deck reader: the 1000-line limit, the bound on the invalid
 * list, when a run succeeds, and what the total cost adds up to.
 */
module TallyProperties {
  import opened Wrappers
  import opened JavaInt
  import opened JavaString
  import opened MapSum
  import opened SlayTheSpire

  /** The tally after handling every line, with no abort checks: the reference the run is compared with. */
  function After(lines: seq<string>, t: Tally): Tally
    decreases |lines|
  {
    if lines == [] then t else After(lines[1..], HandleLine(t, lines[0]))
  }

  /**
   * A run succeeds exactly when it stays within 1000 lines and the invalid list holds at most 10
   * entries before each line; it then ends in the reference tally. Nothing bounds the list after
   * the last line.
   */
  lemma {:induction false} RunSucceedsIff(lines: seq<string>, counter: nat, t: Tally)
    requires counter <= MaxLines
    ensures Run(lines, counter, t).success <==>
      && counter + |lines| <= MaxLines
      && forall k :: 0 <= k < |lines| ==> |After(lines[..k], t).invalid| <= MaxInvalid
    ensures Run(lines, counter, t).success ==>
      Tally(Run(lines, counter, t).deck, Run(lines, counter, t).invalid) == After(lines, t)
    decreases |lines|
  {
    if lines == [] {
    } else if counter + 1 > MaxLines {
    } else {
      var t' := HandleLine(t, lines[0]);
      AfterPrefixesShift(lines, t);
      assert After(lines[..0], t) == t by { assert lines[..0] == []; }
      if |t.invalid| <= MaxInvalid {
        RunStep(lines, counter, t);
        RunSucceedsIff(lines[1..], counter + 1, t');
        if Run(lines, counter, t).success {
          forall k | 0 <= k < |lines|
            ensures |After(lines[..k], t).invalid| <= MaxInvalid
          {
            if k > 0 {
              assert After(lines[..k], t) == After(lines[1..][..k - 1], t');
            }
          }
        }
      }
    }
  }

  /**
   * `readTxtFile` returns true exactly when every line was read, there are at most 1000 of them,
   * and the invalid list holds at most 10 entries before each line; the statics then hold the
   * reference tally.
   */
  lemma ReadTxtFileSucceedsIff(source: Source, t: Tally)
    ensures ReadTxtFile(source, t).success <==>
      && source.Read?
      && |source.lines| <= MaxLines
      && forall k :: 0 <= k < |source.lines| ==> |After(source.lines[..k], t).invalid| <= MaxInvalid
    ensures var o := ReadTxtFile(source, t);
      o.success ==> Tally(o.deck, o.invalid) == After(source.lines, t)
  {
    RunSucceedsIff(source.lines, 0, t);
  }

  /** The run after one handled line continues from the next line and counter. */
  lemma RunStep(lines: seq<string>, counter: nat, t: Tally)
    requires lines != [] && counter + 1 <= MaxLines && |t.invalid| <= MaxInvalid
    ensures Run(lines, counter, t) == Run(lines[1..], counter + 1, HandleLine(t, lines[0]))
  {
  }

  /** The reference fold over a non-empty prefix starts with the first line. */
  lemma AfterPrefixesShift(lines: seq<string>, t: Tally)
    requires lines != []
    ensures forall k :: 0 <= k < |lines[1..]| ==>
      After(lines[..k + 1], t) == After(lines[1..][..k], HandleLine(t, lines[0]))
  {
    forall k | 0 <= k < |lines[1..]|
      ensures After(lines[..k + 1], t) == After(lines[1..][..k], HandleLine(t, lines[0]))
    {
      assert lines[..k + 1][1..] == lines[1..][..k];
    }
  }

  /** Lines past the 1000th are never handled: the run ends false with what the first 1000 lines left. */
  lemma {:induction false} LinesBeyondLimitIgnored(lines: seq<string>, counter: nat, t: Tally)
    requires counter <= MaxLines && |lines| > MaxLines - counter
    ensures Run(lines, counter, t) == Run(lines[..MaxLines - counter], counter, t).(success := false)
    decreases |lines|
  {
    var n := MaxLines - counter;
    if counter + 1 <= MaxLines && |t.invalid| <= MaxInvalid {
      LinesBeyondLimitIgnored(lines[1..], counter + 1, HandleLine(t, lines[0]));
      LimitStep(lines, counter, t);
    } else if n == 0 {
      assert lines[..n] == [];
    } else {
      assert lines[..n] != [];
      TooManyInvalidStops(lines, counter, t);
      TooManyInvalidStops(lines[..n], counter, t);
    }
  }

  /** One handled line moves the limit statement from the rest of the file to the whole file. */
  lemma LimitStep(lines: seq<string>, counter: nat, t: Tally)
    requires counter + 1 <= MaxLines && |lines| > MaxLines - counter && |t.invalid| <= MaxInvalid
    requires var t1 := HandleLine(t, lines[0]);
      Run(lines[1..], counter + 1, t1) == Run(lines[1..][..MaxLines - counter - 1], counter + 1, t1).(success := false)
    ensures Run(lines, counter, t) == Run(lines[..MaxLines - counter], counter, t).(success := false)
  {
    var n := MaxLines - counter;
    RunStep(lines, counter, t);
    assert lines[..n][0] == lines[0];
    RunStep(lines[..n], counter, t);
    assert lines[..n][1..] == lines[1..][..n - 1];
  }

  /** For the whole call: a file of more than 1000 lines always gives false. */
  lemma LongFileFails(lines: seq<string>, t: Tally)
    requires |lines| > MaxLines
    ensures ReadTxtFile(Read(lines), t) == Run(lines[..MaxLines], 0, t).(success := false)
  {
    LinesBeyondLimitIgnored(lines, 0, t);
  }

  /**
   * Each handled line starts with at most 10 invalid entries and adds at most 2, so a run that
   * starts with at most 12 ends with at most 12.
   */
  lemma {:induction false} InvalidListBounded(lines: seq<string>, counter: nat, t: Tally)
    requires counter <= MaxLines && |t.invalid| <= MaxInvalid + 2
    ensures |Run(lines, counter, t).invalid| <= MaxInvalid + 2
    decreases |lines|
  {
    if lines != [] && counter + 1 <= MaxLines && |t.invalid| <= MaxInvalid {
      InvalidListBounded(lines[1..], counter + 1, HandleLine(t, lines[0]));
    }
  }

  /** Once the list holds more than 10 entries, the next line is not handled and the run ends false. */
  lemma TooManyInvalidStops(lines: seq<string>, counter: nat, t: Tally)
    requires lines != [] && counter < MaxLines && |t.invalid| > MaxInvalid
    ensures Run(lines, counter, t) == Outcome(t.deck, t.invalid, false)
  {
  }

  /** The check comes before the line: ten invalid entries and a blank last line end with twelve, and true. */
  lemma CapCheckedBeforeEachLine(t: Tally)
    requires |t.invalid| == MaxInvalid
    ensures ReadTxtFile(Read([""]), t) == Outcome(t.deck, t.invalid + ["", ""], true)
  {
    BlankLineRecordedTwice(t, "");
  }

  /** The energy a line adds to the deck: its cost when it is a card line, 0 otherwise. */
  function CostOf(line: string): (c: int)
    ensures MinCost <= c <= MaxCost
  {
    match Classify(line)
    case Card(_, cost) => cost
    case _ => 0
  }

  /** The energy of all card lines among `lines`. */
  function AcceptedCost(lines: seq<string>): (total: int)
    ensures 0 <= total <= MaxCost * |lines|
  {
    if lines == [] then 0 else CostOf(lines[0]) + AcceptedCost(lines[1..])
  }

  /** Adding a cost in [0, 6] to a non-negative deck whose sum leaves room for it adds exactly that cost to the sum. */
  lemma AddCostSum(deck: map<string, int>, name: string, cost: int)
    requires NonNegative(deck) && Sum(deck) + MaxCost <= MaxInt && MinCost <= cost <= MaxCost
    ensures NonNegative(AddCost(deck, name, cost))
    ensures Sum(AddCost(deck, name, cost)) == Sum(deck) + cost
  {
    var before := if name in deck then deck[name] else 0;
    if name in deck {
      SumBoundsValue(deck, name);
    } else {
      SumNonNegative(deck);
    }
    assert AddCost(deck, name, cost) == deck[name := before + cost];
    SumUpdate(deck, name, before + cost);
  }

  /** One line adds exactly its cost to the sum of the deck, as long as no `int` addition can wrap. */
  lemma HandleLineCost(t: Tally, line: string)
    requires NonNegative(t.deck) && Sum(t.deck) + MaxCost <= MaxInt
    ensures NonNegative(HandleLine(t, line).deck)
    ensures Sum(HandleLine(t, line).deck) == Sum(t.deck) + CostOf(line)
  {
    HandleLineDeck(t, line);
    var kind := Classify(line);
    if kind.Card? {
      AddCostSum(t.deck, kind.name, kind.cost);
    }
  }

  /** Over the reference fold: the deck's sum grows by the accepted costs and stays non-negative. */
  lemma {:induction false} AfterCost(lines: seq<string>, t: Tally)
    requires NonNegative(t.deck) && Sum(t.deck) + MaxCost * |lines| <= MaxInt
    ensures NonNegative(After(lines, t).deck)
    ensures Sum(After(lines, t).deck) == Sum(t.deck) + AcceptedCost(lines)
    decreases |lines|
  {
    if lines != [] {
      HandleLineCost(t, lines[0]);
      AfterCost(lines[1..], HandleLine(t, lines[0]));
    }
  }

  /** The deck a run ends with when it stops before handling the first of `lines`. */
  lemma RunStops(lines: seq<string>, counter: nat, t: Tally)
    requires counter <= MaxLines
    requires lines == [] || counter + 1 > MaxLines || |t.invalid| > MaxInvalid
    ensures Run(lines, counter, t).deck == t.deck
  {
  }

  /** One handled line: the run continues from the next line with the deck grown by the line's cost. */
  lemma RunStepCost(lines: seq<string>, counter: nat, t: Tally)
    requires lines != [] && counter + 1 <= MaxLines && |t.invalid| <= MaxInvalid
    requires NonNegative(t.deck) && Sum(t.deck) + MaxCost * (MaxLines - counter) <= MaxInt
    ensures var t1 := HandleLine(t, lines[0]);
      && Run(lines, counter, t) == Run(lines[1..], counter + 1, t1)
      && NonNegative(t1.deck)
      && Sum(t.deck) <= Sum(t1.deck) <= Sum(t.deck) + MaxCost
  {
    HandleLineCost(t, lines[0]);
  }

  /** Every run, successful or not, adds at most 6 energy per line it handles and keeps entries non-negative. */
  lemma {:induction false} RunCostBounded(lines: seq<string>, counter: nat, t: Tally)
    requires counter <= MaxLines
    requires NonNegative(t.deck) && Sum(t.deck) + MaxCost * (MaxLines - counter) <= MaxInt
    ensures NonNegative(Run(lines, counter, t).deck)
    ensures Sum(t.deck) <= Sum(Run(lines, counter, t).deck) <= Sum(t.deck) + MaxCost * (MaxLines - counter)
    decreases |lines|
  {
    if lines != [] && counter + 1 <= MaxLines && |t.invalid| <= MaxInvalid {
      RunStepCost(lines, counter, t);
      RunCostBounded(lines[1..], counter + 1, HandleLine(t, lines[0]));
    } else {
      RunStops(lines, counter, t);
      SumNonNegative(t.deck);
    }
  }

  /**
   * From the empty deck, whatever the file holds, the total is the plain sum of the deck (at most
   * 6000, so no `int` wrap-around), and after a successful read it is the sum of the card lines' costs.
   */
  lemma TotalCostFromEmptyDeck(source: Source, invalid: seq<string>, order: seq<string>)
    requires Enumerates(order, ReadTxtFile(source, Tally(map[], invalid)).deck)
    ensures var o := ReadTxtFile(source, Tally(map[], invalid));
      && NonNegative(o.deck)
      && KeysIn(order, o.deck)
      && TotalDeckCost(o.deck, order) == Sum(o.deck) <= MaxCost * MaxLines
      && (o.success ==> TotalDeckCost(o.deck, order) == AcceptedCost(source.lines))
  {
    var t := Tally(map[], invalid);
    var o := ReadTxtFile(source, t);
    assert Sum(t.deck) == 0;
    RunCostBounded(source.lines, 0, t);
    TotalIsWrappedSum(o.deck, order);
    if o.success {
      RunSucceedsIff(source.lines, 0, t);
      AfterCost(source.lines, t);
    }
  }

  /** The reference fold over two lines. */
  lemma AfterTwo(line1: string, line2: string, t: Tally)
    ensures After([line1, line2], t) == HandleLine(HandleLine(t, line1), line2)
  {
    var t1 := HandleLine(t, line1);
    assert [line1, line2][1..] == [line2];
    assert After([line1, line2], t) == After([line2], t1);
    assert [line2][1..] == [];
    assert After([line2], t1) == After([], HandleLine(t1, line2));
  }

  /**
   * Without room in `int` the entry wraps: adding 1 to an entry at `MaxInt` leaves `MinInt`, so the
   * sum and sign facts above need their no-overflow conditions.
   */
  lemma AddCostWrapsAtMaxInt(name: string)
    ensures AddCost(map[name := MaxInt], name, 1) == map[name := MinInt]
  {
    assert Wrap(MaxInt + 1) == MinInt;
  }

  /** `AddCost` on an entry that stays within `int`: plain addition. */
  lemma AddCostExact(deck: map<string, int>, name: string, cost: int)
    requires MinCost <= cost <= MaxCost
    requires name in deck ==> 0 <= deck[name] <= MaxInt - MaxCost
    ensures AddCost(deck, name, cost) == deck[name := (if name in deck then deck[name] else 0) + cost]
  {
  }

  /** Two additions to one entry that stays within `int` add up. */
  lemma AddCostTwice(deck: map<string, int>, name: string, cost1: int, cost2: int)
    requires MinCost <= cost1 <= MaxCost && MinCost <= cost2 <= MaxCost
    requires name in deck ==> 0 <= deck[name] <= MaxInt - 2 * MaxCost
    ensures AddCost(AddCost(deck, name, cost1), name, cost2)
      == deck[name := (if name in deck then deck[name] else 0) + cost1 + cost2]
  {
    AddCostExact(deck, name, cost1);
    AddCostExact(AddCost(deck, name, cost1), name, cost2);
  }

  /**
   * Two card lines for the same name add both costs to its entry with Java's `int` addition (so
   * `Strike:2` then `Strike:3` leaves `Strike` at 5, by `AddCostTwice`); the invalid list does not change.
   */
  lemma SameCardTwiceAdds(t: Tally, line1: string, line2: string, name: string, cost1: int, cost2: int)
    requires Classify(line1) == Card(name, cost1) && Classify(line2) == Card(name, cost2)
    ensures After([line1, line2], t) == Tally(AddCost(AddCost(t.deck, name, cost1), name, cost2), t.invalid)
  {
    var t1 := Tally(AddCost(t.deck, name, cost1), t.invalid);
    HandleLineByKind(t, line1);
    HandleLineByKind(t1, line2);
    AfterTwo(line1, line2, t);
  }
}
