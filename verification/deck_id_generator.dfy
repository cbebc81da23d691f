/**
 * The deck ID allocator: nine-digit zero-padded IDs, a set of IDs already issued, and the
 * append-only store file those IDs are written to, one per line.
 *
 * The random draws of `java.util.Random.nextInt(1_000_000_000)` are supplied by the caller as a
 * sequence; running out of draws before a fresh ID turns up is reported as `None`.
 */
module DeckIdGenerator {
  import opened Wrappers
  import opened JavaInt
  import opened JavaString

  const IdWidth: nat := 9
  const IdSpace: nat := 1_000_000_000

  /** A value `random.nextInt(IdSpace)` can return. */
  predicate IsDraw(n: int)
  {
    0 <= n < IdSpace
  }

  predicate AllDraws(draws: seq<int>)
  {
    forall i :: 0 <= i < |draws| ==> IsDraw(draws[i])
  }

  /** `String.format("%09d", n)`. */
  function FormatId(n: nat): (id: string)
    requires n < IdSpace
    ensures |id| == IdWidth && AllDigits(id)
    ensures DecimalValue(id) == n
  {
    assert Pow10(IdWidth) == IdSpace;
    ZeroPadded(n, IdWidth)
  }

  /** Distinct draws give distinct IDs, and an ID reads back as its draw. */
  lemma FormatIdInjective(a: nat, b: nat)
    requires a < IdSpace && b < IdSpace
    ensures FormatId(a) == FormatId(b) <==> a == b
    ensures ParseInt(FormatId(a)) == Some(a)
  {
    var s := FormatId(a);
    assert !(s[0] == '-' || s[0] == '+');
  }

  /** The trimmed form of every line. */
  function TrimmedLines(lines: seq<string>): set<string>
  {
    set line | line in lines :: Trim(line)
  }

  lemma TrimmedLinesSnoc(lines: seq<string>, last: string)
    ensures TrimmedLines(lines + [last]) == TrimmedLines(lines) + {Trim(last)}
  {
    var all := lines + [last];
    assert forall line :: line in all <==> line in lines || line == last;
  }

  /** The IDs the store file holds: the trimmed form of each of its lines; no file, no IDs. */
  function LoadGeneratedNumbers(store: Option<string>): (ids: set<string>)
    ensures store.None? ==> ids == {}
    ensures store.Some? ==> forall line :: line in ReadLines(store.value) ==> Trim(line) in ids
    ensures store.Some? ==> forall id :: id in ids ==> exists line :: line in ReadLines(store.value) && id == Trim(line)
  {
    match store
    case None => {}
    case Some(text) => TrimmedLines(ReadLines(text))
  }

  /** The store's text; a missing file reads as empty, since appending to it creates it. */
  function StoreText(store: Option<string>): string
  {
    match store
    case Some(text) => text
    case None => ""
  }

  /**
   * Appending `number` and a newline to the store; the file is created when missing. When the
   * write fails the store is left as it was (the failure is only reported on the console).
   */
  function SaveGeneratedNumber(store: Option<string>, number: string, writable: bool): (after: Option<string>)
    ensures !writable ==> after == store
    ensures writable ==> after.Some? && WellTerminated(after)
    ensures writable ==> && |after.value| == |StoreText(store)| + |number| + 1
                         && after.value[..|StoreText(store)|] == StoreText(store)
                         && after.value[|StoreText(store)|..] == number + "\n"
  {
    if writable then Some(StoreText(store) + number + "\n") else store
  }

  /** The allocator's state: the IDs known in memory and the store file's text. */
  datatype Generator = Generator(ids: set<string>, store: Option<string>)

  /** The state after the class's static initializer has loaded the store. */
  function Start(store: Option<string>): (g: Generator)
    ensures g.store == store && g.ids == LoadGeneratedNumbers(store)
    ensures WellTerminated(store) ==> Synced(g)
  {
    Generator(LoadGeneratedNumbers(store), store)
  }

  /** The IDs the draws format to, in draw order. */
  function Candidates(draws: seq<int>): (ids: seq<string>)
    requires AllDraws(draws)
    ensures |ids| == |draws|
    ensures forall i :: 0 <= i < |draws| ==> ids[i] == FormatId(draws[i])
  {
    seq(|draws|, i requires 0 <= i < |draws| => FormatId(draws[i]))
  }

  /** The position of the first candidate not yet known, if any. */
  function FirstFresh(known: set<string>, candidates: seq<string>): (r: Option<nat>)
    ensures r.None? <==> forall i :: 0 <= i < |candidates| ==> candidates[i] in known
    ensures r.Some? ==> r.value < |candidates| && candidates[r.value] !in known
    ensures r.Some? ==> forall j :: 0 <= j < r.value ==> candidates[j] in known
  {
    if candidates == [] then None
    else if candidates[0] !in known then Some(0)
    else
      match FirstFresh(known, candidates[1..])
      case None =>
        assert forall i :: 1 <= i < |candidates| ==> candidates[i] == candidates[1..][i - 1];
        None
      case Some(k) =>
        assert forall j :: 1 <= j <= k ==> candidates[j] == candidates[1..][j - 1];
        Some(k + 1)
  }

  datatype Issued = Issued(id: string, next: Generator)

  /**
   * `generateUniqueNumber`: draw until the formatted ID is unknown, add it to the known IDs and
   * append it to the store.
   */
  function GenerateUniqueNumber(g: Generator, draws: seq<int>, writable: bool): (r: Option<Issued>)
    requires AllDraws(draws)
    ensures r.None? <==> forall i :: 0 <= i < |draws| ==> FormatId(draws[i]) in g.ids
    ensures r.Some? ==> |r.value.id| == IdWidth && AllDigits(r.value.id)
    ensures r.Some? ==> exists k :: 0 <= k < |draws| && r.value.id == FormatId(draws[k])
                                    && forall j :: 0 <= j < k ==> FormatId(draws[j]) in g.ids
    ensures r.Some? ==> r.value.id !in g.ids
    ensures r.Some? ==> r.value.next.ids == g.ids + {r.value.id}
    ensures r.Some? && writable ==> r.value.next.store == Some(StoreText(g.store) + r.value.id + "\n")
    ensures r.Some? && !writable ==> r.value.next.store == g.store
  {
    var candidates := Candidates(draws);
    match FirstFresh(g.ids, candidates)
    case None => None
    case Some(k) =>
      var id := candidates[k];
      Some(Issued(id, Generator(g.ids + {id}, SaveGeneratedNumber(g.store, id, writable))))
  }

  /** Two calls in a row, whatever their draws, never hand out the same ID. */
  lemma ConsecutiveIdsDiffer(g: Generator, draws1: seq<int>, draws2: seq<int>, writable1: bool, writable2: bool)
    requires AllDraws(draws1) && AllDraws(draws2)
    requires GenerateUniqueNumber(g, draws1, writable1).Some?
    requires GenerateUniqueNumber(GenerateUniqueNumber(g, draws1, writable1).value.next, draws2, writable2).Some?
    ensures var first := GenerateUniqueNumber(g, draws1, writable1).value;
      GenerateUniqueNumber(first.next, draws2, writable2).value.id != first.id
  {
  }

  /** A store that is missing, empty, or whose last line ends with a newline. */
  predicate WellTerminated(store: Option<string>)
  {
    store.None? || EndsWithNewline(store.value)
  }

  /** The in-memory IDs are exactly what reloading the store would give. */
  predicate Synced(g: Generator)
  {
    g.ids == LoadGeneratedNumbers(g.store) && WellTerminated(g.store)
  }

  /** The lines of the store after saving an ID: the old lines, then the ID. */
  lemma SavedLines(text: string, id: string)
    requires EndsWithNewline(text)
    requires AllDigits(id)
    ensures ReadLines(text + id + "\n") == ReadLines(text) + [id]
  {
    forall j | 0 <= j < |id| ensures !IsLineBreak(id[j]) {
      assert IsDigit(id[j]);
    }
    ReadOneLine(id);
    ReadLinesAppend(text, id + "\n");
    assert text + id + "\n" == text + (id + "\n");
  }

  /** Saving an ID and reloading the store gives the old IDs plus that one. */
  lemma SaveThenLoad(store: Option<string>, id: string)
    requires WellTerminated(store)
    requires |id| == IdWidth && AllDigits(id)
    ensures LoadGeneratedNumbers(SaveGeneratedNumber(store, id, true)) == LoadGeneratedNumbers(store) + {id}
  {
    var text := StoreText(store);
    var lines := ReadLines(text);
    SavedLines(text, id);
    assert !IsTrimmed(id[0]) && !IsTrimmed(id[|id| - 1]) by {
      assert IsDigit(id[0]) && IsDigit(id[|id| - 1]);
    }
    TrimUnchanged(id);
    TrimmedLinesSnoc(lines, id);
    calc {
      LoadGeneratedNumbers(SaveGeneratedNumber(store, id, true));
      TrimmedLines(ReadLines(text + id + "\n"));
      TrimmedLines(lines + [id]);
      TrimmedLines(lines) + {id};
    }
    if store.None? {
      assert lines == [];
      assert TrimmedLines(lines) == {};
    }
  }

  /**
   * Allocation keeps memory and store in step when the store can be written, so a fresh
   * instance that reloads the store knows the ID just handed out.
   */
  lemma AllocationKeepsStoreSynced(g: Generator, draws: seq<int>)
    requires AllDraws(draws) && Synced(g)
    requires GenerateUniqueNumber(g, draws, true).Some?
    ensures var issued := GenerateUniqueNumber(g, draws, true).value;
      && Synced(issued.next)
      && issued.id in Start(issued.next.store).ids
  {
    var issued := GenerateUniqueNumber(g, draws, true).value;
    SaveThenLoad(g.store, issued.id);
  }

  /**
   * A store whose last line has no newline and holds a character above U+0020 swallows the next
   * ID into that line, so reloading does not find the ID (unless an earlier line already held it).
   */
  lemma UnterminatedStoreLosesId(text: string, tail: string, id: string)
    requires EndsWithNewline(text) && id !in LoadGeneratedNumbers(Some(text))
    requires forall j :: 0 <= j < |tail| ==> !IsLineBreak(tail[j])
    requires exists j :: 0 <= j < |tail| && !IsTrimmed(tail[j])
    requires |id| == IdWidth && AllDigits(id)
    ensures id !in LoadGeneratedNumbers(SaveGeneratedNumber(Some(text + tail), id, true))
  {
    var line := tail + id;
    forall j | 0 <= j < |line| ensures !IsLineBreak(line[j]) {
      if j >= |tail| {
        assert IsDigit(id[j - |tail|]);
      }
    }
    ReadOneLine(line);
    ReadLinesAppend(text, line + "\n");
    assert text + tail + id + "\n" == text + (line + "\n");
    TrimmedLinesSnoc(ReadLines(text), line);
    LongerTrim(tail, id);
  }

  /** Trimming a line that ends in a digit and has a kept character before `id` leaves more than `id`. */
  lemma LongerTrim(tail: string, id: string)
    requires exists j :: 0 <= j < |tail| && !IsTrimmed(tail[j])
    requires id != [] && AllDigits(id)
    ensures |Trim(tail + id)| > |id|
  {
    var line := tail + id;
    var j :| 0 <= j < |tail| && !IsTrimmed(tail[j]);
    var r := Trim(line);
    var i := KeptFrom(line, 0);
    assert !IsTrimmed(line[j]);
    assert i <= j;
    assert IsDigit(line[|line| - 1]);
    assert i + |r| == |line|;
  }
}
