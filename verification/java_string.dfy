/**
 * The pieces of `java.lang.String` and `java.io.BufferedReader` the program relies on:
 * `replaceAll("\\s+", "")`, `trim`, `split` with a one-character separator, `lastIndexOf`
 * and the line splitting of `readLine`.
 */
module JavaString {
  import opened Wrappers

  /** A character the regular-expression class `\s` matches: space, tab, newline, vertical tab, form feed, return. */
  predicate IsRegexSpace(ch: char)
  {
    ch == ' ' || ch == '\t' || ch == '\n' || ch == '\U{000B}' || ch == '\U{000C}' || ch == '\r'
  }

  /** `s.replaceAll("\\s+", "")`: the string with every `\s` character deleted. */
  function DeleteWhitespace(s: string): (r: string)
    ensures forall i :: 0 <= i < |r| ==> !IsRegexSpace(r[i])
    ensures |r| <= |s|
    ensures r == [] <==> forall i :: 0 <= i < |s| ==> IsRegexSpace(s[i])
  {
    if s == [] then []
    else if IsRegexSpace(s[0]) then DeleteWhitespace(s[1..])
    else [s[0]] + DeleteWhitespace(s[1..])
  }

  /** A character `String.trim` removes from either end: any code point up to U+0020. */
  predicate IsTrimmed(ch: char)
  {
    ch <= ' '
  }

  /** The first index at or after `i` that `trim` keeps, or `|s|`. */
  function KeptFrom(s: string, i: nat): (k: nat)
    requires i <= |s|
    ensures i <= k <= |s|
    ensures forall j :: i <= j < k ==> IsTrimmed(s[j])
    ensures k == |s| || !IsTrimmed(s[k])
    decreases |s| - i
  {
    if i < |s| && IsTrimmed(s[i]) then KeptFrom(s, i + 1) else i
  }

  /** One past the last index in `[lo, e)` that `trim` keeps, or `lo`. */
  function KeptUntil(s: string, lo: nat, e: nat): (k: nat)
    requires lo <= e <= |s|
    ensures lo <= k <= e
    ensures forall j :: k <= j < e ==> IsTrimmed(s[j])
    ensures k == lo || !IsTrimmed(s[k - 1])
    decreases e
  {
    if lo < e && IsTrimmed(s[e - 1]) then KeptUntil(s, lo, e - 1) else e
  }

  /**
   * `s.trim()`: the longest middle part of `s` whose first and last characters are above U+0020;
   * everything cut off on either side is at most U+0020.
   */
  function Trim(s: string): (r: string)
    ensures r == [] || (!IsTrimmed(r[0]) && !IsTrimmed(r[|r| - 1]))
    ensures var i := KeptFrom(s, 0);
      && i + |r| <= |s| && r == s[i..i + |r|]
      && (forall j :: 0 <= j < i ==> IsTrimmed(s[j]))
      && (forall j :: i + |r| <= j < |s| ==> IsTrimmed(s[j]))
  {
    var i := KeptFrom(s, 0);
    s[i..KeptUntil(s, i, |s|)]
  }

  /** `trim` leaves a string alone when neither end has anything to remove. */
  lemma TrimUnchanged(s: string)
    requires s == [] || (!IsTrimmed(s[0]) && !IsTrimmed(s[|s| - 1]))
    ensures Trim(s) == s
  {
  }

  // ---------------------------------------------------------------------------
  // split
  // ---------------------------------------------------------------------------

  /** Every piece between occurrences of `c`, including empty ones: one more piece than occurrences. */
  function Pieces(s: string, c: char): (r: seq<string>)
    ensures |r| >= 1
    ensures forall i :: 0 <= i < |r| ==> c !in r[i]
  {
    if s == [] then [[]]
    else if s[0] == c then [[]] + Pieces(s[1..], c)
    else
      var rest := Pieces(s[1..], c);
      [[s[0]] + rest[0]] + rest[1..]
  }

  /** The pieces glued back together with `c` between neighbours. */
  function Join(parts: seq<string>, c: char): string
  {
    if parts == [] then []
    else if |parts| == 1 then parts[0]
    else parts[0] + [c] + Join(parts[1..], c)
  }

  lemma {:induction false} JoinPieces(s: string, c: char)
    ensures Join(Pieces(s, c), c) == s
  {
    if s != [] {
      JoinPieces(s[1..], c);
      var rest := Pieces(s[1..], c);
      if s[0] != c {
        if |rest| == 1 {
          assert Join(Pieces(s, c), c) == [s[0]] + rest[0];
        } else {
          assert Pieces(s, c)[1..] == rest[1..];
          assert Join(rest, c) == rest[0] + [c] + Join(rest[1..], c);
        }
        assert s == [s[0]] + s[1..];
      }
    }
  }

  /** Pieces of a text that has no separator in it: the text itself. */
  lemma {:induction false} PiecesWithoutSeparator(s: string, c: char)
    requires c !in s
    ensures Pieces(s, c) == [s]
  {
    if s != [] {
      PiecesWithoutSeparator(s[1..], c);
      assert [s[0]] + s[1..] == s;
    }
  }

  /** Splitting distributes over one occurrence of the separator. */
  lemma {:induction false} PiecesAppend(a: string, c: char, b: string)
    ensures Pieces(a + [c] + b, c) == Pieces(a, c) + Pieces(b, c)
  {
    var s := a + [c] + b;
    if a == [] {
      assert s[1..] == b;
    } else {
      assert s[1..] == a[1..] + [c] + b;
      PiecesAppend(a[1..], c, b);
    }
  }

  /** The pieces of `k` separators in a row: `k + 1` empty strings. */
  function Empties(k: nat): (r: seq<string>)
    ensures |r| == k && forall i :: 0 <= i < k ==> r[i] == []
  {
    if k == 0 then [] else Empties(k - 1) + [[]]
  }

  function Repeat(c: char, k: nat): (r: string)
    ensures |r| == k && forall i :: 0 <= i < k ==> r[i] == c
  {
    if k == 0 then [] else Repeat(c, k - 1) + [c]
  }

  /** `split` with limit 0 removes every trailing empty string. */
  function DropTrailingEmpty(parts: seq<string>): (r: seq<string>)
    ensures |r| <= |parts| && r == parts[..|r|]
    ensures forall i :: |r| <= i < |parts| ==> parts[i] == []
    ensures r == [] || r[|r| - 1] != []
  {
    if parts != [] && parts[|parts| - 1] == [] then DropTrailingEmpty(parts[..|parts| - 1]) else parts
  }

  /**
   * `s.split(String.valueOf(c))`: when `c` does not occur the result is the one-element array
   * holding `s` (even when `s` is empty); otherwise the pieces between separators with the trailing
   * empty ones removed. Leading empty pieces are kept.
   */
  function Split(s: string, c: char): (r: seq<string>)
    ensures c !in s ==> r == [s]
    ensures forall i :: 0 <= i < |r| ==> c !in r[i]
  {
    if c !in s then [s] else DropTrailingEmpty(Pieces(s, c))
  }

  lemma {:induction false} JoinEmpties(parts: seq<string>, k: nat, c: char)
    requires parts != []
    ensures Join(parts + Empties(k), c) == Join(parts, c) + Repeat(c, k)
    decreases k
  {
    if k == 0 {
      assert parts + Empties(k) == parts;
      assert Join(parts, c) + Repeat(c, k) == Join(parts, c);
    } else {
      JoinEmpties(parts, k - 1, c);
      JoinSnoc(parts + Empties(k - 1), [], c);
      assert parts + Empties(k) == parts + Empties(k - 1) + [[]];
      assert Join(parts, c) + Repeat(c, k - 1) + [c] + [] == Join(parts, c) + Repeat(c, k);
    }
  }

  lemma {:induction false} JoinSnoc(parts: seq<string>, last: string, c: char)
    requires parts != []
    ensures Join(parts + [last], c) == Join(parts, c) + [c] + last
  {
    if |parts| > 1 {
      assert (parts + [last])[1..] == parts[1..] + [last];
      JoinSnoc(parts[1..], last, c);
    }
  }

  /**
   * The lines `split` turns into exactly two fields: a name, the separator, a non-empty second field,
   * and nothing after it but more separators. Neither field contains the separator.
   */
  lemma SplitTwoShape(s: string, c: char)
    requires |Split(s, c)| == 2
    ensures var f := Split(s, c);
      && f[1] != []
      && |f[0]| + |f[1]| + 1 <= |s|
      && s == f[0] + [c] + f[1] + Repeat(c, |s| - |f[0]| - |f[1]| - 1)
  {
    var f := Split(s, c);
    var p := Pieces(s, c);
    assert c in s;
    assert f == DropTrailingEmpty(p);
    var k := |p| - 2;
    assert p == f + Empties(k);
    JoinPieces(s, c);
    JoinEmpties(f, k, c);
    assert Join(f, c) == f[0] + [c] + f[1];
  }

  /** The converse: such a line splits into exactly its two fields. */
  lemma SplitTwoFields(name: string, c: char, second: string, k: nat)
    requires c !in name && c !in second && second != []
    ensures Split(name + [c] + second + Repeat(c, k), c) == [name, second]
  {
    var s := name + [c] + second + Repeat(c, k);
    assert s[|name|] == c;
    PiecesWithoutSeparator(name, c);
    PiecesAfterField(second, c, k);
    PiecesAppend(name, c, second + Repeat(c, k));
    assert s == name + [c] + (second + Repeat(c, k));
    var p := Pieces(s, c);
    assert p == [name, second] + Empties(k);
    DropEmpties([name, second], k);
  }

  lemma {:induction false} PiecesAfterField(field: string, c: char, k: nat)
    requires c !in field
    ensures Pieces(field + Repeat(c, k), c) == [field] + Empties(k)
    decreases k
  {
    if k == 0 {
      assert field + Repeat(c, 0) == field;
      PiecesWithoutSeparator(field, c);
    } else {
      PiecesAfterField(field, c, k - 1);
      assert field + Repeat(c, k) == (field + Repeat(c, k - 1)) + [c] + [];
      PiecesAppend(field + Repeat(c, k - 1), c, []);
    }
  }

  lemma {:induction false} DropEmpties(parts: seq<string>, k: nat)
    requires parts != [] && parts[|parts| - 1] != []
    ensures DropTrailingEmpty(parts + Empties(k)) == parts
    decreases k
  {
    if k > 0 {
      assert (parts + Empties(k))[..|parts| + k - 1] == parts + Empties(k - 1);
      DropEmpties(parts, k - 1);
    }
  }

  /** `s.indexOf(c)`, with `-1` when `c` does not occur. */
  function IndexOf(s: string, c: char): (r: int)
    ensures -1 <= r < |s|
    ensures r == -1 <==> c !in s
    ensures r >= 0 ==> s[r] == c && c !in s[..r]
  {
    if s == [] then -1
    else if s[0] == c then 0
    else
      var r := IndexOf(s[1..], c);
      if r == -1 then -1
      else
        assert s[..r + 1] == [s[0]] + s[1..][..r];
        r + 1
  }

  /** `s` without its trailing run of `c`. */
  function TrimTrailing(s: string, c: char): (r: string)
    ensures |r| <= |s| && r == s[..|r|]
    ensures forall i :: |r| <= i < |s| ==> s[i] == c
    ensures r == [] || r[|r| - 1] != c
  {
    if s != [] && s[|s| - 1] == c then TrimTrailing(s[..|s| - 1], c) else s
  }

  /**
   * The two fields of a text shaped `first c second c ... c`: `first` is everything before the first
   * `c`, `second` is what follows up to the trailing run of `c`, and it must be non-empty and free of `c`.
   */
  function FieldsAtFirstSeparator(s: string, c: char): (r: Option<(string, string)>)
  {
    var i := IndexOf(s, c);
    if i < 0 then None
    else
      var second := TrimTrailing(s[i + 1..], c);
      if second == [] || c in second then None else Some((s[..i], second))
  }

  /** Trailing separators come off a field that does not end with one, and nothing else does. */
  lemma TrimTrailingRepeat(field: string, c: char, k: nat)
    requires field != [] && field[|field| - 1] != c
    ensures TrimTrailing(field + Repeat(c, k), c) == field
  {
    var s := field + Repeat(c, k);
    var r := TrimTrailing(s, c);
    assert s[|field| - 1] == field[|field| - 1];
    assert |r| >= |field|;
    assert r[|r| - 1] == s[|r| - 1];
    assert forall j :: |field| <= j < |s| ==> s[j] == c;
    assert |r| <= |field|;
    assert s[..|field|] == field;
  }

  /** The first occurrence of the separator in `first c rest` is right after `first`. */
  lemma IndexOfAfterField(first: string, c: char, rest: string)
    requires c !in first
    ensures IndexOf(first + [c] + rest, c) == |first|
  {
    var s := first + [c] + rest;
    var r := IndexOf(s, c);
    assert s[..|first|] == first;
    assert s[|first|] == c;
    assert r >= 0;
    assert r >= |first|;
    assert c !in s[..r];
    assert r <= |first|;
  }

  /** `first c second c ... c` has the fields `first` and `second`. */
  lemma FieldsOfShape(first: string, c: char, second: string, k: nat)
    requires c !in first && c !in second && second != []
    ensures FieldsAtFirstSeparator(first + [c] + second + Repeat(c, k), c) == Some((first, second))
  {
    var s := first + [c] + second + Repeat(c, k);
    assert s == first + [c] + (second + Repeat(c, k));
    IndexOfAfterField(first, c, second + Repeat(c, k));
    assert s[|first| + 1..] == second + Repeat(c, k);
    assert s[..|first|] == first;
    assert second[|second| - 1] in second;
    TrimTrailingRepeat(second, c, k);
  }

  /**
   * `split` yields exactly two fields precisely for texts of the shape `first c second c ... c`,
   * and then the fields are `first` and `second`.
   */
  lemma SplitIntoTwo(s: string, c: char)
    ensures |Split(s, c)| == 2 <==> FieldsAtFirstSeparator(s, c).Some?
    ensures |Split(s, c)| == 2 ==> Split(s, c) == [FieldsAtFirstSeparator(s, c).value.0, FieldsAtFirstSeparator(s, c).value.1]
  {
    if |Split(s, c)| == 2 {
      TwoFieldsHaveShape(s, c);
    }
    if FieldsAtFirstSeparator(s, c).Some? {
      ShapeGivesTwoFields(s, c);
    }
  }

  lemma TwoFieldsHaveShape(s: string, c: char)
    requires |Split(s, c)| == 2
    ensures FieldsAtFirstSeparator(s, c) == Some((Split(s, c)[0], Split(s, c)[1]))
  {
    var f := Split(s, c);
    SplitTwoShape(s, c);
    var k := |s| - |f[0]| - |f[1]| - 1;
    assert c !in f[0] && c !in f[1];
    FieldsOfShape(f[0], c, f[1], k);
  }

  lemma ShapeGivesTwoFields(s: string, c: char)
    requires FieldsAtFirstSeparator(s, c).Some?
    ensures Split(s, c) == [FieldsAtFirstSeparator(s, c).value.0, FieldsAtFirstSeparator(s, c).value.1]
  {
    var i := IndexOf(s, c);
    var rest := s[i + 1..];
    var name := s[..i];
    var second := TrimTrailing(rest, c);
    var k := |rest| - |second|;
    assert rest == second + Repeat(c, k);
    assert s == name + [c] + second + Repeat(c, k);
    SplitTwoFields(name, c, second, k);
  }

  /** The first and the third of four concatenated parts can be cut back out of the whole. */
  lemma ConcatParts<T>(a: seq<T>, b: seq<T>, c: seq<T>, d: seq<T>)
    ensures var p := a + b + c + d;
      && |p| == |a| + |b| + |c| + |d|
      && p[..|a|] == a
      && p[|a| + |b|..|a| + |b| + |c|] == c
  {
  }

  /** Every element of four concatenated parts, read at its place in the whole. */
  lemma ConcatIndex<T>(a: seq<T>, b: seq<T>, c: seq<T>, d: seq<T>)
    ensures var p := a + b + c + d;
      && |p| == |a| + |b| + |c| + |d|
      && (forall i :: 0 <= i < |a| ==> p[i] == a[i])
      && (forall i :: 0 <= i < |b| ==> p[|a| + i] == b[i])
      && (forall i :: 0 <= i < |c| ==> p[|a| + |b| + i] == c[i])
      && (forall i :: 0 <= i < |d| ==> p[|a| + |b| + |c| + i] == d[i])
  {
  }

  // ---------------------------------------------------------------------------
  // lastIndexOf
  // ---------------------------------------------------------------------------

  /** `s.lastIndexOf(c)`, with `-1` when `c` does not occur. */
  function LastIndexOf(s: string, c: char): (r: int)
    ensures -1 <= r < |s|
    ensures r == -1 <==> c !in s
    ensures r >= 0 ==> s[r] == c && forall j :: r < j < |s| ==> s[j] != c
  {
    if s == [] then -1
    else if s[|s| - 1] == c then |s| - 1
    else
      var r := LastIndexOf(s[..|s| - 1], c);
      assert r == -1 ==> s == s[..|s| - 1] + [s[|s| - 1]];
      r
  }

  // ---------------------------------------------------------------------------
  // readLine
  // ---------------------------------------------------------------------------

  /** A character that ends a line for `BufferedReader.readLine`. */
  predicate IsLineBreak(ch: char)
  {
    ch == '\n' || ch == '\r'
  }

  /** The index of the first line break at or after `i`, or the end of the text. */
  function LineEnd(t: string, i: nat): (e: nat)
    requires i <= |t|
    ensures i <= e <= |t|
    ensures forall j :: i <= j < e ==> !IsLineBreak(t[j])
    ensures e < |t| ==> IsLineBreak(t[e])
    decreases |t| - i
  {
    if i == |t| || IsLineBreak(t[i]) then i else LineEnd(t, i + 1)
  }

  /** Where the line after one ending at break `e` starts: `\r\n` is one terminator. */
  function NextStart(t: string, e: nat): (n: nat)
    requires e < |t|
    ensures e < n <= |t|
  {
    if t[e] == '\r' && e + 1 < |t| && t[e + 1] == '\n' then e + 2 else e + 1
  }

  /**
   * The successive results of `readLine` on a text: lines end at `\n`, `\r` or `\r\n`,
   * the terminator is not part of the line, and a last line without terminator still counts.
   */
  function ReadLines(t: string): (lines: seq<string>)
    ensures forall i :: 0 <= i < |lines| ==> forall j :: 0 <= j < |lines[i]| ==> !IsLineBreak(lines[i][j])
    decreases |t|
  {
    if t == [] then []
    else
      var e := LineEnd(t, 0);
      if e == |t| then [t] else [t[..e]] + ReadLines(t[NextStart(t, e)..])
  }

  /** A text that is empty or whose last line is terminated by `\n`. */
  predicate EndsWithNewline(t: string)
  {
    t == [] || t[|t| - 1] == '\n'
  }

  /** Reading a text whose first part ends with a newline reads that part's lines, then the rest's. */
  lemma {:induction false} ReadLinesAppend(a: string, b: string)
    requires EndsWithNewline(a)
    ensures ReadLines(a + b) == ReadLines(a) + ReadLines(b)
    decreases |a|
  {
    if a == [] {
      assert a + b == b;
    } else {
      var e := LineEnd(a, 0);
      var n := NextStart(a, e);
      FirstLineOfPrefix(a, b);
      ReadLinesAppend(a[n..], b);
      var t := a + b;
      assert ReadLines(t) == [t[..e]] + ReadLines(t[n..]);
      assert ReadLines(a) == [a[..e]] + ReadLines(a[n..]);
    }
  }

  /** The first line of `a + b` is the first line of `a`, and the rest starts at the same place. */
  lemma FirstLineOfPrefix(a: string, b: string)
    requires EndsWithNewline(a) && a != []
    ensures var e := LineEnd(a, 0);
      && e < |a| && LineEnd(a + b, 0) == e && NextStart(a + b, e) == NextStart(a, e)
      && (a + b)[..e] == a[..e] && (a + b)[NextStart(a, e)..] == a[NextStart(a, e)..] + b
      && EndsWithNewline(a[NextStart(a, e)..])
  {
    LineEndPrefix(a, b, 0);
    var e := LineEnd(a, 0);
    if e + 1 < |a| {
      assert (a + b)[e + 1] == a[e + 1];
    }
  }

  lemma {:induction false} LineEndPrefix(a: string, b: string, i: nat)
    requires i < |a| && EndsWithNewline(a)
    ensures LineEnd(a + b, i) == LineEnd(a, i) < |a|
    decreases |a| - i
  {
    if i < |a| && !IsLineBreak(a[i]) {
      LineEndPrefix(a, b, i + 1);
    }
  }

  /** A line without breaks, written followed by `\n`, reads back as that one line. */
  lemma ReadOneLine(line: string)
    requires forall j :: 0 <= j < |line| ==> !IsLineBreak(line[j])
    ensures ReadLines(line + "\n") == [line]
  {
    var t := line + "\n";
    LineEndOfLine(t, line, 0);
    assert t[..|line|] == line;
    assert t[|line| + 1..] == [];
  }

  lemma {:induction false} LineEndOfLine(t: string, line: string, i: nat)
    requires t == line + "\n" && i <= |line|
    requires forall j :: 0 <= j < |line| ==> !IsLineBreak(line[j])
    ensures LineEnd(t, i) == |line|
    decreases |line| - i
  {
    if i < |line| {
      LineEndOfLine(t, line, i + 1);
    }
  }
}
