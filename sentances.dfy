/** The sentence-pair corpus loader: a tab-separated text, one record per
    line, is turned into a sequence of Japanese/English pairs. The text is
    split into lines as Rust's `str::lines` does, each line into fields as
    `str::split("\t")` does, and each line yields the pair (field 3, field 1).
    A line with fewer than four fields makes the indexing of field 3 fail. */
module Sentances {

  /** One Japanese sentence with its English translation. */
  datatype Sentance = Sentance(en: string, jp: string)

  /** Why loading failed: the line at index `line` (0-based, in file order)
      split into only `fieldCount` fields, so field 3 does not exist. */
  datatype LoadError = FieldIndexOutOfBounds(line: nat, fieldCount: nat)

  datatype Result<T> = Success(value: T) | Failure(error: LoadError)

  const Tab: char := '\t'
  const LineFeed: char := '\n'
  const CarriageReturn: char := '\r'

  /** Number of occurrences of `c` in `s`. */
  function Occurrences(s: string, c: char): nat
  {
    if s == [] then 0 else (if s[0] == c then 1 else 0) + Occurrences(s[1..], c)
  }

  // ---------------------------------------------------------------------
  // str::split with a one-character pattern, and its inverse
  // ---------------------------------------------------------------------

  /** The pieces of `s` between occurrences of `sep`, empty pieces included:
      one more piece than there are separators, none containing `sep`. */
  function Split(s: string, sep: char): (pieces: seq<string>)
    ensures |pieces| == Occurrences(s, sep) + 1
    ensures forall i :: 0 <= i < |pieces| ==> sep !in pieces[i]
  {
    if s == [] then [[]]
    else
      var rest := Split(s[1..], sep);
      if s[0] == sep then [[]] + rest
      else [[s[0]] + rest[0]] + rest[1..]
  }

  /** The pieces glued back together with `sep` between neighbours. */
  function Join(pieces: seq<string>, sep: char): string
    requires |pieces| > 0
  {
    if |pieces| == 1 then pieces[0] else pieces[0] + [sep] + Join(pieces[1..], sep)
  }

  /** Splitting loses nothing: joining the pieces gives the input back. */
  lemma {:induction false} JoinSplit(s: string, sep: char)
    ensures Join(Split(s, sep), sep) == s
  {
    if s != [] {
      JoinSplit(s[1..], sep);
      var rest := Split(s[1..], sep);
      if s[0] == sep {
        assert Split(s, sep)[1..] == rest;
      } else {
        var pieces := Split(s, sep);
        if |rest| == 1 {
          assert pieces == [[s[0]] + rest[0]];
        } else {
          assert pieces[1..] == rest[1..];
          assert Join(rest, sep) == rest[0] + [sep] + Join(rest[1..], sep);
        }
      }
    }
  }

  /** A piece free of `sep` followed by `sep` splits off as one piece. */
  lemma {:induction false} SplitAfterPiece(a: string, sep: char, t: string)
    requires sep !in a
    ensures Split(a + [sep] + t, sep) == [a] + Split(t, sep)
  {
    if a == [] {
      assert ([sep] + t)[1..] == t;
    } else {
      assert (a + [sep] + t)[1..] == a[1..] + [sep] + t;
      SplitAfterPiece(a[1..], sep, t);
      assert [a[0]] + a[1..] == a;
    }
  }

  /** Text free of `sep` is a single piece. */
  lemma {:induction false} SplitNoSeparator(a: string, sep: char)
    requires sep !in a
    ensures Split(a, sep) == [a]
  {
    if a != [] {
      SplitNoSeparator(a[1..], sep);
      assert [a[0]] + a[1..] == a;
    }
  }

  /** Splitting a join of `sep`-free pieces gives exactly those pieces back. */
  lemma {:induction false} SplitJoin(pieces: seq<string>, sep: char)
    requires |pieces| > 0
    requires forall i :: 0 <= i < |pieces| ==> sep !in pieces[i]
    ensures Split(Join(pieces, sep), sep) == pieces
  {
    if |pieces| == 1 {
      SplitNoSeparator(pieces[0], sep);
    } else {
      SplitJoin(pieces[1..], sep);
      SplitAfterPiece(pieces[0], sep, Join(pieces[1..], sep));
    }
  }

  /** A character other than `sep` absent from every piece is absent from the join. */
  lemma {:induction false} JoinKeepsOut(pieces: seq<string>, sep: char, c: char)
    requires |pieces| > 0 && c != sep
    requires forall i :: 0 <= i < |pieces| ==> c !in pieces[i]
    ensures c !in Join(pieces, sep)
  {
    if |pieces| > 1 {
      JoinKeepsOut(pieces[1..], sep, c);
    }
  }

  /** Appending `sep` adds one empty piece at the end. */
  lemma {:induction false} SplitAppendSeparator(s: string, sep: char)
    ensures Split(s + [sep], sep) == Split(s, sep) + [[]]
  {
    if s == [] {
      assert [sep][1..] == [];
    } else {
      assert (s + [sep])[1..] == s[1..] + [sep];
      SplitAppendSeparator(s[1..], sep);
    }
  }

  /** Appending any other character extends the last piece and leaves the
      others alone, piece by piece. */
  lemma {:induction false} SplitAppendCharAt(s: string, sep: char, c: char)
    requires c != sep
    ensures |Split(s + [c], sep)| == |Split(s, sep)|
    ensures forall i :: 0 <= i < |Split(s, sep)| - 1 ==> Split(s + [c], sep)[i] == Split(s, sep)[i]
    ensures Split(s + [c], sep)[|Split(s, sep)| - 1] == Split(s, sep)[|Split(s, sep)| - 1] + [c]
  {
    if s == [] {
      assert [c][1..] == [];
      assert s + [c] == [c];
    } else {
      assert (s + [c])[1..] == s[1..] + [c];
      SplitAppendCharAt(s[1..], sep, c);
    }
  }

  /** The same fact as one sequence equation, the form the line lemmas use;
      it is kept apart from the induction so that each proof stays small. */
  lemma SplitAppendChar(s: string, sep: char, c: char)
    requires c != sep
    ensures var p := Split(s, sep);
            Split(s + [c], sep) == p[..|p| - 1] + [p[|p| - 1] + [c]]
  {
    var p, q := Split(s, sep), Split(s + [c], sep);
    SplitAppendCharAt(s, sep, c);
    assert q == p[..|p| - 1] + [p[|p| - 1] + [c]];
  }

  /** The last piece is empty exactly when the text is empty or ends with `sep`. */
  lemma SplitLastPiece(s: string, sep: char)
    ensures var p := Split(s, sep);
            p[|p| - 1] == [] <==> s == [] || s[|s| - 1] == sep
  {
  }


  // ---------------------------------------------------------------------
  // str::lines
  // ---------------------------------------------------------------------

  predicate EndsWithCr(line: string)
  {
    |line| > 0 && line[|line| - 1] == CarriageReturn
  }

  /** Drops one '\r' in front of a '\n' line ending. */
  function StripCr(line: string): (stripped: string)
    ensures EndsWithCr(line) ==> stripped + [CarriageReturn] == line
    ensures !EndsWithCr(line) ==> stripped == line
  {
    if EndsWithCr(line) then line[..|line| - 1] else line
  }

  /** Lines from the '\n'-separated pieces of a text: every piece followed by
      a '\n' is a line without its '\r'; the last piece, followed by no line
      ending, is a line only when it is not empty, and keeps a '\r'. */
  function LinesOf(pieces: seq<string>): seq<string>
    requires |pieces| > 0
  {
    if |pieces| == 1 then (if pieces[0] == [] then [] else [pieces[0]])
    else [StripCr(pieces[0])] + LinesOf(pieces[1..])
  }

  /** The text does not end with a line ending: its last line is unterminated. */
  predicate Unterminated(text: string)
  {
    text != [] && text[|text| - 1] != LineFeed
  }

  /** Rust's `str::lines`: split at "\n" or "\r\n"; a final line ending
      does not start another line. There is one line per '\n', plus one for
      an unterminated last line. */
  function Lines(text: string): (lines: seq<string>)
    ensures |lines| == Occurrences(text, LineFeed) + (if Unterminated(text) then 1 else 0)
  {
    var pieces := Split(text, LineFeed);
    SplitLastPiece(text, LineFeed);
    LinesOfCount(pieces);
    LinesOf(pieces)
  }

  /** Each line is one '\n'-free piece of the text, minus perhaps a '\r'. */
  lemma {:induction false} LinesOfNoLineFeed(pieces: seq<string>)
    requires |pieces| > 0
    requires forall i :: 0 <= i < |pieces| ==> LineFeed !in pieces[i]
    ensures forall i :: 0 <= i < |LinesOf(pieces)| ==> LineFeed !in LinesOf(pieces)[i]
  {
    if |pieces| > 1 {
      LinesOfNoLineFeed(pieces[1..]);
      var ls := LinesOf(pieces);
      forall i | 0 <= i < |ls| ensures LineFeed !in ls[i] {
        if i == 0 {
          assert StripCr(pieces[0]) <= pieces[0];
        } else {
          assert ls[i] == LinesOf(pieces[1..])[i - 1];
        }
      }
    }
  }

  /** No line contains a '\n'. */
  lemma LinesHaveNoLineFeed(text: string)
    ensures forall i :: 0 <= i < |Lines(text)| ==> LineFeed !in Lines(text)[i]
  {
    LinesOfNoLineFeed(Split(text, LineFeed));
  }

  /** Only the empty text has no lines at all. */
  lemma LinesEmpty(text: string)
    ensures Lines(text) == [] <==> text == []
  {
  }

  /** Every piece gives one line, except an empty last piece. */
  lemma {:induction false} LinesOfCount(pieces: seq<string>)
    requires |pieces| > 0
    ensures |LinesOf(pieces)| == |pieces| - (if pieces[|pieces| - 1] == [] then 1 else 0)
  {
    if |pieces| > 1 {
      LinesOfCount(pieces[1..]);
    }
  }

  /** A last piece written with a "\r\n" after it gives the same lines as
      the piece with no line ending after it. */
  lemma {:induction false} LinesOfCrLfEnd(pieces: seq<string>, last: string)
    requires last != []
    ensures LinesOf(pieces + [last + [CarriageReturn], []]) == LinesOf(pieces + [last])
  {
    if pieces != [] {
      assert (pieces + [last + [CarriageReturn], []])[1..] == pieces[1..] + [last + [CarriageReturn], []];
      assert (pieces + [last])[1..] == pieces[1..] + [last];
      LinesOfCrLfEnd(pieces[1..], last);
    } else {
      assert (pieces + [last + [CarriageReturn], []])[1..] == [[]];
      assert (last + [CarriageReturn])[..|last|] == last;
    }
  }

  /** Lines of pieces that all had a '\n' after them: the same lines when the
      last one is not empty and followed by no line ending. */
  lemma {:induction false} LinesOfDropEmptyEnd(pieces: seq<string>, last: string)
    requires last != [] && !EndsWithCr(last)
    ensures LinesOf(pieces + [last, []]) == LinesOf(pieces + [last])
  {
    if pieces != [] {
      assert (pieces + [last, []])[1..] == pieces[1..] + [last, []];
      assert (pieces + [last])[1..] == pieces[1..] + [last];
      LinesOfDropEmptyEnd(pieces[1..], last);
    } else {
      assert (pieces + [last, []])[1..] == [[]];
    }
  }

  /** A final "\n" adds no line, provided the text does not already end with
      a line ending and its last character is not a '\r' (which the "\n"
      would turn into a "\r\n" ending). */
  lemma FinalLineFeedIsOptional(text: string)
    requires text != [] && text[|text| - 1] != LineFeed && text[|text| - 1] != CarriageReturn
    ensures Lines(text + [LineFeed]) == Lines(text)
  {
    var front := text[..|text| - 1];
    var c := text[|text| - 1];
    assert front + [c] == text;
    SplitAppendChar(front, LineFeed, c);
    SplitAppendSeparator(text, LineFeed);
    var p := Split(front, LineFeed);
    var last := p[|p| - 1] + [c];
    assert Split(text, LineFeed) == p[..|p| - 1] + [last];
    assert Split(text + [LineFeed], LineFeed) == p[..|p| - 1] + [last, []];
    LinesOfDropEmptyEnd(p[..|p| - 1], last);
  }

  /** A final "\r\n" adds no line either, whatever the last character before it. */
  lemma FinalCrLfIsOptional(text: string)
    requires text != [] && text[|text| - 1] != LineFeed
    ensures Lines(text + [CarriageReturn, LineFeed]) == Lines(text)
  {
    var front := text[..|text| - 1];
    var c := text[|text| - 1];
    assert front + [c] == text;
    SplitAppendChar(front, LineFeed, c);
    var p := Split(front, LineFeed);
    var last := p[|p| - 1] + [c];
    assert Split(text, LineFeed) == p[..|p| - 1] + [last];
    SplitAppendChar(text, LineFeed, CarriageReturn);
    assert Split(text + [CarriageReturn], LineFeed) == p[..|p| - 1] + [last + [CarriageReturn]];
    assert text + [CarriageReturn, LineFeed] == (text + [CarriageReturn]) + [LineFeed];
    SplitAppendSeparator(text + [CarriageReturn], LineFeed);
    assert Split(text + [CarriageReturn, LineFeed], LineFeed) == p[..|p| - 1] + [last + [CarriageReturn], []];
    LinesOfCrLfEnd(p[..|p| - 1], last);
  }

  /** Text without '\n' is one line, a final bare '\r' included; followed by
      "\r\n" it is the same line, the '\r' of the ending dropped. */
  lemma OneLine(line: string)
    requires line != [] && LineFeed !in line
    ensures Lines(line) == [line]
    ensures Lines(line + [CarriageReturn, LineFeed]) == [line]
  {
    SplitNoSeparator(line, LineFeed);
    assert line[|line| - 1] in line;
    FinalCrLfIsOptional(line);
  }

  /** The text of some lines, each followed by "\n". */
  function Unlines(lines: seq<string>): string
  {
    if lines == [] then [] else lines[0] + [LineFeed] + Unlines(lines[1..])
  }

  /** Lines without '\n' and not ending with '\r', each written with a "\n"
      after it, are read back unchanged. */
  lemma {:induction false} LinesUnlines(lines: seq<string>)
    requires forall i :: 0 <= i < |lines| ==> LineFeed !in lines[i] && !EndsWithCr(lines[i])
    ensures Split(Unlines(lines), LineFeed) == lines + [[]]
    ensures Lines(Unlines(lines)) == lines
  {
    if lines != [] {
      LinesUnlines(lines[1..]);
      SplitAfterPiece(lines[0], LineFeed, Unlines(lines[1..]));
      assert Split(Unlines(lines), LineFeed) == [lines[0]] + (lines[1..] + [[]]);
      assert lines + [[]] == [lines[0]] + (lines[1..] + [[]]);
      assert (lines + [[]])[1..] == lines[1..] + [[]];
    }
  }

  /** The text of some lines, each followed by "\r\n", as a Windows file. */
  function UnlinesCrLf(lines: seq<string>): string
  {
    if lines == [] then [] else lines[0] + [CarriageReturn, LineFeed] + UnlinesCrLf(lines[1..])
  }

  /** Lines without '\n', each written with a "\r\n" after it, are read back
      unchanged: every "\r\n" ending, not only the last, loses its '\r', and
      a line's own final '\r' is kept. */
  lemma {:induction false} LinesUnlinesCrLf(lines: seq<string>)
    requires forall i :: 0 <= i < |lines| ==> LineFeed !in lines[i]
    ensures Lines(UnlinesCrLf(lines)) == lines
  {
    if lines != [] {
      LinesUnlinesCrLf(lines[1..]);
      var first := lines[0] + [CarriageReturn];
      var rest := UnlinesCrLf(lines[1..]);
      assert UnlinesCrLf(lines) == first + [LineFeed] + rest;
      assert LineFeed !in first;
      SplitAfterPiece(first, LineFeed, rest);
      var pieces := Split(UnlinesCrLf(lines), LineFeed);
      assert pieces == [first] + Split(rest, LineFeed);
      assert pieces[1..] == Split(rest, LineFeed);
      assert first[..|first| - 1] == lines[0];
      assert Lines(UnlinesCrLf(lines)) == [StripCr(first)] + Lines(rest);
    }
  }

  // ---------------------------------------------------------------------
  // Records
  // ---------------------------------------------------------------------

  /** The fields of one line. */
  function Fields(line: string): seq<string>
  {
    Split(line, Tab)
  }

  /** The line has a field with index 3, i.e. at least three tabs. */
  predicate HasFourFields(line: string)
  {
    |Fields(line)| >= 4
  }

  /** The record of one line: English from field 3, Japanese from field 1;
      a line with fewer than four fields fails at field 3. */
  function ParseLine(line: string, index: nat): (r: Result<Sentance>)
    ensures r.Success? <==> HasFourFields(line)
    ensures r.Success? ==> Tab !in r.value.en && Tab !in r.value.jp
    ensures r.Failure? ==> r.error.line == index && r.error.fieldCount == |Fields(line)|
  {
    var record := Fields(line);
    if |record| <= 3 then Failure(FieldIndexOutOfBounds(index, |record|))
    else Success(Sentance(record[3], record[1]))
  }

  /** The records of consecutive lines, the first at index `first`; loading
      stops at the first line without four fields. */
  function ParseLines(lines: seq<string>, first: nat): (r: Result<seq<Sentance>>)
    ensures r.Success? <==> forall i :: 0 <= i < |lines| ==> HasFourFields(lines[i])
    ensures r.Success? ==> |r.value| == |lines|
    ensures r.Success? ==> forall i :: 0 <= i < |lines| ==>
              r.value[i].en == Fields(lines[i])[3] && r.value[i].jp == Fields(lines[i])[1]
    ensures r.Failure? ==>
              && first <= r.error.line < first + |lines|
              && !HasFourFields(lines[r.error.line - first])
              && r.error.fieldCount == |Fields(lines[r.error.line - first])|
              && forall j :: 0 <= j < r.error.line - first ==> HasFourFields(lines[j])
  {
    if lines == [] then Success([])
    else
      match ParseLine(lines[0], first)
      case Failure(e) => Failure(e)
      case Success(s) =>
        match ParseLines(lines[1..], first + 1)
        case Failure(e) => Failure(e)
        case Success(rest) => Success([s] + rest)
  }

  /** `load_sentances` once the file has been read into `text`. */
  function ParseTsv(text: string): (r: Result<seq<Sentance>>)
    ensures r.Success? <==> forall i :: 0 <= i < |Lines(text)| ==> HasFourFields(Lines(text)[i])
    ensures r.Success? ==> |r.value| == |Lines(text)|
    ensures r.Failure? ==> r.error.line < |Lines(text)| && !HasFourFields(Lines(text)[r.error.line])
  {
    ParseLines(Lines(text), 0)
  }

  /** One record per line, in file order, field 3 as English, field 1 as
      Japanese. */
  lemma ParseTsvRecords(text: string, i: nat)
    requires ParseTsv(text).Success? && i < |ParseTsv(text).value|
    ensures i < |Lines(text)|
    ensures ParseTsv(text).value[i] == Sentance(Fields(Lines(text)[i])[3], Fields(Lines(text)[i])[1])
  {
  }

  /** No field of a record contains a tab or a line break '\n'. */
  lemma ParseTsvFieldsClean(text: string, i: nat)
    requires ParseTsv(text).Success? && i < |ParseTsv(text).value|
    ensures Tab !in ParseTsv(text).value[i].en && Tab !in ParseTsv(text).value[i].jp
    ensures LineFeed !in ParseTsv(text).value[i].en && LineFeed !in ParseTsv(text).value[i].jp
  {
    var line := Lines(text)[i];
    LinesHaveNoLineFeed(text);
    JoinSplit(line, Tab);
    var f := Fields(line);
    assert f[..3] + [f[3]] + f[4..] == f;
    JoinPieceIn(f, Tab, 1);
    JoinPieceIn(f, Tab, 3);
  }

  /** Every piece is a contiguous part of the join. */
  lemma {:induction false} JoinPieceIn(pieces: seq<string>, sep: char, k: nat)
    requires k < |pieces|
    ensures forall c :: c in pieces[k] ==> c in Join(pieces, sep)
  {
    if k > 0 {
      JoinPieceIn(pieces[1..], sep, k - 1);
    }
  }

  /** A line of at least four tab-free fields loads as (field 3, field 1). */
  lemma {:induction false} ParseJoinedLine(parts: seq<string>, index: nat)
    requires |parts| >= 4
    requires forall i :: 0 <= i < |parts| ==> Tab !in parts[i]
    ensures ParseLine(Join(parts, Tab), index) == Success(Sentance(parts[3], parts[1]))
  {
    SplitJoin(parts, Tab);
  }

  /** Only fields 1 and 3 count: the other fields, however many, are ignored. */
  lemma {:induction false} IgnoredFields(id: string, jp: string, attribution: string, en: string, more: seq<string>, index: nat)
    requires Tab !in id && Tab !in jp && Tab !in attribution && Tab !in en
    requires forall i :: 0 <= i < |more| ==> Tab !in more[i]
    ensures ParseLine(Join([id, jp, attribution, en] + more, Tab), index) == Success(Sentance(en, jp))
  {
    var parts := [id, jp, attribution, en] + more;
    forall i | 0 <= i < |parts| ensures Tab !in parts[i] {
      if i >= 4 {
        assert parts[i] == more[i - 4];
      }
    }
    ParseJoinedLine(parts, index);
  }

  /** A line that is too short fails loading, even after good lines: no
      partial result is returned. */
  lemma ShortLineFails(text: string, k: nat)
    requires k < |Lines(text)| && !HasFourFields(Lines(text)[k])
    ensures ParseTsv(text).Failure?
    ensures ParseTsv(text).error.line <= k
  {
  }

  /** A blank line has one field, so it always fails. */
  lemma BlankLineFails(index: nat)
    ensures ParseLine([], index) == Failure(FieldIndexOutOfBounds(index, 1))
  {
  }

  /** The empty file loads as no sentences. */
  lemma EmptyTextLoadsNothing()
    ensures ParseTsv([]) == Success([])
  {
  }

  /** A non-empty file that loads yields at least one sentence. */
  lemma LoadedCorpusNonEmpty(text: string)
    requires ParseTsv(text).Success?
    ensures |ParseTsv(text).value| > 0 <==> text != []
  {
  }

  /** A final line ending changes nothing. */
  lemma FinalLineEndingIgnored(text: string)
    requires text != [] && text[|text| - 1] != LineFeed
    ensures ParseTsv(text + [CarriageReturn, LineFeed]) == ParseTsv(text)
    ensures text[|text| - 1] != CarriageReturn ==> ParseTsv(text + [LineFeed]) == ParseTsv(text)
  {
    FinalCrLfIsOptional(text);
    if text[|text| - 1] != CarriageReturn {
      FinalLineFeedIsOptional(text);
    }
  }

  /** The lines of a table, fields joined by tabs. */
  function RowLines(rows: seq<seq<string>>): (lines: seq<string>)
    requires forall i :: 0 <= i < |rows| ==> |rows[i]| > 0
    ensures |lines| == |rows|
  {
    if rows == [] then [] else [Join(rows[0], Tab)] + RowLines(rows[1..])
  }

  /** The sentence each row stands for: English from field 3, Japanese from field 1. */
  function RowSentances(rows: seq<seq<string>>): (pairs: seq<Sentance>)
    requires forall i :: 0 <= i < |rows| ==> |rows[i]| >= 4
    ensures |pairs| == |rows|
  {
    if rows == [] then [] else [Sentance(rows[0][3], rows[0][1])] + RowSentances(rows[1..])
  }

  predicate CleanField(field: string)
  {
    Tab !in field && LineFeed !in field
  }

  /** A table with at least four clean fields per row, written one row per
      "\n"-terminated line, loads as the rows' (field 3, field 1) pairs. */
  lemma {:induction false} ParseTsvRoundTrip(rows: seq<seq<string>>)
    requires forall i :: 0 <= i < |rows| ==> |rows[i]| >= 4
    requires forall i, j :: 0 <= i < |rows| && 0 <= j < |rows[i]| ==> CleanField(rows[i][j])
    requires forall i :: 0 <= i < |rows| ==> !EndsWithCr(rows[i][|rows[i]| - 1])
    ensures ParseTsv(Unlines(RowLines(rows))) == Success(RowSentances(rows))
  {
    var lines := RowLines(rows);
    forall i | 0 <= i < |lines|
      ensures LineFeed !in lines[i] && !EndsWithCr(lines[i])
      ensures Fields(lines[i]) == rows[i]
    {
      RowLinesAt(rows, i);
      var row := rows[i];
      JoinKeepsOut(row, Tab, LineFeed);
      SplitJoin(row, Tab);
      JoinEndsWithLast(row, Tab);
    }
    LinesUnlines(lines);
    RowSentancesAt(rows);
    var r := ParseTsv(Unlines(lines));
    assert r.Success?;
    assert r.value == RowSentances(rows);
  }

  lemma {:induction false} RowLinesAt(rows: seq<seq<string>>, i: nat)
    requires forall k :: 0 <= k < |rows| ==> |rows[k]| > 0
    requires i < |rows|
    ensures RowLines(rows)[i] == Join(rows[i], Tab)
  {
    if i > 0 {
      RowLinesAt(rows[1..], i - 1);
    }
  }

  lemma {:induction false} RowSentancesAt(rows: seq<seq<string>>)
    requires forall k :: 0 <= k < |rows| ==> |rows[k]| >= 4
    ensures forall i :: 0 <= i < |rows| ==> RowSentances(rows)[i] == Sentance(rows[i][3], rows[i][1])
  {
    if rows != [] {
      RowSentancesAt(rows[1..]);
      var pairs := RowSentances(rows);
      forall i | 0 <= i < |rows| ensures pairs[i] == Sentance(rows[i][3], rows[i][1]) {
        if i > 0 {
          assert pairs[i] == RowSentances(rows[1..])[i - 1];
        }
      }
    }
  }

  /** The join ends with the end of the last piece (or with `sep` when that piece is empty). */
  lemma {:induction false} JoinEndsWithLast(pieces: seq<string>, sep: char)
    requires |pieces| > 0 && sep != CarriageReturn
    ensures EndsWithCr(Join(pieces, sep)) == EndsWithCr(pieces[|pieces| - 1])
  {
    if |pieces| > 1 {
      JoinEndsWithLast(pieces[1..], sep);
    }
  }
}
