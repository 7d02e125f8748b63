/** The layout `logListOfReport` builds before handing the lines to the report:
    each row is split on line breaks; its first line is numbered with the row's
    position, the further lines are indented, and a dashed separator closes the row. */
module Report {
  import opened JavaText
  import opened JavaSplit
  import opened JavaInt

  /** The fixed separator line: fifty dashes. */
  const Separator: string := Repeat('-', 50)

  /** A line that cannot be the separator because it does not open with a dash. */
  predicate OpensWithoutDash(line: string) {
    |line| > 0 && line[0] != '-'
  }

  lemma DashlessIsNotSeparator(line: string)
    requires OpensWithoutDash(line)
    ensures line != Separator
  {
    assert Separator[0] == '-';
  }

  /** The numbered line for row `k` when its first piece is not blank. */
  function HeaderLines(k: nat, pieces: seq<string>): (r: seq<string>)
    ensures |r| == (if |pieces| > 0 && Trim(pieces[0]) != "" then 1 else 0)
    ensures |r| == 1 ==> r[0] == Show(k) + ". " + Trim(pieces[0])
    ensures forall i | 0 <= i < |r| :: OpensWithoutDash(r[i])
  {
    if |pieces| > 0 && Trim(pieces[0]) != "" then
      var line := Show(k) + ". " + Trim(pieces[0]);
      assert line[0] == Show(k)[0] && IsDigit(line[0]);
      [line]
    else []
  }

  /** Three spaces and the trimmed text of every piece after the first. */
  function ContinuationLines(pieces: seq<string>): (r: seq<string>)
    ensures |r| == (if |pieces| > 0 then |pieces| - 1 else 0)
    ensures forall i | 0 <= i < |r| :: r[i] == "   " + Trim(pieces[i + 1])
    ensures forall i | 0 <= i < |r| :: OpensWithoutDash(r[i])
    decreases |pieces|
  {
    if |pieces| <= 1 then []
    else
      var line := "   " + Trim(pieces[1]);
      assert line[0] == ' ';
      var rest := ContinuationLines(pieces[1..]);
      assert forall i | 1 <= i < |pieces| - 1 :: pieces[1..][i] == pieces[i + 1];
      [line] + rest
  }

  /** The lines row `row`, at 1-based position `k`, contributes before its separator. */
  function RowBody(k: nat, row: string): (r: seq<string>)
    ensures SeparatorFree(r)
  {
    var pieces := Split(row, '\n');
    var r := HeaderLines(k, pieces) + ContinuationLines(pieces);
    assert forall i | 0 <= i < |r| :: OpensWithoutDash(r[i]);
    forall i | 0 <= i < |r|
      ensures r[i] != Separator
    {
      DashlessIsNotSeparator(r[i]);
    }
    r
  }

  /** The block a row contributes: its body closed by the separator. */
  function RowBlock(k: nat, row: string): seq<string> {
    RowBody(k, row) + [Separator]
  }

  /** No line of `body` is the separator. */
  predicate SeparatorFree(body: seq<string>) {
    forall i | 0 <= i < |body| :: body[i] != Separator
  }

  /** The bodies of `rows`, numbering the first of them `k`. */
  function Bodies(rows: seq<string>, k: nat): (r: seq<seq<string>>)
    ensures |r| == |rows|
    ensures forall j | 0 <= j < |rows| :: r[j] == RowBody(k + j, rows[j])
  {
    seq(|rows|, j requires 0 <= j < |rows| => RowBody(k + j, rows[j]))
  }

  /** The report lines for these bodies: each body followed by the separator. */
  function Assemble(bodies: seq<seq<string>>): (r: seq<string>)
    requires forall j | 0 <= j < |bodies| :: SeparatorFree(bodies[j])
    ensures CountSeparators(r) == |bodies|
    decreases |bodies|
  {
    if |bodies| == 0 then []
    else
      var rest := Assemble(bodies[1..]);
      CountSeparatorsAppend(bodies[0] + [Separator], rest);
      CountSeparatorsBody(bodies[0]);
      bodies[0] + [Separator] + rest
  }

  /** `logListOfReport`: the formatted lines, rows numbered from 1 in list order.
      Exactly one separator line per row. */
  function FormatReport(rows: seq<string>): (r: seq<string>)
    ensures CountSeparators(r) == |rows|
  {
    var bodies := Bodies(rows, 1);
    assert forall j | 0 <= j < |bodies| :: SeparatorFree(bodies[j]);
    Assemble(bodies)
  }

  function CountSeparators(lines: seq<string>): nat
    decreases |lines|
  {
    if |lines| == 0 then 0
    else (if lines[0] == Separator then 1 else 0) + CountSeparators(lines[1..])
  }

  lemma {:induction false} CountSeparatorsAppend(a: seq<string>, b: seq<string>)
    ensures CountSeparators(a + b) == CountSeparators(a) + CountSeparators(b)
    decreases |a|
  {
    if |a| > 0 {
      assert (a + b)[1..] == a[1..] + b;
      CountSeparatorsAppend(a[1..], b);
    } else {
      assert a + b == b;
    }
  }

  lemma {:induction false} CountSeparatorsBody(body: seq<string>)
    requires SeparatorFree(body)
    ensures CountSeparators(body + [Separator]) == 1
    decreases |body|
  {
    if |body| > 0 {
      assert (body + [Separator])[1..] == body[1..] + [Separator];
      CountSeparatorsBody(body[1..]);
    } else {
      assert CountSeparators([Separator][1..]) == 0;
    }
  }

  /** Cuts a list of lines into the blocks that each end at a separator line
      (the separator itself dropped); lines after the last separator form a final block. */
  function Blocks(lines: seq<string>): seq<seq<string>>
    decreases |lines|
  {
    if |lines| == 0 then []
    else
      var i := FirstSeparator(lines);
      if i == |lines| then [lines] else [lines[..i]] + Blocks(lines[i + 1..])
  }

  /** The index of the first separator line, or the length when there is none. */
  function FirstSeparator(lines: seq<string>): (i: nat)
    ensures i <= |lines|
    ensures i < |lines| ==> lines[i] == Separator
    ensures forall j | 0 <= j < i :: lines[j] != Separator
    decreases |lines|
  {
    if |lines| == 0 then 0
    else if lines[0] == Separator then 0
    else 1 + FirstSeparator(lines[1..])
  }

  lemma BlocksCons(body: seq<string>, rest: seq<string>)
    requires SeparatorFree(body)
    ensures Blocks(body + [Separator] + rest) == [body] + Blocks(rest)
  {
    var lines := body + [Separator] + rest;
    assert lines[|body|] == Separator;
    assert forall j | 0 <= j < |body| :: lines[j] == body[j];
    var i := FirstSeparator(lines);
    assert i == |body|;
    assert lines[..i] == body;
    assert lines[i + 1..] == rest;
  }

  /** Reading the report back: cutting the lines at the separators gives the bodies. */
  lemma {:induction false} BlocksOfAssemble(bodies: seq<seq<string>>)
    requires forall j | 0 <= j < |bodies| :: SeparatorFree(bodies[j])
    ensures Blocks(Assemble(bodies)) == bodies
    decreases |bodies|
  {
    if |bodies| > 0 {
      var rest := Assemble(bodies[1..]);
      BlocksOfAssemble(bodies[1..]);
      BlocksCons(bodies[0], rest);
      assert bodies == [bodies[0]] + bodies[1..];
    }
  }

  /** The report of `rows` read back block by block: block j is row j's body,
      numbered j + 1. Numbering therefore counts rows, including rows whose blank
      first line produced no numbered line. */
  lemma ReportBlocks(rows: seq<string>)
    ensures |Blocks(FormatReport(rows))| == |rows|
    ensures forall j | 0 <= j < |rows| :: Blocks(FormatReport(rows))[j] == RowBody(j + 1, rows[j])
  {
    BlocksOfAssemble(Bodies(rows, 1));
  }

  /** The size of a row's block: one numbered line if its first piece is not blank,
      one indented line per further piece, and the separator. */
  lemma RowBlockSize(k: nat, row: string)
    ensures var pieces := Split(row, '\n');
            |RowBlock(k, row)| == (if |pieces| > 0 && Trim(pieces[0]) != "" then 1 else 0)
                                  + (if |pieces| > 0 then |pieces| - 1 else 0) + 1
    ensures RowBlock(k, row)[|RowBlock(k, row)| - 1] == Separator
  {
  }

  /** A row made only of line breaks splits into no pieces: its block is the separator alone. */
  lemma {:induction false} OnlyLineBreaks(k: nat, n: nat)
    requires n > 0
    ensures RowBlock(k, Repeat('\n', n)) == [Separator]
  {
    var row := Repeat('\n', n);
    assert row[0] == '\n';
    SplitAllBreaks(n);
    var r := DropTrailingEmpty(SplitAll(row, '\n'));
    assert Split(row, '\n') == [];
  }

  lemma {:induction false} SplitAllBreaks(n: nat)
    ensures SplitAll(Repeat('\n', n), '\n') == EmptyPieces(n + 1)
    decreases n
  {
    if n > 0 {
      SplitAllBreaks(n - 1);
      assert Repeat('\n', n)[1..] == Repeat('\n', n - 1);
      assert [""] + EmptyPieces(n) == EmptyPieces(n + 1);
    }
  }

  lemma ExampleSplit(row: string)
    requires row == "a\n b\n\n"
    ensures Split(row, '\n') == ["a", " b"]
  {
    assert Repeat('\n', 2) == "\n\n";
    assert Join(["a", " b"], '\n') == "a\n b";
    assert row == Join(["a", " b"], '\n') + Repeat('\n', 2);
    SplitJoin(["a", " b"], 2, '\n');
  }

  /** Continuation lines keep their order and lose surrounding blanks:
      "a\n b\n\n" gives "1. a", "   b" and the separator. */
  lemma FormatExample(row: string)
    requires row == "a\n b\n\n"
    ensures FormatReport([row]) == ["1. a", "   b", Separator]
  {
    var first, second := "a", " b";
    ExampleSplit(row);
    ExampleLines(first, second);
    TwoPieceReport(row, first, second);
  }

  lemma ExampleLines(first: string, second: string)
    requires first == "a" && second == " b"
    ensures Trim(first) != ""
    ensures Show(1) + ". " + Trim(first) == "1. a"
    ensures "   " + Trim(second) == "   b"
  {
    TrimExample(first, "a");
    TrimExample(second, "b");
    assert Show(1) == "1";
    assert "1" + ". " + "a" == "1. a";
    assert "   " + "b" == "   b";
  }

  /** The report of a single row that splits into two pieces, the first not blank. */
  lemma TwoPieceReport(row: string, first: string, second: string)
    requires Split(row, '\n') == [first, second]
    requires Trim(first) != ""
    ensures FormatReport([row]) == [Show(1) + ". " + Trim(first), "   " + Trim(second), Separator]
  {
    SingleRow(row);
    TwoPieceBody(1, row, first, second);
    AppendSeparator(RowBody(1, row));
  }

  /** A single row's report is that row's block. */
  lemma SingleRow(row: string)
    ensures FormatReport([row]) == RowBlock(1, row)
  {
    var bodies := Bodies([row], 1);
    assert bodies == [RowBody(1, row)];
    assert bodies[1..] == [];
    assert Assemble(bodies[1..]) == [];
    assert Assemble(bodies) == bodies[0] + [Separator] + Assemble(bodies[1..]);
  }

  lemma AppendSeparator(lines: seq<string>)
    requires |lines| == 2
    ensures lines + [Separator] == [lines[0], lines[1], Separator]
  {
  }

  /** The body of a row that splits into two pieces, the first of them not blank:
      the numbered line and one indented line. */
  lemma TwoPieceBody(k: nat, row: string, first: string, second: string)
    requires Split(row, '\n') == [first, second]
    requires Trim(first) != ""
    ensures RowBody(k, row) == [Show(k) + ". " + Trim(first), "   " + Trim(second)]
  {
    TwoPieces(first, second);
  }

  /** A row of two pieces continues with exactly one indented line. */
  lemma TwoPieces(first: string, second: string)
    ensures ContinuationLines([first, second]) == ["   " + Trim(second)]
  {
    var pieces := [first, second];
    assert pieces[1..] == [second];
    assert ContinuationLines([second]) == [];
  }

  lemma TrimExample(s: string, t: string)
    requires (s == "a" && t == "a") || (s == " b" && t == "b")
    ensures Trim(s) == t
  {
    if s == " b" {
      assert TrimStart(s) == "b";
    }
  }
}
