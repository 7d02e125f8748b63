/** The web-table checks: is a table's visible content consistent with a filter,
    is it sorted, and the click sequences that apply a sort or a filter. */
module WebTable {
  import opened Wrappers
  import opened JavaText
  import opened JavaCompare
  import opened Dom
  import opened Report

  /** The filter predicate of `verifyTableFilter`: the row's text contains the filter
      value, both lower-cased. */
  predicate Keeps(text: string, value: string) {
    Contains(ToLower(text), ToLower(value))
  }

  /** The filter predicate ignores the case of both the row's text and the value. */
  lemma KeepsIgnoresCase(text: string, value: string, text': string, value': string)
    requires EqualsIgnoreCase(text, text') && EqualsIgnoreCase(value, value')
    ensures Keeps(text, value) <==> Keeps(text', value')
  {
    EqualsIgnoreCaseLower(text, text');
    EqualsIgnoreCaseLower(value, value');
  }

  /** `originalList.stream().filter(...)`: the rows the filter predicate keeps, in order. */
  function Filter(texts: seq<string>, value: string): (r: seq<string>)
    ensures |r| <= |texts|
    ensures forall j | 0 <= j < |r| :: Keeps(r[j], value) && r[j] in texts
    ensures |r| == |texts| <==> forall i | 0 <= i < |texts| :: Keeps(texts[i], value)
    ensures |r| == |texts| ==> r == texts
    ensures |texts| == 1 ==> r == (if Keeps(texts[0], value) then texts else [])
  {
    if |texts| == 0 then []
    else
      var rest := Filter(texts[1..], value);
      assert forall j | 0 <= j < |rest| :: rest[j] in texts by {
        forall j | 0 <= j < |rest|
          ensures rest[j] in texts
        {
          var k :| 0 <= k < |texts[1..]| && texts[1..][k] == rest[j];
          assert texts[k + 1] == rest[j];
        }
      }
      assert forall i | 1 <= i < |texts| :: texts[1..][i - 1] == texts[i];
      assert texts == [texts[0]] + texts[1..];
      if Keeps(texts[0], value) then
        [texts[0]] + rest
      else
        rest
  }

  /** Completeness: every text the predicate keeps is kept as often as it occurs, and
      no other text is. */
  lemma {:induction false} FilterCounts(texts: seq<string>, value: string, x: string)
    ensures multiset(Filter(texts, value))[x] == (if Keeps(x, value) then multiset(texts)[x] else 0)
    decreases |texts|
  {
    if |texts| > 0 {
      FilterCounts(texts[1..], value, x);
      assert texts == [texts[0]] + texts[1..];
      assert multiset(texts) == multiset([texts[0]]) + multiset(texts[1..]);
    }
  }

  /** Filtering a concatenation filters each part: the kept rows keep their order. */
  lemma {:induction false} FilterAppend(a: seq<string>, b: seq<string>, value: string)
    ensures Filter(a + b, value) == Filter(a, value) + Filter(b, value)
    decreases |a|
  {
    if |a| > 0 {
      assert (a + b)[0] == a[0];
      assert (a + b)[1..] == a[1..] + b;
      FilterAppend(a[1..], b, value);
    } else {
      assert a + b == b;
    }
  }

  /** `verifyTableFilter`: the table passes exactly when every row can be read and
      every row's text contains the filter value, ignoring case. A stale row is
      caught and reported as `false`. */
  function VerifyTableFilter(rows: seq<Element>, value: string): (r: bool)
    ensures r <==> Readable(rows)
                   && (forall i | 0 <= i < |rows| :: Keeps(rows[i].text, value))
  {
    match Texts(rows)
    case Failure(_) => false
    case Success(texts) =>
      var filtered := Filter(texts, value);
      assert filtered == texts ==> |filtered| == |texts|;
      filtered == texts
  }

  /** `verifyTableSortAsc` (`descending == false`) and `verifyTableSortDesc`
      (`descending == true`): the table passes exactly when every row can be read
      and the texts are already in `compareTo` order (or its reverse). */
  function VerifyTableSort(rows: seq<Element>, descending: bool): (r: bool)
    ensures r <==> Readable(rows) && Sorted(TextOf(rows), descending)
  {
    match Texts(rows)
    case Failure(_) => false
    case Success(texts) =>
      SortedCopyFixpoint(texts, descending);
      SortedCopy(texts, descending) == texts
  }

  /** Both sort checks pass on the same rows exactly when every row can be read and all
      rows show the same text. */
  lemma SortedBothDirections(rows: seq<Element>)
    ensures VerifyTableSort(rows, false) && VerifyTableSort(rows, true)
        <==> Readable(rows)
             && (forall i, j | 0 <= i < |rows| && 0 <= j < |rows| :: rows[i].text == rows[j].text)
  {
    SortedBothWays(TextOf(rows));
  }

  /** What `applySorting` sends to the report. */
  datatype LogEntry = Message(text: string) | Table(lines: seq<string>) | Screenshot

  /** The observable run of `applySorting`: how many header clicks happened, the report
      entries written, and the result or the exception that escaped. */
  datatype SortRun = SortRun(clicks: nat, log: seq<LogEntry>, outcome: Result<bool, Error>)

  /** The report entries for one snapshot of the table: the message, the formatted
      rows, which read back as one numbered block per row, and the screenshot. */
  function SnapshotLog(message: string, texts: seq<string>): (r: seq<LogEntry>)
    ensures |r| == 3 && r[0] == Message(message) && r[1].Table? && r[2] == Screenshot
    ensures |Blocks(r[1].lines)| == |texts|
    ensures forall j | 0 <= j < |texts| :: Blocks(r[1].lines)[j] == RowBody(j + 1, texts[j])
  {
    ReportBlocks(texts);
    [Message(message), Table(FormatReport(texts)), Screenshot]
  }

  /** `applySorting`: click the header, log and check the ascending order on the rows
      as they read after the first click, then the descending pass, and return whether
      exactly one check passed. The header is given as it stands at each of its three
      clicks, since sorting re-renders the table. Only `InterruptedException` is
      caught, so a failed click, or a stale row while the rows are logged, escapes. */
  function ApplySorting(header: Element, afterFirst: seq<Element>, headerSecond: Element,
                        afterSecond: seq<Element>, headerThird: Element): (r: SortRun)
    ensures r.outcome.Success? <==> Interactable(header) && Readable(afterFirst)
                                    && Interactable(headerSecond) && Readable(afterSecond)
                                    && Interactable(headerThird)
    ensures r.outcome.Success? <==> r.clicks == 3
    ensures !Interactable(header) ==> r == SortRun(0, [], Failure(Click(header).error))
    ensures Interactable(header) && !Readable(afterFirst) ==>
              r == SortRun(1, [Message("Ascending sort applied")], Failure(StaleElementReference))
    ensures Interactable(header) && Readable(afterFirst) ==>
              var rest := DescendingPass(headerSecond, afterSecond, headerThird);
              && r.clicks == 1 + rest.clicks
              && r.log == SnapshotLog("Ascending sort applied", TextOf(afterFirst)) + rest.log
              && (rest.outcome.Failure? ==> r.outcome == rest.outcome)
    ensures r.outcome.Success? ==>
              && r.log == SnapshotLog("Ascending sort applied", TextOf(afterFirst))
                          + SnapshotLog("Descending sort applied", TextOf(afterSecond))
              && (r.outcome.value <==> Sorted(TextOf(afterFirst), false) != Sorted(TextOf(afterSecond), true))
  {
    match Click(header)
    case Failure(e) => SortRun(0, [], Failure(e))
    case Success(_) =>
      match Texts(afterFirst)
      case Failure(e) => SortRun(1, [Message("Ascending sort applied")], Failure(e))
      case Success(first) =>
        var ascending := VerifyTableSort(afterFirst, false);
        var rest := DescendingPass(headerSecond, afterSecond, headerThird);
        var outcome := match rest.outcome
          case Failure(e) => Failure(e)
          case Success(descending) => Success(ascending != descending);
        SortRun(1 + rest.clicks, SnapshotLog("Ascending sort applied", first) + rest.log, outcome)
  }

  /** The second half of `applySorting`: click the header again, log and check the
      descending order on the rows as they read after that click, and click the header
      a third time. The result is the descending check. */
  function DescendingPass(headerSecond: Element, afterSecond: seq<Element>, headerThird: Element): (r: SortRun)
    ensures r.outcome.Success? <==> Interactable(headerSecond) && Readable(afterSecond) && Interactable(headerThird)
    ensures r.outcome.Success? <==> r.clicks == 2
    ensures !Interactable(headerSecond) ==> r == SortRun(0, [], Failure(Click(headerSecond).error))
    ensures Interactable(headerSecond) && !Readable(afterSecond) ==>
              r == SortRun(1, [Message("Descending sort applied")], Failure(StaleElementReference))
    ensures Interactable(headerSecond) && Readable(afterSecond) ==>
              r.log == SnapshotLog("Descending sort applied", TextOf(afterSecond))
    ensures Interactable(headerSecond) && Readable(afterSecond) && !Interactable(headerThird) ==>
              r.clicks == 1 && r.outcome == Failure(Click(headerThird).error)
    ensures r.outcome.Success? ==> (r.outcome.value <==> Sorted(TextOf(afterSecond), true))
  {
    match Click(headerSecond)
    case Failure(e) => SortRun(0, [], Failure(e))
    case Success(_) =>
      match Texts(afterSecond)
      case Failure(e) => SortRun(1, [Message("Descending sort applied")], Failure(e))
      case Success(second) =>
        var log := SnapshotLog("Descending sort applied", second);
        match Click(headerThird)
        case Failure(e) => SortRun(1, log, Failure(e))
        case Success(_) => SortRun(2, log, Success(VerifyTableSort(afterSecond, true)))
  }

  /** A header that sorts correctly, ascending after the first click and descending
      after the second, makes `applySorting` report failure: the result is the
      exclusive or of the two checks, not their conjunction. */
  lemma CorrectSortCycleIsRejected(header: Element, afterFirst: seq<Element>, headerSecond: Element,
                                   afterSecond: seq<Element>, headerThird: Element)
    requires Interactable(header) && Interactable(headerSecond) && Interactable(headerThird)
    requires Readable(afterFirst)
    requires Readable(afterSecond)
    requires Sorted(TextOf(afterFirst), false) && Sorted(TextOf(afterSecond), true)
    ensures ApplySorting(header, afterFirst, headerSecond, afterSecond, headerThird).outcome == Success(false)
  {
  }

  /** A column whose rows all show the same text (one row, or a constant column)
      passes both checks, so `applySorting` reports failure for it. */
  lemma ConstantColumnIsRejected(header: Element, rows: seq<Element>)
    requires Interactable(header)
    requires Readable(rows)
    requires forall i, j | 0 <= i < |rows| && 0 <= j < |rows| :: rows[i].text == rows[j].text
    ensures ApplySorting(header, rows, header, rows, header).outcome == Success(false)
  {
    SortedBothDirections(rows);
  }

  /** An edit sent to the filter input: clearing it, the TAB key, or typed text. */
  datatype InputEvent = Cleared | Tab | Typed(keys: string)

  /** The observable run of `applyFilter`: what was sent to the input, and the result. */
  datatype FilterRun = FilterRun(events: seq<InputEvent>, result: bool)

  /** `applyFilter`: clear the input, press TAB, type the filter value, then check the
      rows. An input that is hidden, disabled or stale raises from `clear()`, which
      `applyFilter` catches and reports as `false` before anything was sent. */
  function ApplyFilter(input: Element, value: string, rows: seq<Element>): (r: FilterRun)
    ensures r.events == [] <==> !Clickable(input)
    ensures Clickable(input) ==> r.events == [Cleared, Tab, Typed(value)]
    ensures r.result <==> Clickable(input)
                          && Readable(rows)
                          && (forall i | 0 <= i < |rows| :: Keeps(rows[i].text, value))
  {
    if !Clickable(input) then FilterRun([], false)
    else FilterRun([Cleared, Tab, Typed(value)], VerifyTableFilter(rows, value))
  }

  /** The empty filter value is contained in every text, so with an interactable input
      and readable rows the filter check always passes. */
  lemma EmptyFilterAcceptsEverything(input: Element, rows: seq<Element>)
    requires Clickable(input)
    requires Readable(rows)
    ensures ApplyFilter(input, "", rows).result
  {
    forall i | 0 <= i < |rows|
      ensures Keeps(rows[i].text, "")
    {
      assert OccursAt(ToLower(rows[i].text), ToLower(""), 0);
    }
  }

  /** The filter check ignores the case of the filter value. */
  lemma FilterIgnoresValueCase(rows: seq<Element>, value: string)
    ensures VerifyTableFilter(rows, ToLower(value)) == VerifyTableFilter(rows, value)
  {
    ToLowerIdempotent(value);
  }

  /** Two rows "Alpha" and "Alphabet" pass the filter "ALPHA" but not the filter "bet". */
  lemma FilterExample(rows: seq<Element>, upper: string, other: string)
    requires rows == [Element(0, "Alpha", true, true, false), Element(1, "Alphabet", true, true, false)]
    requires upper == "ALPHA" && other == "bet"
    ensures VerifyTableFilter(rows, upper)
    ensures !VerifyTableFilter(rows, other)
  {
    AlphaKept(rows[0].text, rows[1].text, upper);
    BetRejected(rows[0].text, other);
  }

  lemma AlphaKept(first: string, second: string, value: string)
    requires first == "Alpha" && second == "Alphabet" && value == "ALPHA"
    ensures Keeps(first, value) && Keeps(second, value)
  {
    assert ToLower(value) == "alpha";
    assert ToLower(first) == "alpha";
    assert ToLower(second) == "alphabet";
    assert OccursAt("alpha", "alpha", 0);
    assert OccursAt("alphabet", "alpha", 0);
  }

  lemma BetRejected(text: string, value: string)
    requires text == "Alpha" && value == "bet"
    ensures !Keeps(text, value)
  {
    assert ToLower(text) == "alpha";
    assert ToLower(value) == "bet";
    forall i | 0 <= i <= 2
      ensures !OccursAt("alpha", "bet", i)
    {
      assert "alpha"[i] != 'b';
    }
  }
}
