/** The date-picker helper: parse a `dd/MM/yyyy` date, open the calendar, switch to
    the year view, step year by year towards the target, pick the month and locate
    the day cell; and clear a selected date. */
module DatePicker {
  import opened Wrappers
  import opened JavaInt
  import opened JavaSplit
  import opened Dom

  /** A cell of the day grid; `otherMonth` cells belong to the neighbouring months and
      are not among the cells the helper looks at. */
  datatype DayCell = DayCell(element: Element, otherMonth: bool)

  /** The calendar as the helper finds it: the field that opens it, the next, title and
      previous links of its header (looked up once the picker is open), the month cells
      of the year view (looked up after the year steps), the day cells of the month
      view (looked up after the month click), and the Clear link (if one becomes
      clickable). Each list is the snapshot taken at its own look-up. */
  datatype Widget = Widget(
    trigger: Element,
    nextLinks: seq<Element>,
    titleLinks: seq<Element>,
    previousLinks: seq<Element>,
    monthCells: seq<Element>,
    dayCells: seq<DayCell>,
    clearButton: Option<Element>)

  /** Which control an event concerns. */
  datatype Target = Trigger | Title | Next | Previous | Month | Clear

  /** A click, or a click abandoned because the element had gone stale. */
  datatype Event = Clicked(target: Target, id: nat) | StaleSkipped(target: Target, id: nat)

  /** The three fields of a parsed date; `month` is zero-based as the helper computes it. */
  datatype ParsedDate = ParsedDate(day: int, month: int, year: int)

  /** The element found for the requested day, no element (`null` without an
      exception), or the exception that ended the run (`null` after it is logged). */
  datatype Selection = Selected(element: Element) | NoneDisplayed | Aborted(error: Error)

  /** The clicks performed and what `testDatePicker` found. */
  datatype Resolution = Resolution(events: seq<Event>, selection: Selection)

  // ---------------------------------------------------------------- parsing

  /** `date.split(" ")[0].split("/")` read as day, month (minus one) and year with
      `Integer.parseInt`; a missing field is an index error, a malformed one a
      number-format error. Fields after the third, and text after the first space,
      are ignored. */
  function ParseDate(date: string): (r: Result<ParsedDate, Error>)
    ensures r.Failure? ==> r.error == IndexOutOfBounds || r.error == NumberFormat
    ensures r.Success? ==> IsInt32(r.value.day) && IsInt32(r.value.month) && IsInt32(r.value.year)
    ensures '/' !in date ==> r.Failure?
  {
    var components := Split(date, ' ');
    if |components| == 0 then Failure(IndexOutOfBounds)
    else
      var fields := Split(components[0], '/');
      assert '/' in components[0] ==> '/' in date by {
        if '/' in components[0] && ' ' in date {
          var n: nat :| date == Join(components, ' ') + Repeat(' ', n);
          JoinContains(components, ' ', '/');
          var joined := Join(components, ' ');
          var i :| 0 <= i < |joined| && joined[i] == '/';
          assert date[i] == '/';
        }
      }
      if |fields| < 1 then Failure(IndexOutOfBounds)
      else match ParseInt(fields[0])
      case None => Failure(NumberFormat)
      case Some(day) =>
        if |fields| < 2 then Failure(IndexOutOfBounds)
        else match ParseInt(fields[1])
        case None => Failure(NumberFormat)
        case Some(month) =>
          if |fields| < 3 then Failure(IndexOutOfBounds)
          else match ParseInt(fields[2])
          case None => Failure(NumberFormat)
          case Some(year) => Success(ParsedDate(day, Wrap32(month - 1), year))
  }

  /** Every character of a piece occurs in the joined string. */
  lemma {:induction false} JoinContains(pieces: seq<string>, sep: char, c: char)
    requires |pieces| >= 1 && c in pieces[0]
    ensures c in Join(pieces, sep)
  {
    if |pieces| > 1 {
      var s := Join(pieces, sep);
      var i :| 0 <= i < |pieces[0]| && pieces[0][i] == c;
      assert s[i] == c;
    }
  }

  /** Round trip: three fields that `Integer.parseInt` accepts, joined by slashes and
      optionally followed by a space and further text, parse back to their values, the
      month made zero-based. Leading zeros and signs are allowed, as in Java. */
  lemma ParseDateFields(f0: string, f1: string, f2: string, rest: string)
    requires ParseInt(f0).Some? && ParseInt(f1).Some? && ParseInt(f2).Some?
    requires rest == "" || rest[0] == ' '
    ensures ParseDate(Join([f0, f1, f2], '/') + rest)
            == Success(ParsedDate(ParseInt(f0).value, Wrap32(ParseInt(f1).value - 1), ParseInt(f2).value))
  {
    DateFieldsSplit(f0, f1, f2, rest);
    ParseDateOfFields(Join([f0, f1, f2], '/') + rest, [f0, f1, f2]);
  }

  /** The text before the first space is the joined fields, and splitting it at the
      slashes gives the fields back. */
  lemma DateFieldsSplit(f0: string, f1: string, f2: string, rest: string)
    requires ParseInt(f0).Some? && ParseInt(f1).Some? && ParseInt(f2).Some?
    requires rest == "" || rest[0] == ' '
    ensures var date := Join([f0, f1, f2], '/') + rest;
            |Split(date, ' ')| >= 1 && Split(Split(date, ' ')[0], '/') == [f0, f1, f2]
  {
    var pieces := [f0, f1, f2];
    var text := Join(pieces, '/');
    forall k | 0 <= k < 3
      ensures '/' !in pieces[k] && ' ' !in pieces[k] && pieces[k] != ""
    {
      NumeralAvoids(pieces[k], '/');
      NumeralAvoids(pieces[k], ' ');
    }
    JoinAvoids(pieces, '/', ' ');
    assert text[..|f0|] == f0;
    FirstFieldOfDate(text, rest);
    assert text == Join(pieces, '/') + Repeat('/', 0);
    SplitJoin(pieces, 0, '/');
  }

  /** `ParseDate` once the text before the first space splits into three numerals. */
  lemma ParseDateOfFields(date: string, fields: seq<string>)
    requires |Split(date, ' ')| >= 1 && Split(Split(date, ' ')[0], '/') == fields
    requires |fields| == 3 && ParseInt(fields[0]).Some? && ParseInt(fields[1]).Some? && ParseInt(fields[2]).Some?
    ensures ParseDate(date)
            == Success(ParsedDate(ParseInt(fields[0]).value, Wrap32(ParseInt(fields[1]).value - 1), ParseInt(fields[2]).value))
  {
  }

  /** The text before the first space of `text + rest` is `text`. */
  lemma FirstFieldOfDate(text: string, rest: string)
    requires text != "" && ' ' !in text
    requires rest == "" || rest[0] == ' '
    ensures |Split(text + rest, ' ')| >= 1 && Split(text + rest, ' ')[0] == text
  {
    if rest == "" {
      assert text + rest == text;
    } else {
      assert text + rest == text + [' '] + rest[1..];
      SplitFirstPiece(text, rest[1..], ' ');
    }
  }

  /** A string `Integer.parseInt` accepts holds digits and at most a leading sign. */
  lemma NumeralAvoids(s: string, c: char)
    requires ParseInt(s).Some? && !IsDigit(c) && c != '+' && c != '-'
    ensures c !in s && s != ""
  {
    forall i | 0 <= i < |s|
      ensures s[i] != c
    {
      if i > 0 {
        assert s[i] == s[1..][i - 1];
      }
    }
  }

  /** The common case: three runs of decimal digits, zero-padded or not, each within
      `int` range, such as `15/03/2024`. */
  lemma ParseDateDigits(date: string, f0: string, f1: string, f2: string, rest: string)
    requires |f0| > 0 && |f1| > 0 && |f2| > 0
    requires AllDigits(f0) && AllDigits(f1) && AllDigits(f2)
    requires DigitsValue(f0) <= IntMax && DigitsValue(f1) <= IntMax && DigitsValue(f2) <= IntMax
    requires rest == "" || rest[0] == ' '
    requires date == Join([f0, f1, f2], '/') + rest
    ensures ParseDate(date) == Success(ParsedDate(DigitsValue(f0), DigitsValue(f1) - 1, DigitsValue(f2)))
  {
    ParseDateFields(f0, f1, f2, rest);
    DigitFieldValues(ParseDate(date), f0, f1, f2);
  }

  /** For digit fields the values `ParseDate` reports are the fields' decimal values. */
  lemma DigitFieldValues(r: Result<ParsedDate, Error>, f0: string, f1: string, f2: string)
    requires |f0| > 0 && |f1| > 0 && |f2| > 0
    requires AllDigits(f0) && AllDigits(f1) && AllDigits(f2)
    requires DigitsValue(f0) <= IntMax && DigitsValue(f1) <= IntMax && DigitsValue(f2) <= IntMax
    requires ParseInt(f0).Some? && ParseInt(f1).Some? && ParseInt(f2).Some?
    requires r == Success(ParsedDate(ParseInt(f0).value, Wrap32(ParseInt(f1).value - 1), ParseInt(f2).value))
    ensures r == Success(ParsedDate(DigitsValue(f0), DigitsValue(f1) - 1, DigitsValue(f2)))
  {
    var month := ParseInt(f1).value - 1;
    assert month == DigitsValue(f1) - 1;
    assert Wrap32(month) == month by {
      assert IsInt32(month);
    }
  }

  /** The date the helper expects, written out without leading zeros. */
  function DateText(day: nat, month: nat, year: nat): string {
    Join([Show(day), Show(month), Show(year)], '/')
  }

  /** Round trip: a date written as `day/month/year`, optionally followed by a space
      and a time, parses back to its fields (the month made zero-based). */
  lemma ParseDateText(day: nat, month: nat, year: nat, rest: string)
    requires day <= IntMax && month <= IntMax && year <= IntMax
    requires rest == "" || rest[0] == ' '
    ensures ParseDate(DateText(day, month, year) + rest) == Success(ParsedDate(day, month - 1, year))
  {
    DigitsValueShow(day);
    DigitsValueShow(month);
    DigitsValueShow(year);
    ParseDateDigits(DateText(day, month, year) + rest, Show(day), Show(month), Show(year), rest);
  }

  /** `"15/03/2024 10:30"` selects day 15, month index 2 and year 2024: the zero
      padding of the month is read as Java reads it. */
  lemma ParseDateExample(date: string)
    requires date == "15/03/2024 10:30"
    ensures ParseDate(date) == Success(ParsedDate(15, 2, 2024))
  {
    var f0, f1, f2, rest := Show(15), "0" + Show(3), Show(2024), " 10:30";
    DigitsValueShow(15);
    DigitsValueShow(3);
    DigitsValueShow(2024);
    DigitsValueLeadingZero(Show(3));
    ExampleDateText(date, f0, f1, f2, rest);
    ParseDateDigits(date, f0, f1, f2, rest);
  }

  lemma ExampleDateText(date: string, f0: string, f1: string, f2: string, rest: string)
    requires date == "15/03/2024 10:30"
    requires f0 == Show(15) && f1 == "0" + Show(3) && f2 == Show(2024) && rest == " 10:30"
    ensures date == Join([f0, f1, f2], '/') + rest
  {
    assert f0 == "15" && f1 == "03" && f2 == "2024";
    JoinThree(f0, f1, f2, '/');
    assert f0 + "/" + f1 + "/" + f2 + rest == "15/03/2024 10:30";
  }

  lemma JoinThree(a: string, b: string, c: string, sep: char)
    ensures Join([a, b, c], sep) == a + [sep] + b + [sep] + c
  {
    var pieces := [a, b, c];
    assert pieces[1..] == [b, c];
    assert [b, c][1..] == [c];
    calc {
      Join(pieces, sep);
      a + [sep] + Join([b, c], sep);
      a + [sep] + (b + [sep] + Join([c], sep));
      a + [sep] + (b + [sep] + c);
    }
  }

  /** A character that is neither the separator nor in any piece is not in the join. */
  lemma {:induction false} JoinAvoids(pieces: seq<string>, sep: char, c: char)
    requires c != sep && forall k | 0 <= k < |pieces| :: c !in pieces[k]
    ensures c !in Join(pieces, sep)
    decreases |pieces|
  {
    if |pieces| > 1 {
      JoinAvoids(pieces[1..], sep, c);
      assert forall k | 0 <= k < |pieces[1..]| :: pieces[1..][k] == pieces[k + 1];
    }
  }

  // ---------------------------------------------------------------- clicking

  /** The index of the first element a plain click goes through on, or the length when
      there is none. */
  function FirstInteractable(elements: seq<Element>): (i: nat)
    ensures i <= |elements|
    ensures i < |elements| ==> Interactable(elements[i])
    ensures forall j | 0 <= j < i :: !Interactable(elements[j])
  {
    if |elements| == 0 then 0
    else if Interactable(elements[0]) then 0
    else 1 + FirstInteractable(elements[1..])
  }

  /** One abandoned click for every displayed but stale element, in order. */
  function StaleEvents(elements: seq<Element>, target: Target): (r: seq<Event>)
    ensures |r| <= |elements|
    ensures forall k | 0 <= k < |r| :: r[k].StaleSkipped? && r[k].target == target
  {
    if |elements| == 0 then []
    else
      (if elements[0].displayed && elements[0].stale then [StaleSkipped(target, elements[0].id)] else [])
      + StaleEvents(elements[1..], target)
  }

  /** `clickVisibleElement`: walk the list once, skip hidden elements, click the first
      displayed one, and when the click hits a stale reference log it and go on with
      the next element. The result is the abandoned clicks on the displayed stale
      elements before the first displayed, non-stale one, then the click on that one
      (if any). */
  function ClickVisible(elements: seq<Element>, target: Target): (r: seq<Event>)
    ensures |r| <= |elements|
    ensures var i := FirstInteractable(elements);
            r == StaleEvents(elements[..i], target) + (if i < |elements| then [Clicked(target, elements[i].id)] else [])
  {
    if |elements| == 0 then []
    else if !elements[0].displayed then
      var i := FirstInteractable(elements);
      assert elements[..i][1..] == elements[1..][..i - 1];
      ClickVisible(elements[1..], target)
    else if elements[0].stale then
      var i := FirstInteractable(elements);
      assert elements[..i][1..] == elements[1..][..i - 1];
      [StaleSkipped(target, elements[0].id)] + ClickVisible(elements[1..], target)
    else
      [Clicked(target, elements[0].id)]
  }

  /** `n` consecutive calls of `clickVisibleElement` on the same list. */
  function Navigate(elements: seq<Element>, target: Target, n: nat): (r: seq<Event>)
    ensures n == 0 ==> r == []
    ensures forall k | 0 <= k < |r| :: r[k].target == target
  {
    if n == 0 then []
    else
      var first, rest := ClickVisible(elements, target), Navigate(elements, target, n - 1);
      assert forall k | 0 <= k < |first| :: first[k].target == target;
      first + rest
  }

  /** The number of successful clicks on `target`. */
  function CountClicks(events: seq<Event>, target: Target): nat {
    if |events| == 0 then 0
    else (if events[0].Clicked? && events[0].target == target then 1 else 0) + CountClicks(events[1..], target)
  }

  lemma {:induction false} CountClicksAppend(a: seq<Event>, b: seq<Event>, target: Target)
    ensures CountClicks(a + b, target) == CountClicks(a, target) + CountClicks(b, target)
    decreases |a|
  {
    if |a| > 0 {
      assert (a + b)[0] == a[0];
      assert (a + b)[1..] == a[1..] + b;
      CountClicksAppend(a[1..], b, target);
    } else {
      assert a + b == b;
    }
  }

  lemma {:induction false} NoClicks(events: seq<Event>, target: Target)
    requires forall k | 0 <= k < |events| :: events[k].StaleSkipped?
    ensures CountClicks(events, target) == 0
    decreases |events|
  {
    if |events| > 0 {
      NoClicks(events[1..], target);
    }
  }

  /** One call of `clickVisibleElement` clicks exactly once when some element of the
      list is clickable, and never otherwise. */
  lemma ClickVisibleClicks(elements: seq<Element>, target: Target, counted: Target)
    ensures CountClicks(ClickVisible(elements, target), counted)
            == if counted == target && FirstInteractable(elements) < |elements| then 1 else 0
  {
    var i := FirstInteractable(elements);
    var stale := StaleEvents(elements[..i], target);
    NoClicks(stale, counted);
    if i < |elements| {
      var click := [Clicked(target, elements[i].id)];
      assert ClickVisible(elements, target) == stale + click;
      assert CountClicks(click, counted) == if counted == target then 1 else 0;
      CountClicksAppend(stale, click, counted);
    } else {
      assert ClickVisible(elements, target) == stale + [];
    }
  }

  /** `n` calls of `clickVisibleElement` click `n` times when some element of the list
      is clickable, and never otherwise. */
  lemma {:induction false} NavigateClicks(elements: seq<Element>, target: Target, n: nat, counted: Target)
    ensures CountClicks(Navigate(elements, target, n), counted)
            == if counted == target && FirstInteractable(elements) < |elements| then n else 0
    decreases n
  {
    if n > 0 {
      NavigateClicks(elements, target, n - 1, counted);
      ClickVisibleClicks(elements, target, counted);
      CountClicksAppend(ClickVisible(elements, target), Navigate(elements, target, n - 1), counted);
    }
  }

  // ---------------------------------------------------------------- the run

  /** The index of the first displayed element, or the length when there is none. */
  function FirstDisplayed(elements: seq<Element>): (i: nat)
    ensures i <= |elements|
    ensures i < |elements| ==> elements[i].displayed
    ensures forall j | 0 <= j < i :: !elements[j].displayed
  {
    if |elements| == 0 then 0
    else if elements[0].displayed then 0
    else 1 + FirstDisplayed(elements[1..])
  }

  /** The switch to the year view: at the first displayed title link, wait for it to
      become clickable (a stale one makes the wait raise the stale-reference
      exception, a disabled one makes it time out) and click it; nothing when no
      title link is displayed. */
  function TitleStep(titles: seq<Element>): (r: Result<seq<Event>, Error>)
    ensures r.Failure? <==> FirstDisplayed(titles) < |titles| && !Clickable(titles[FirstDisplayed(titles)])
    ensures r.Failure? ==>
              r.error == (if titles[FirstDisplayed(titles)].stale then StaleElementReference else Timeout)
    ensures r.Success? ==> |r.value| <= 1 && forall k | 0 <= k < |r.value| :: r.value[k].target == Title
    ensures r.Success? && |r.value| == 1 ==>
              var i := FirstDisplayed(titles);
              i < |titles| && Clickable(titles[i]) && r.value[0] == Clicked(Title, titles[i].id)
    ensures r.Success? && |r.value| == 0 <==> forall i | 0 <= i < |titles| :: !titles[i].displayed
  {
    var i := FirstDisplayed(titles);
    if i == |titles| then Success([])
    else match AwaitClickable(titles[i])
      case Failure(e) => Failure(e)
      case Success(_) => Success([Clicked(Title, titles[i].id)])
  }

  /** The year steps for a year difference computed in Java `int` arithmetic: forward
      `yearDiff` times, or backward `-yearDiff` times (which wraps to a negative count,
      hence no step at all, for the smallest `int`). */
  function NavigationEvents(w: Widget, yearDiff: int): (r: seq<Event>)
    ensures yearDiff == 0 ==> r == []
    ensures forall k | 0 <= k < |r| :: r[k].target == (if yearDiff > 0 then Next else Previous)
  {
    if yearDiff > 0 then Navigate(w.nextLinks, Next, yearDiff)
    else if yearDiff < 0 && Wrap32(-yearDiff) > 0 then Navigate(w.previousLinks, Previous, Wrap32(-yearDiff))
    else []
  }

  /** The number of cells of the month itself. */
  function MonthCount(cells: seq<DayCell>): nat
    decreases |cells|
  {
    if |cells| == 0 then 0 else (if cells[0].otherMonth then 0 else 1) + MonthCount(cells[1..])
  }

  /** The wait for `td[not(contains(@class,'othermonth'))]`: the elements of the cells
      of the month itself, in document order. */
  function CurrentMonthDays(cells: seq<DayCell>): (r: seq<Element>)
    ensures |r| == MonthCount(cells) && |r| <= |cells|
    decreases |cells|
  {
    if |cells| == 0 then []
    else if cells[0].otherMonth then CurrentMonthDays(cells[1..])
    else [cells[0].element] + CurrentMonthDays(cells[1..])
  }

  /** Counting the month cells of a prefix one cell further. */
  lemma MonthCountPrefix(cells: seq<DayCell>, i: nat)
    requires 0 < i <= |cells|
    ensures MonthCount(cells[..i]) == (if cells[0].otherMonth then 0 else 1) + MonthCount(cells[1..][..i - 1])
  {
    assert cells[..i][1..] == cells[1..][..i - 1];
  }

  /** Soundness and order: the `k`-th kept element is the element of the month cell
      `i` that has exactly `k` month cells before it. */
  lemma {:induction false} CurrentMonthDaysFromMonth(cells: seq<DayCell>, k: int) returns (i: nat)
    requires 0 <= k < |CurrentMonthDays(cells)|
    ensures i < |cells| && !cells[i].otherMonth && cells[i].element == CurrentMonthDays(cells)[k]
    ensures MonthCount(cells[..i]) == k
    decreases |cells|
  {
    if cells[0].otherMonth || k > 0 {
      var k' := if cells[0].otherMonth then k else k - 1;
      var j := CurrentMonthDaysFromMonth(cells[1..], k');
      assert cells[j + 1] == cells[1..][j];
      i := j + 1;
      MonthCountPrefix(cells, i);
    } else {
      i := 0;
    }
  }

  /** Completeness and order: every month cell is kept, at the position given by the
      number of month cells before it. */
  lemma {:induction false} CurrentMonthDaysToMonth(cells: seq<DayCell>, i: int) returns (k: nat)
    requires 0 <= i < |cells| && !cells[i].otherMonth
    ensures k == MonthCount(cells[..i]) && k < |CurrentMonthDays(cells)|
    ensures CurrentMonthDays(cells)[k] == cells[i].element
    decreases |cells|
  {
    if i == 0 {
      k := 0;
    } else {
      var j := CurrentMonthDaysToMonth(cells[1..], i - 1);
      assert cells[1..][i - 1] == cells[i];
      MonthCountPrefix(cells, i);
      k := if cells[0].otherMonth then j else j + 1;
    }
  }

  /** Some element of the list is displayed. */
  predicate AnyDisplayed(elements: seq<Element>) {
    exists i | 0 <= i < |elements| :: elements[i].displayed
  }

  /** The part of `testDatePicker` after the month click: wait for the current-month
      cells, and at the first displayed one take the cell for the requested day. */
  function DayStep(days: seq<Element>, day: int): (r: Selection)
    ensures r.Selected? <==> |days| > 0 && AnyDisplayed(days) && 0 <= Wrap32(day - 1) < |days|
                             && !days[Wrap32(day - 1)].stale
    ensures r.Selected? ==> r.element == days[Wrap32(day - 1)]
    ensures r.NoneDisplayed? <==> |days| > 0 && !AnyDisplayed(days)
  {
    if |days| == 0 then Aborted(Timeout)
    else if FirstDisplayed(days) == |days| then NoneDisplayed
    else
      var index := Wrap32(day - 1);
      if index < 0 || index >= |days| then Aborted(IndexOutOfBounds)
      else if days[index].stale then Aborted(StaleElementReference)
      else Selected(days[index])
  }

  /** `testDatePicker` with the system clock's year as `currentYear`. The clicks are the
      trigger, the title (at most once), the year steps and the month; the day cell is
      located but not clicked. Every exception ends the run with `null`, logged. */
  function Resolve(w: Widget, date: string, currentYear: int): (r: Resolution)
    ensures r.events == [] <==> !Clickable(w.trigger)
    ensures !Clickable(w.trigger) ==>
              r.selection == Aborted(if w.trigger.stale then StaleElementReference else Timeout)
    ensures |r.events| > 0 ==> r.events[0] == Clicked(Trigger, w.trigger.id)
    ensures (Clickable(w.trigger) && |w.nextLinks| > 0 && ParseDate(date).Failure?)
              ==> r.selection == Aborted(ParseDate(date).error)
    ensures Clickable(w.trigger) && |w.nextLinks| > 0 && ParseDate(date).Success? ==>
              var calendar := CalendarSteps(w, ParseDate(date).value, currentYear);
              r == Resolution([Clicked(Trigger, w.trigger.id)] + calendar.events, calendar.selection)
    ensures !(Clickable(w.trigger) && |w.nextLinks| > 0 && ParseDate(date).Success?) ==> r.selection.Aborted? && |r.events| <= 1
  {
    match AwaitClickable(w.trigger)
    case Failure(e) => Resolution([], Aborted(e))
    case Success(_) =>
      var start := [Clicked(Trigger, w.trigger.id)];
      if |w.nextLinks| == 0 then Resolution(start, Aborted(Timeout))
      else match ParseDate(date)
      case Failure(e) => Resolution(start, Aborted(e))
      case Success(d) =>
        var rest := CalendarSteps(w, d, currentYear);
        Resolution(start + rest.events, rest.selection)
  }

  /** The title step succeeds and the month cell for the date is there and takes a
      plain click. */
  predicate ReachesMonthView(w: Widget, d: ParsedDate) {
    && TitleStep(w.titleLinks).Success?
    && 0 <= d.month < |w.monthCells|
    && Interactable(w.monthCells[d.month])
  }

  /** The part of `testDatePicker` after the calendar was opened and the date parsed:
      the title, the year steps, the month and the day. */
  function CalendarSteps(w: Widget, d: ParsedDate, currentYear: int): (r: Resolution)
    ensures ReachesMonthView(w, d) ==>
              && r.events == TitleStep(w.titleLinks).value
                             + NavigationEvents(w, Wrap32(d.year - currentYear))
                             + [Clicked(Month, w.monthCells[d.month].id)]
              && r.selection == DayStep(CurrentMonthDays(w.dayCells), d.day)
    ensures !ReachesMonthView(w, d) ==> r.selection.Aborted?
  {
    match TitleStep(w.titleLinks)
    case Failure(e) => Resolution([], Aborted(e))
    case Success(title) =>
      var navigated := title + NavigationEvents(w, Wrap32(d.year - currentYear));
      if |w.monthCells| == 0 then Resolution(navigated, Aborted(Timeout))
      else if d.month < 0 || d.month >= |w.monthCells| then Resolution(navigated, Aborted(IndexOutOfBounds))
      else
        var cell := w.monthCells[d.month];
        match Click(cell)
        case Failure(e) => Resolution(navigated, Aborted(e))
        case Success(_) =>
          Resolution(navigated + [Clicked(Month, cell.id)], DayStep(CurrentMonthDays(w.dayCells), d.day))
  }

  /** What `testDatePicker` returns: the located day cell, or `null`. */
  function TestDatePicker(w: Widget, date: string, currentYear: int): (r: Option<Element>)
    ensures r.Some? <==> Resolve(w, date, currentYear).selection.Selected?
    ensures r.Some? ==> r.value == Resolve(w, date, currentYear).selection.element
    ensures r.Some? ==> !r.value.stale && exists i | 0 <= i < |w.dayCells| :: !w.dayCells[i].otherMonth && w.dayCells[i].element == r.value
  {
    var selection := Resolve(w, date, currentYear).selection;
    if selection.Selected? then
      SelectedDayCell(w, date, currentYear);
      Some(selection.element)
    else None
  }

  /** A selected element is a non-stale cell of the month itself. */
  lemma SelectedDayCell(w: Widget, date: string, currentYear: int)
    requires Resolve(w, date, currentYear).selection.Selected?
    ensures var e := Resolve(w, date, currentYear).selection.element;
            !e.stale && exists i | 0 <= i < |w.dayCells| :: !w.dayCells[i].otherMonth && w.dayCells[i].element == e
  {
    var d := ResolveSelection(w, date, currentYear);
    CalendarSelection(w, d, currentYear);
    DaySelected(w.dayCells, d.day, Resolve(w, date, currentYear).selection.element);
  }

  /** A run that selects something parsed its date and selected what the calendar steps select. */
  lemma ResolveSelection(w: Widget, date: string, currentYear: int) returns (d: ParsedDate)
    requires Resolve(w, date, currentYear).selection.Selected?
    ensures ParseDate(date) == Success(d)
    ensures Resolve(w, date, currentYear).selection == CalendarSteps(w, d, currentYear).selection
  {
    d := ParseDate(date).value;
  }

  /** Calendar steps that select something reached the month view and selected the day step's cell. */
  lemma CalendarSelection(w: Widget, d: ParsedDate, currentYear: int)
    requires CalendarSteps(w, d, currentYear).selection.Selected?
    ensures CalendarSteps(w, d, currentYear).selection == DayStep(CurrentMonthDays(w.dayCells), d.day)
  {
  }

  /** The day step selects only a non-stale cell of the month itself. */
  lemma DaySelected(cells: seq<DayCell>, day: int, e: Element)
    requires DayStep(CurrentMonthDays(cells), day) == Selected(e)
    ensures !e.stale
    ensures exists i | 0 <= i < |cells| :: !cells[i].otherMonth && cells[i].element == e
  {
    var k := DayStepIndex(CurrentMonthDays(cells), day, e);
    MonthDayCell(cells, k, e);
  }

  /** The day step selects the element at the zero-based day index. */
  lemma DayStepIndex(days: seq<Element>, day: int, e: Element) returns (k: int)
    requires DayStep(days, day) == Selected(e)
    ensures k == Wrap32(day - 1) && 0 <= k < |days| && days[k] == e && !e.stale
  {
    k := Wrap32(day - 1);
  }

  lemma MonthDayCell(cells: seq<DayCell>, k: int, e: Element)
    requires 0 <= k < |CurrentMonthDays(cells)| && CurrentMonthDays(cells)[k] == e
    ensures exists i | 0 <= i < |cells| :: !cells[i].otherMonth && cells[i].element == e
  {
    var i := CurrentMonthDaysFromMonth(cells, k);
  }

  /** Every run of `testDatePicker` clicks the title at most once. */
  lemma TitleClickedAtMostOnce(w: Widget, date: string, currentYear: int)
    ensures CountClicks(Resolve(w, date, currentYear).events, Title) <= 1
  {
    var start := [Clicked(Trigger, w.trigger.id)];
    assert CountClicks(start, Title) == 0;
    if Clickable(w.trigger) && |w.nextLinks| > 0 && ParseDate(date).Success? {
      var calendar := CalendarSteps(w, ParseDate(date).value, currentYear);
      assert Resolve(w, date, currentYear).events == start + calendar.events;
      CalendarTitleClicks(w, ParseDate(date).value, currentYear);
      CountClicksAppend(start, calendar.events, Title);
    }
  }

  lemma CalendarTitleClicks(w: Widget, d: ParsedDate, currentYear: int)
    ensures CountClicks(CalendarSteps(w, d, currentYear).events, Title) <= 1
  {
    var title := TitleStep(w.titleLinks);
    if title.Success? {
      var nav := NavigationEvents(w, Wrap32(d.year - currentYear));
      NavigationWithoutTitle(w, Wrap32(d.year - currentYear));
      CountClicksAppend(title.value, nav, Title);
      if 0 <= d.month < |w.monthCells| {
        CountClicksAppend(title.value + nav, [Clicked(Month, w.monthCells[d.month].id)], Title);
      }
    }
  }

  lemma NavigationWithoutTitle(w: Widget, yearDiff: int)
    ensures CountClicks(NavigationEvents(w, yearDiff), Title) == 0
  {
    if yearDiff > 0 {
      NavigateClicks(w.nextLinks, Next, yearDiff, Title);
    } else if yearDiff < 0 && Wrap32(-yearDiff) > 0 {
      NavigateClicks(w.previousLinks, Previous, Wrap32(-yearDiff), Title);
    }
  }

  /** Without overflow, the calendar steps forward `year - currentYear` times or back
      `currentYear - year` times, provided the links in that direction offer a
      clickable element; the other direction is never clicked. */
  lemma NavigationCount(w: Widget, year: int, currentYear: int)
    requires IsInt32(year - currentYear) && IsInt32(currentYear - year)
    ensures var events := NavigationEvents(w, Wrap32(year - currentYear));
            && CountClicks(events, Next)
               == (if year > currentYear && FirstInteractable(w.nextLinks) < |w.nextLinks| then year - currentYear else 0)
            && CountClicks(events, Previous)
               == (if year < currentYear && FirstInteractable(w.previousLinks) < |w.previousLinks| then currentYear - year else 0)
  {
    var yearDiff := Wrap32(year - currentYear);
    assert yearDiff == year - currentYear;
    if yearDiff > 0 {
      ForwardClicks(w, yearDiff);
    } else if yearDiff < 0 {
      BackwardClicks(w, yearDiff);
    }
  }

  lemma ForwardClicks(w: Widget, yearDiff: int)
    requires 0 < yearDiff <= IntMax
    ensures CountClicks(NavigationEvents(w, yearDiff), Next)
            == if FirstInteractable(w.nextLinks) < |w.nextLinks| then yearDiff else 0
    ensures CountClicks(NavigationEvents(w, yearDiff), Previous) == 0
  {
    NavigateClicks(w.nextLinks, Next, yearDiff, Next);
    NavigateClicks(w.nextLinks, Next, yearDiff, Previous);
  }

  lemma BackwardClicks(w: Widget, yearDiff: int)
    requires IntMin < yearDiff < 0
    ensures CountClicks(NavigationEvents(w, yearDiff), Previous)
            == if FirstInteractable(w.previousLinks) < |w.previousLinks| then -yearDiff else 0
    ensures CountClicks(NavigationEvents(w, yearDiff), Next) == 0
  {
    assert Wrap32(-yearDiff) == -yearDiff;
    NavigateClicks(w.previousLinks, Previous, -yearDiff, Previous);
    NavigateClicks(w.previousLinks, Previous, -yearDiff, Next);
  }

  /** Overflow of `year - currentYear`: a target year more than 2^31 - 1 years before the
      current one wraps to a large positive difference and the calendar steps forward. */
  lemma NavigationWrapsForward(w: Widget)
    ensures NavigationEvents(w, Wrap32(IntMin - 2024)) == Navigate(w.nextLinks, Next, IntMax - 2023)
  {
  }

  /** Overflow of `-yearDiff`: for the smallest `int` difference the backward loop runs
      zero times. */
  lemma NavigationSmallestDifference(w: Widget)
    ensures NavigationEvents(w, IntMin) == []
  {
  }

  /** A well-formed date on an intact calendar locates the cell of the requested day,
      after stepping once per year of difference. */
  lemma ResolveFindsDay(w: Widget, date: string, day: nat, month: nat, year: nat, rest: string, currentYear: int)
    requires day <= IntMax && month <= IntMax && year <= IntMax
    requires rest == "" || rest[0] == ' '
    requires date == DateText(day, month, year) + rest
    requires IsInt32(currentYear) && IsInt32(year - currentYear) && IsInt32(currentYear - year)
    requires Clickable(w.trigger) && |w.nextLinks| > 0
    requires forall i | 0 <= i < |w.titleLinks| :: !w.titleLinks[i].stale && w.titleLinks[i].enabled
    requires 1 <= month <= |w.monthCells| && Interactable(w.monthCells[month - 1])
    requires var days := CurrentMonthDays(w.dayCells);
             AnyDisplayed(days) && 1 <= day <= |days| && !days[day - 1].stale
    ensures Resolve(w, date, currentYear).selection == Selected(CurrentMonthDays(w.dayCells)[day - 1])
    ensures CountClicks(Resolve(w, date, currentYear).events, Next)
            == (if year > currentYear && FirstInteractable(w.nextLinks) < |w.nextLinks| then year - currentYear else 0)
    ensures CountClicks(Resolve(w, date, currentYear).events, Previous)
            == (if year < currentYear && FirstInteractable(w.previousLinks) < |w.previousLinks| then currentYear - year else 0)
  {
    ParseDateText(day, month, year, rest);
    ResolveFindsParsedDay(w, date, ParsedDate(day, month - 1, year), currentYear);
  }

  /** `ResolveFindsDay` for a date already known to parse. */
  lemma ResolveFindsParsedDay(w: Widget, date: string, d: ParsedDate, currentYear: int)
    requires ParseDate(date) == Success(d)
    requires IsInt32(d.day) && IsInt32(d.year) && IsInt32(currentYear)
    requires IsInt32(d.year - currentYear) && IsInt32(currentYear - d.year)
    requires Clickable(w.trigger) && |w.nextLinks| > 0
    requires forall i | 0 <= i < |w.titleLinks| :: !w.titleLinks[i].stale && w.titleLinks[i].enabled
    requires 0 <= d.month < |w.monthCells| && Interactable(w.monthCells[d.month])
    requires var days := CurrentMonthDays(w.dayCells);
             AnyDisplayed(days) && 1 <= d.day <= |days| && !days[d.day - 1].stale
    ensures Resolve(w, date, currentYear).selection == Selected(CurrentMonthDays(w.dayCells)[d.day - 1])
    ensures CountClicks(Resolve(w, date, currentYear).events, Next)
            == (if d.year > currentYear && FirstInteractable(w.nextLinks) < |w.nextLinks| then d.year - currentYear else 0)
    ensures CountClicks(Resolve(w, date, currentYear).events, Previous)
            == (if d.year < currentYear && FirstInteractable(w.previousLinks) < |w.previousLinks| then currentYear - d.year else 0)
  {
    ResolveParsed(w, date, d, currentYear);
    CalendarFindsDay(w, d, currentYear);
  }

  /** Once the calendar opens and the date parses, the run selects what the calendar
      steps select and clicks every control but the trigger as often as they do. */
  lemma ResolveParsed(w: Widget, date: string, d: ParsedDate, currentYear: int)
    requires Clickable(w.trigger) && |w.nextLinks| > 0 && ParseDate(date) == Success(d)
    ensures Resolve(w, date, currentYear).selection == CalendarSteps(w, d, currentYear).selection
    ensures forall t | t != Trigger ::
              CountClicks(Resolve(w, date, currentYear).events, t) == CountClicks(CalendarSteps(w, d, currentYear).events, t)
  {
    var calendar := CalendarSteps(w, d, currentYear);
    var start := [Clicked(Trigger, w.trigger.id)];
    assert Resolve(w, date, currentYear).events == start + calendar.events;
    forall t | t != Trigger
      ensures CountClicks(Resolve(w, date, currentYear).events, t) == CountClicks(calendar.events, t)
    {
      CountClicksAppend(start, calendar.events, t);
    }
  }

  lemma CalendarFindsDay(w: Widget, d: ParsedDate, currentYear: int)
    requires IsInt32(d.day) && IsInt32(d.year) && IsInt32(currentYear)
    requires IsInt32(d.year - currentYear) && IsInt32(currentYear - d.year)
    requires forall i | 0 <= i < |w.titleLinks| :: !w.titleLinks[i].stale && w.titleLinks[i].enabled
    requires 0 <= d.month < |w.monthCells| && Interactable(w.monthCells[d.month])
    requires var days := CurrentMonthDays(w.dayCells);
             AnyDisplayed(days) && 1 <= d.day <= |days| && !days[d.day - 1].stale
    ensures CalendarSteps(w, d, currentYear).selection == Selected(CurrentMonthDays(w.dayCells)[d.day - 1])
    ensures CountClicks(CalendarSteps(w, d, currentYear).events, Next)
            == (if d.year > currentYear && FirstInteractable(w.nextLinks) < |w.nextLinks| then d.year - currentYear else 0)
    ensures CountClicks(CalendarSteps(w, d, currentYear).events, Previous)
            == (if d.year < currentYear && FirstInteractable(w.previousLinks) < |w.previousLinks| then currentYear - d.year else 0)
  {
    TitleStepSucceeds(w.titleLinks);
    assert ReachesMonthView(w, d);
    assert Wrap32(d.day - 1) == d.day - 1;
    CalendarYearSteps(w, d, currentYear);
  }

  lemma CalendarYearSteps(w: Widget, d: ParsedDate, currentYear: int)
    requires IsInt32(d.year - currentYear) && IsInt32(currentYear - d.year)
    requires forall i | 0 <= i < |w.titleLinks| :: !w.titleLinks[i].stale && w.titleLinks[i].enabled
    requires 0 <= d.month < |w.monthCells| && Interactable(w.monthCells[d.month])
    ensures CountClicks(CalendarSteps(w, d, currentYear).events, Next)
            == (if d.year > currentYear && FirstInteractable(w.nextLinks) < |w.nextLinks| then d.year - currentYear else 0)
    ensures CountClicks(CalendarSteps(w, d, currentYear).events, Previous)
            == (if d.year < currentYear && FirstInteractable(w.previousLinks) < |w.previousLinks| then currentYear - d.year else 0)
  {
    TitleStepSucceeds(w.titleLinks);
    assert ReachesMonthView(w, d);
    CalendarStepCounts(w, d, currentYear, Next);
    CalendarStepCounts(w, d, currentYear, Previous);
    NavigationCount(w, d.year, currentYear);
  }

  /** In the month view's calendar steps, the year steps are exactly the navigation's. */
  lemma CalendarStepCounts(w: Widget, d: ParsedDate, currentYear: int, t: Target)
    requires ReachesMonthView(w, d)
    requires t == Next || t == Previous
    ensures CountClicks(CalendarSteps(w, d, currentYear).events, t)
            == CountClicks(NavigationEvents(w, Wrap32(d.year - currentYear)), t)
  {
    StepsAroundNavigation(CalendarSteps(w, d, currentYear).events, TitleStep(w.titleLinks).value,
                          NavigationEvents(w, Wrap32(d.year - currentYear)), w.monthCells[d.month].id, t);
  }

  /** A title link that is displayed, enabled and not stale is clickable, so the title
      step succeeds. */
  lemma TitleStepSucceeds(titles: seq<Element>)
    requires forall i | 0 <= i < |titles| :: !titles[i].stale && titles[i].enabled
    ensures TitleStep(titles).Success?
  {
    var i := FirstDisplayed(titles);
    assert i < |titles| ==> !titles[i].stale && titles[i].enabled;
  }

  /** Title and month clicks add no year steps. */
  lemma StepsAroundNavigation(events: seq<Event>, title: seq<Event>, nav: seq<Event>, monthId: nat, t: Target)
    requires t == Next || t == Previous
    requires forall k | 0 <= k < |title| :: title[k].target == Title
    requires events == title + nav + [Clicked(Month, monthId)]
    ensures CountClicks(events, t) == CountClicks(nav, t)
  {
    assert CountClicks(title, t) == 0 by {
      NoTargetNoClicks(title, t);
    }
    CountClicksAppend(title, nav, t);
    CountClicksAppend(title + nav, [Clicked(Month, monthId)], t);
  }

  lemma {:induction false} NoTargetNoClicks(events: seq<Event>, t: Target)
    requires forall k | 0 <= k < |events| :: events[k].target != t
    ensures CountClicks(events, t) == 0
    decreases |events|
  {
    if |events| > 0 {
      NoTargetNoClicks(events[1..], t);
    }
  }

  // ---------------------------------------------------------------- clearing

  /** `clearDate`: open the picker (waiting for it to become clickable), then wait for the
      Clear link to become clickable and click it. A wait that times out is caught and
      logged, ending the run. The picker is opened whether or not a date is set. */
  function ClearDate(w: Widget): (r: seq<Event>)
    ensures |r| <= 2
    ensures r == [] <==> !Clickable(w.trigger)
    ensures |r| > 0 ==> r[0] == Clicked(Trigger, w.trigger.id)
    ensures |r| == 2 <==> Clickable(w.trigger) && w.clearButton.Some? && Clickable(w.clearButton.value)
    ensures |r| == 2 ==> r[1] == Clicked(Clear, w.clearButton.value.id)
  {
    if !Clickable(w.trigger) then []
    else
      var start := [Clicked(Trigger, w.trigger.id)];
      match w.clearButton
      case None => start
      case Some(button) => if Clickable(button) then start + [Clicked(Clear, button.id)] else start
  }

  /** The Clear link is clicked only after the picker was opened, and at most once. */
  lemma ClearOnlyAfterOpening(w: Widget)
    ensures CountClicks(ClearDate(w), Clear) <= 1
    ensures CountClicks(ClearDate(w), Clear) == 1 ==> ClearDate(w)[0] == Clicked(Trigger, w.trigger.id)
  {
    var r := ClearDate(w);
    if |r| == 2 {
      assert r[1..][1..] == [];
    } else if |r| == 1 {
      assert r[1..] == [];
    }
  }
}
