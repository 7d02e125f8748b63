/** The grid helper: resolves a column header by name and reads one column out of
    the flat, row-major list of grid cells by stepping through it with a stride
    equal to the number of headers. */
module Grid {
  import opened Wrappers
  import opened JavaText
  import opened Dom

  /** The header's text equals the requested name, ignoring case. */
  predicate Matches(header: Element, name: string) {
    EqualsIgnoreCase(header.text, name)
  }

  /** Position `i` holds the first header, in list order, that matches `name`. */
  predicate FirstMatchAt(headers: seq<Element>, name: string, i: int) {
    && 0 <= i < |headers|
    && Matches(headers[i], name)
    && forall j | 0 <= j < i :: !Matches(headers[j], name)
  }

  /** `col` is the column starting at cell `c` with stride `w`: its k-th entry is cell
      `c + k*w`, and it stops at the first stride that leaves the cell list. */
  ghost predicate IsColumn<T>(col: seq<T>, cells: seq<T>, w: nat, c: nat) {
    && ColumnPrefix(col, cells, w, c)
    && c + |col| * w >= |cells|
  }

  /** The first `|col|` strides of the column starting at cell `c`. */
  ghost predicate ColumnPrefix<T>(col: seq<T>, cells: seq<T>, w: nat, c: nat) {
    forall k | 0 <= k < |col| :: c + k * w < |cells| && col[k] == cells[c + k * w]
  }

  /** `getHeaderElementByName`: the first header whose text matches `name` ignoring
      case, or `NoSuchElementException` when none does. */
  function HeaderElementByName(headers: seq<Element>, name: string): (r: Result<Element, Error>)
    ensures r.Success? <==> exists i | 0 <= i < |headers| :: Matches(headers[i], name)
    ensures r.Failure? ==> r.error == NoSuchElement
    ensures r.Success? ==> exists i :: FirstMatchAt(headers, name, i) && headers[i] == r.value
    decreases |headers|
  {
    if |headers| == 0 then Failure(NoSuchElement)
    else if Matches(headers[0], name) then
      assert FirstMatchAt(headers, name, 0);
      Success(headers[0])
    else
      var r := HeaderElementByName(headers[1..], name);
      if r.Success? then
        var i :| FirstMatchAt(headers[1..], name, i) && headers[1..][i] == r.value;
        assert FirstMatchAt(headers, name, i + 1);
        r
      else
        assert forall i | 0 < i < |headers| :: headers[i] == headers[1..][i - 1];
        r
  }

  /** `getColumnIndexByHeaderElement`, i.e. `List.indexOf`: the first position holding
      `header`, or -1 when it is absent. */
  function ColumnIndexByHeaderElement(headers: seq<Element>, header: Element): (r: int)
    ensures -1 <= r < |headers|
    ensures r == -1 <==> header !in headers
    ensures r >= 0 ==> headers[r] == header && header !in headers[..r]
  {
    if |headers| == 0 then -1
    else if headers[0] == header then 0
    else
      var k := ColumnIndexByHeaderElement(headers[1..], header);
      if k == -1 then -1
      else
        assert headers[..k + 1] == [headers[0]] + headers[1..][..k];
        k + 1
  }

  /** The index the two lookups resolve is the position of the first matching header:
      `indexOf` of the first match cannot land earlier, since an earlier equal header
      would itself have matched. */
  lemma ResolvedIndexIsFirstMatch(headers: seq<Element>, name: string)
    requires HeaderElementByName(headers, name).Success?
    ensures FirstMatchAt(headers, name,
              ColumnIndexByHeaderElement(headers, HeaderElementByName(headers, name).value))
  {
    var h := HeaderElementByName(headers, name).value;
    var i :| FirstMatchAt(headers, name, i) && headers[i] == h;
    var c := ColumnIndexByHeaderElement(headers, h);
    assert h in headers;
    assert headers[c] == h && Matches(headers[c], name);
  }

  lemma FirstMatchUnique(headers: seq<Element>, name: string, i: int, j: int)
    requires FirstMatchAt(headers, name, i) && FirstMatchAt(headers, name, j)
    ensures i == j
  {
  }

  /** The stride loop of `getColumnElementsByIndex` from cell `i` on. */
  function StrideFrom<T>(cells: seq<T>, w: nat, i: nat): (r: seq<T>)
    requires w > 0 || i >= |cells|
    ensures IsColumn(r, cells, w, i)
    decreases |cells| - i
  {
    if i >= |cells| then []
    else
      var rest := StrideFrom(cells, w, i + w);
      StrideCons(rest, cells, w, i);
      [cells[i]] + rest
  }

  lemma StrideStep(i: int, w: int, k: int)
    ensures (i + w) + (k - 1) * w == i + k * w
  {
  }

  /** A column starting one stride later, preceded by cell `i`, is the column at `i`. */
  lemma StrideCons<T>(rest: seq<T>, cells: seq<T>, w: nat, i: nat)
    requires i < |cells| && IsColumn(rest, cells, w, i + w)
    ensures IsColumn([cells[i]] + rest, cells, w, i)
  {
    var r := [cells[i]] + rest;
    StrideStep(i, w, |r|);
    forall k | 1 <= k < |r|
      ensures i + k * w < |cells| && r[k] == cells[i + k * w]
    {
      assert r[k] == rest[k - 1];
      StrideStep(i, w, k);
    }
    assert r[0] == cells[i + 0 * w];
  }

  /** Extending a column prefix by the next in-range stride. */
  lemma ColumnPrefixSnoc<T>(col: seq<T>, cells: seq<T>, w: nat, c: nat)
    requires ColumnPrefix(col, cells, w, c) && c + |col| * w < |cells|
    ensures ColumnPrefix(col + [cells[c + |col| * w]], cells, w, c)
  {
  }

  /** `getColumnElementsByIndex`: the cells of column `c`, stepping by the number of
      headers. A negative index makes the first `get` throw. With no headers and a
      start inside the cell list the loop would never advance, so the caller must not
      start it there. */
  function ColumnElementsByIndex(cells: seq<Element>, headers: seq<Element>, c: int)
    : (r: Result<seq<Element>, Error>)
    requires |headers| > 0 || c < 0 || c >= |cells|
    ensures r.Failure? <==> c < 0
    ensures r.Failure? ==> r.error == IndexOutOfBounds
    ensures r.Success? ==> IsColumn(r.value, cells, |headers|, c)
  {
    if c < 0 then Failure(IndexOutOfBounds)
    else Success(StrideFrom(cells, |headers|, c))
  }

  /** `getColumnValuesByIndex`: the texts of column `c`, by the same stride loop. Its
      result is the element-wise text of `getColumnElementsByIndex`. */
  method ColumnValuesByIndex(cells: seq<Element>, headers: seq<Element>, c: int)
    returns (r: Result<seq<string>, Error>)
    requires |headers| > 0 || c < 0 || c >= |cells|
    ensures r.Failure? <==> c < 0
    ensures r.Success? ==> IsColumn(r.value, TextOf(cells), |headers|, c)
    ensures r.Success? ==> r.value == TextOf(ColumnElementsByIndex(cells, headers, c).value)
  {
    if c < 0 {
      return Failure(IndexOutOfBounds);
    }
    var w := |headers|;
    var values: seq<string> := [];
    var i := c;
    while i < |cells|
      invariant w > 0 || i >= |cells|
      invariant i == c + |values| * w
      invariant ColumnPrefix(values, TextOf(cells), w, c)
      decreases |cells| - i
    {
      ColumnPrefixSnoc(values, TextOf(cells), w, c);
      assert TextOf(cells)[i] == cells[i].text;
      values := values + [cells[i].text];
      StrideStep(c, w, |values|);
      i := i + w;
    }
    r := Success(values);
    assert IsColumn(values, TextOf(cells), w, c);
    var col := StrideFrom(cells, w, c);
    TextOfColumn(col, cells, w, c);
    ColumnUnique(values, TextOf(col), TextOf(cells), w, c);
  }

  /** The column is determined by the cells, the stride and the start. */
  lemma ColumnUnique<T>(a: seq<T>, b: seq<T>, cells: seq<T>, w: nat, c: nat)
    requires IsColumn(a, cells, w, c) && IsColumn(b, cells, w, c)
    ensures a == b
  {
    assert |a| < |b| ==> c + |a| * w < |cells|;
    assert |b| < |a| ==> c + |b| * w < |cells|;
    assert |a| == |b|;
  }

  /** Taking texts commutes with the stride: the texts of the element column form the
      column of texts. */
  lemma TextOfColumn(col: seq<Element>, cells: seq<Element>, w: nat, c: nat)
    requires IsColumn(col, cells, w, c)
    ensures IsColumn(TextOf(col), TextOf(cells), w, c)
  {
    TextsColumn(col, cells, TextOf(col), TextOf(cells), w, c);
  }

  /** Any texts read entry by entry from the column and from the cells keep the
      column's stride. */
  lemma TextsColumn(col: seq<Element>, cells: seq<Element>, texts: seq<string>, all: seq<string>, w: nat, c: nat)
    requires IsColumn(col, cells, w, c)
    requires |texts| == |col| && forall i | 0 <= i < |col| :: texts[i] == col[i].text
    requires |all| == |cells| && forall i | 0 <= i < |cells| :: all[i] == cells[i].text
    ensures IsColumn(texts, all, w, c)
  {
    forall k | 0 <= k < |texts|
      ensures c + k * w < |all| && texts[k] == all[c + k * w]
    {
      assert col[k] == cells[c + k * w];
    }
  }

  /** The column length counts every row that reaches column `c`, a trailing partial
      row included: zero when the column starts past the cells, otherwise
      ceil((|cells| - c) / w). */
  lemma ColumnLength<T>(col: seq<T>, cells: seq<T>, w: nat, c: nat)
    requires w > 0 && IsColumn(col, cells, w, c)
    ensures c >= |cells| ==> |col| == 0
    ensures c < |cells| ==> |col| == (|cells| - c + w - 1) / w
  {
    assert |col| > 0 ==> c + 0 * w < |cells|;
    if c < |cells| {
      var n := |cells| - c;
      var len := |col|;
      assert len > 0;
      assert (len - 1) * w < n <= len * w by {
        assert c + (len - 1) * w < |cells|;
      }
      DivideBetween(n + w - 1, w, len);
    }
  }

  lemma DivideBetween(x: int, w: int, q: int)
    requires w > 0 && q * w <= x < q * w + w
    ensures x / w == q
  {
    var d := x / w;
    var m := x % w;
    assert x == d * w + m && 0 <= m < w;
    assert d < q ==> (d + 1) * w <= q * w;
    assert d > q ==> (q + 1) * w <= d * w;
  }

  /** `getColumnElementsByHeaderName`: the column under the first header matching
      `name`; any exception (no matching header, which covers an empty header list)
      yields the empty list. */
  function ColumnElementsByHeaderName(headers: seq<Element>, cells: seq<Element>, name: string)
    : (r: seq<Element>)
    ensures (forall i | 0 <= i < |headers| :: !Matches(headers[i], name)) ==> r == []
    ensures forall i | FirstMatchAt(headers, name, i) :: IsColumn(r, cells, |headers|, i)
  {
    match HeaderElementByName(headers, name)
    case Failure(_) => []
    case Success(h) =>
      var c := ColumnIndexByHeaderElement(headers, h);
      ResolvedIndexIsFirstMatch(headers, name);
      var r := ColumnElementsByIndex(cells, headers, c).value;
      assert forall i | FirstMatchAt(headers, name, i) :: i == c by {
        forall i | FirstMatchAt(headers, name, i)
          ensures i == c
        {
          FirstMatchUnique(headers, name, i, c);
        }
      }
      r
  }

  /** `getColumnValuesByHeaderName`: the texts of the column under the first header
      matching `name`, or the empty list when no header matches. */
  method ColumnValuesByHeaderName(headers: seq<Element>, cells: seq<Element>, name: string)
    returns (r: seq<string>)
    ensures (forall i | 0 <= i < |headers| :: !Matches(headers[i], name)) ==> r == []
    ensures forall i | FirstMatchAt(headers, name, i) :: IsColumn(r, TextOf(cells), |headers|, i)
    ensures r == TextOf(ColumnElementsByHeaderName(headers, cells, name))
  {
    var header := HeaderElementByName(headers, name);
    if header.Failure? {
      return [];
    }
    var c := ColumnIndexByHeaderElement(headers, header.value);
    ResolvedIndexIsFirstMatch(headers, name);
    var values := ColumnValuesByIndex(cells, headers, c);
    r := values.value;
    forall i | FirstMatchAt(headers, name, i)
      ensures i == c
    {
      FirstMatchUnique(headers, name, i, c);
    }
  }

  /** With three headers and nine cells, column 1 is cells 1, 4 and 7. */
  lemma ThreeColumnExample(cells: seq<Element>, headers: seq<Element>)
    requires |headers| == 3 && |cells| == 9
    ensures ColumnElementsByIndex(cells, headers, 1) == Success([cells[1], cells[4], cells[7]])
  {
    var col := ColumnElementsByIndex(cells, headers, 1).value;
    assert IsColumn(col, cells, 3, 1);
    ColumnLength(col, cells, 3, 1);
    assert |col| == 3;
    assert col[0] == cells[1] && col[1] == cells[4] && col[2] == cells[7];
    assert col == [cells[1], cells[4], cells[7]];
  }

  /** Header names match ignoring case: a header reading "NAME" is found for "Name". */
  lemma CaseInsensitiveExample(e: Element)
    requires e.text == "NAME"
    ensures HeaderElementByName([e], "Name") == Success(e)
  {
    assert Matches(e, "Name");
  }
}
