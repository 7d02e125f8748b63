/** `String.split` with a one-character separator and the default limit of zero,
    as the helpers call it (`split("\n")`, `split(" ")`, `split("/")`). */
module JavaSplit {

  /** The pieces joined back with the separator between them. */
  function Join(pieces: seq<string>, sep: char): string
    decreases |pieces|
  {
    if |pieces| == 0 then ""
    else if |pieces| == 1 then pieces[0]
    else pieces[0] + [sep] + Join(pieces[1..], sep)
  }

  /** `n` copies of the separator. */
  function Repeat(sep: char, n: nat): (r: string)
    ensures |r| == n && forall i | 0 <= i < n :: r[i] == sep
  {
    if n == 0 then "" else [sep] + Repeat(sep, n - 1)
  }

  /** Every piece between separators, empty ones included: one more piece than
      there are separators. */
  function SplitAll(s: string, sep: char): (r: seq<string>)
    ensures |r| >= 1
  {
    if |s| == 0 then [""]
    else if s[0] == sep then [""] + SplitAll(s[1..], sep)
    else
      var t := SplitAll(s[1..], sep);
      [[s[0]] + t[0]] + t[1..]
  }

  /** The pieces hold no separator and join back to the string. */
  lemma {:induction false} SplitAllSound(s: string, sep: char)
    ensures forall k | 0 <= k < |SplitAll(s, sep)| :: sep !in SplitAll(s, sep)[k]
    ensures Join(SplitAll(s, sep), sep) == s
    decreases |s|
  {
    if |s| > 0 {
      SplitAllSound(s[1..], sep);
      var t := SplitAll(s[1..], sep);
      if s[0] == sep {
        assert ([""] + t)[1..] == t;
        assert s == [sep] + s[1..];
      } else {
        JoinCons(s[0], t, sep);
        var r := [[s[0]] + t[0]] + t[1..];
        assert forall k | 1 <= k < |r| :: r[k] == t[k];
        assert s == [s[0]] + s[1..];
      }
    }
  }

  lemma JoinCons(c: char, t: seq<string>, sep: char)
    requires |t| >= 1
    ensures Join([[c] + t[0]] + t[1..], sep) == [c] + Join(t, sep)
  {
    var u := [[c] + t[0]] + t[1..];
    assert u[1..] == t[1..];
  }

  /** Drops the empty pieces at the end, as a zero split limit does. */
  function DropTrailingEmpty(p: seq<string>): (r: seq<string>)
    ensures |r| <= |p| && r == p[..|r|]
    ensures forall k | |r| <= k < |p| :: p[k] == ""
    ensures |r| > 0 ==> r[|r| - 1] != ""
  {
    if |p| > 0 && p[|p| - 1] == "" then DropTrailingEmpty(p[..|p| - 1]) else p
  }

  /** `s.split(sep)`: when the separator does not occur the whole string is the
      single piece (even when it is empty); otherwise the pieces between
      separators, without the empty pieces at the end. */
  function Split(s: string, sep: char): (r: seq<string>)
    ensures forall k | 0 <= k < |r| :: sep !in r[k]
    ensures sep !in s ==> r == [s]
    ensures sep in s ==> |r| == 0 || r[|r| - 1] != ""
    ensures sep in s ==> exists n: nat :: s == Join(r, sep) + Repeat(sep, n)
  {
    if sep !in s then [s]
    else
      var all := SplitAll(s, sep);
      SplitAllSound(s, sep);
      var r := DropTrailingEmpty(all);
      assert all == r + EmptyPieces(|all| - |r|);
      if |r| == 0 then
        JoinEmptyPieces(|all|, sep);
        assert s == Join(r, sep) + Repeat(sep, |all| - 1);
        r
      else
        JoinTrailingEmpty(r, |all| - |r|, sep);
        r
  }

  function EmptyPieces(n: nat): (r: seq<string>)
    ensures |r| == n && forall k | 0 <= k < n :: r[k] == ""
  {
    seq(n, _ => "")
  }

  lemma JoinEmptyPieces(n: nat, sep: char)
    requires n >= 1
    ensures Join(EmptyPieces(n), sep) == Repeat(sep, n - 1)
  {
    if n > 1 {
      JoinEmptyPieces(n - 1, sep);
      assert EmptyPieces(n)[1..] == EmptyPieces(n - 1);
    }
  }

  /** Appending `n` empty pieces to a non-empty list appends `n` separators. */
  lemma JoinTrailingEmpty(p: seq<string>, n: nat, sep: char)
    requires |p| >= 1
    ensures Join(p + EmptyPieces(n), sep) == Join(p, sep) + Repeat(sep, n)
    decreases |p|
  {
    if |p| == 1 {
      if n > 0 {
        assert (p + EmptyPieces(n))[1..] == EmptyPieces(n);
        JoinEmptyPieces(n, sep);
      }
    } else {
      JoinTrailingEmpty(p[1..], n, sep);
      assert (p + EmptyPieces(n))[1..] == p[1..] + EmptyPieces(n);
    }
  }

  /** Splitting at a separator splits the two sides independently. */
  lemma {:induction false} SplitAllConcat(a: string, b: string, sep: char)
    ensures SplitAll(a + [sep] + b, sep) == SplitAll(a, sep) + SplitAll(b, sep)
    decreases |a|
  {
    if |a| == 0 {
      var s := a + [sep] + b;
      assert s == [sep] + b;
      assert s[0] == sep && s[1..] == b;
      assert SplitAll(s, sep) == [""] + SplitAll(b, sep);
    } else {
      var s := a + [sep] + b;
      SplitAllConcat(a[1..], b, sep);
      assert s[0] == a[0];
      assert s[1..] == a[1..] + [sep] + b;
      var left := SplitAll(a[1..], sep);
      var right := SplitAll(b, sep);
      if a[0] == sep {
        assert SplitAll(s, sep) == [""] + (left + right);
        assert SplitAll(a, sep) == [""] + left;
      } else {
        var head := [a[0]] + left[0];
        assert SplitAll(s, sep) == [head] + (left + right)[1..];
        assert SplitAll(a, sep) == [head] + left[1..];
        TailOfConcat(head, left, right);
      }
    }
  }

  lemma TailOfConcat<T>(head: T, left: seq<T>, right: seq<T>)
    requires |left| >= 1
    ensures [head] + (left + right)[1..] == ([head] + left[1..]) + right
  {
    assert (left + right)[1..] == left[1..] + right;
  }

  /** A string without the separator is one piece. */
  lemma {:induction false} SplitAllNoSeparator(s: string, sep: char)
    requires sep !in s
    ensures SplitAll(s, sep) == [s]
    decreases |s|
  {
    if |s| > 0 {
      assert s[0] != sep;
      SplitAllNoSeparator(s[1..], sep);
      assert [s[0]] + s[1..] == s;
    }
  }

  /** Round trip: pieces free of the separator come back from `SplitAll` of their join. */
  lemma {:induction false} SplitAllJoin(p: seq<string>, sep: char)
    requires |p| >= 1
    requires forall k | 0 <= k < |p| :: sep !in p[k]
    ensures SplitAll(Join(p, sep), sep) == p
    decreases |p|
  {
    if |p| == 1 {
      SplitAllNoSeparator(p[0], sep);
    } else {
      SplitAllJoin(p[1..], sep);
      SplitAllNoSeparator(p[0], sep);
      SplitAllConcat(p[0], Join(p[1..], sep), sep);
    }
  }

  /** Round trip for `Split`: pieces free of the separator, the last one non-empty,
      come back from their join followed by any number of separators. */
  lemma SplitJoin(p: seq<string>, n: nat, sep: char)
    requires |p| >= 1 && p[|p| - 1] != ""
    requires forall k | 0 <= k < |p| :: sep !in p[k]
    ensures Split(Join(p, sep) + Repeat(sep, n), sep) == p
  {
    var s := Join(p, sep) + Repeat(sep, n);
    JoinTrailingEmpty(p, n, sep);
    var q := p + EmptyPieces(n);
    assert forall k | 0 <= k < |q| :: sep !in q[k];
    SplitAllJoin(q, sep);
    if sep in s {
      DropTrailingEmptyOfPadded(p, n);
    } else {
      SplitAllNoSeparator(s, sep);
    }
  }

  lemma DropTrailingEmptyOfPadded(p: seq<string>, n: nat)
    requires |p| >= 1 && p[|p| - 1] != ""
    ensures DropTrailingEmpty(p + EmptyPieces(n)) == p
    decreases n
  {
    if n > 0 {
      assert (p + EmptyPieces(n))[..|p| + n - 1] == p + EmptyPieces(n - 1);
      DropTrailingEmptyOfPadded(p, n - 1);
    }
  }

  /** The first piece of `a + sep + b` is `a` when `a` is a non-empty string free of the separator. */
  lemma SplitFirstPiece(a: string, b: string, sep: char)
    requires a != "" && sep !in a
    ensures |Split(a + [sep] + b, sep)| >= 1 && Split(a + [sep] + b, sep)[0] == a
  {
    var s := a + [sep] + b;
    assert s[|a|] == sep;
    SplitAllConcat(a, b, sep);
    SplitAllNoSeparator(a, sep);
    var all := SplitAll(s, sep);
    var r := DropTrailingEmpty(all);
    assert all[0] == a;
    assert all[0] != "";
  }
}
