/** `String.compareTo` (the natural order `sorted()` uses) and the sorted copy
    `stream().sorted()` / `sorted(Comparator.reverseOrder())` produce. */
module JavaCompare {

  /** `a.compareTo(b)`: the difference of the first differing characters, or of the
      lengths when one string is a prefix of the other. */
  function CompareTo(a: string, b: string): (r: int)
    ensures a <= b || b <= a ==> r == |a| - |b|
    ensures !(a <= b) && !(b <= a) ==>
              exists k | 0 <= k < |a| && k < |b| :: a[..k] == b[..k] && a[k] != b[k] && r == a[k] as int - b[k] as int
    decreases |a|
  {
    if |a| == 0 || |b| == 0 then |a| - |b|
    else if a[0] != b[0] then
      assert a[..0] == b[..0];
      a[0] as int - b[0] as int
    else
      var r := CompareTo(a[1..], b[1..]);
      CompareToStep(a, b, r);
      r
  }

  /** A common first character is skipped: prefixes and the first difference of the
      tails are those of the strings, one position later. */
  lemma CompareToStep(a: string, b: string, r: int)
    requires |a| > 0 && |b| > 0 && a[0] == b[0]
    requires a[1..] <= b[1..] || b[1..] <= a[1..] ==> r == |a[1..]| - |b[1..]|
    requires !(a[1..] <= b[1..]) && !(b[1..] <= a[1..]) ==>
               exists k | 0 <= k < |a[1..]| && k < |b[1..]| ::
                 a[1..][..k] == b[1..][..k] && a[1..][k] != b[1..][k] && r == a[1..][k] as int - b[1..][k] as int
    ensures a <= b || b <= a ==> r == |a| - |b|
    ensures !(a <= b) && !(b <= a) ==>
              exists k | 0 <= k < |a| && k < |b| :: a[..k] == b[..k] && a[k] != b[k] && r == a[k] as int - b[k] as int
  {
    assert a == [a[0]] + a[1..] && b == [b[0]] + b[1..];
    assert a <= b <==> a[1..] <= b[1..];
    assert b <= a <==> b[1..] <= a[1..];
    if !(a <= b) && !(b <= a) {
      var k :| 0 <= k < |a[1..]| && k < |b[1..]| && a[1..][..k] == b[1..][..k] && a[1..][k] != b[1..][k]
               && r == a[1..][k] as int - b[1..][k] as int;
      assert a[..k + 1] == [a[0]] + a[1..][..k];
      assert b[..k + 1] == [b[0]] + b[1..][..k];
    }
  }

  /** Natural order: `a.compareTo(b) <= 0`. */
  predicate Leq(a: string, b: string) {
    CompareTo(a, b) <= 0
  }

  /** `compareTo` is zero exactly on equal strings. */
  lemma {:induction false} CompareToZero(a: string, b: string)
    ensures CompareTo(a, b) == 0 <==> a == b
    decreases |a|
  {
    if |a| > 0 && |b| > 0 && a[0] == b[0] {
      CompareToZero(a[1..], b[1..]);
      if a[1..] == b[1..] {
        assert a == [a[0]] + a[1..] && b == [b[0]] + b[1..];
      }
    }
  }

  /** `compareTo` is antisymmetric in sign. */
  lemma {:induction false} CompareToFlip(a: string, b: string)
    ensures CompareTo(a, b) < 0 <==> CompareTo(b, a) > 0
    decreases |a|
  {
    if |a| > 0 && |b| > 0 && a[0] == b[0] {
      CompareToFlip(a[1..], b[1..]);
    }
  }

  lemma {:induction false} CompareToTransitive(a: string, b: string, c: string)
    requires CompareTo(a, b) <= 0 && CompareTo(b, c) <= 0
    ensures CompareTo(a, c) <= 0
    decreases |a|
  {
    if |a| > 0 && |b| > 0 && |c| > 0 && a[0] == b[0] && b[0] == c[0] {
      CompareToTransitive(a[1..], b[1..], c[1..]);
    }
  }

  /** The natural order of strings is a total order. */
  lemma LeqTotalOrder()
    ensures forall a: string :: Leq(a, a)
    ensures forall a: string, b: string :: Leq(a, b) && Leq(b, a) ==> a == b
    ensures forall a: string, b: string, c: string :: Leq(a, b) && Leq(b, c) ==> Leq(a, c)
    ensures forall a: string, b: string :: Leq(a, b) || Leq(b, a)
  {
    forall a: string
      ensures Leq(a, a)
    {
      CompareToZero(a, a);
    }
    forall a: string, b: string | Leq(a, b) && Leq(b, a)
      ensures a == b
    {
      CompareToFlip(a, b);
      CompareToZero(a, b);
    }
    forall a: string, b: string, c: string | Leq(a, b) && Leq(b, c)
      ensures Leq(a, c)
    {
      CompareToTransitive(a, b, c);
    }
    forall a: string, b: string
      ensures Leq(a, b) || Leq(b, a)
    {
      CompareToFlip(a, b);
    }
  }

  /** `a` may come before `b` in the chosen direction. */
  predicate InOrder(a: string, b: string, descending: bool) {
    if descending then Leq(b, a) else Leq(a, b)
  }

  /** Every pair of rows is in order: pairwise non-decreasing (or non-increasing). */
  ghost predicate Sorted(s: seq<string>, descending: bool) {
    forall i, j | 0 <= i < j < |s| :: InOrder(s[i], s[j], descending)
  }

  lemma InOrderAntisymmetric(a: string, b: string, descending: bool)
    requires InOrder(a, b, descending) && InOrder(b, a, descending)
    ensures a == b
  {
    CompareToFlip(a, b);
    CompareToZero(a, b);
  }

  lemma InOrderTotal(a: string, b: string, descending: bool)
    ensures InOrder(a, b, descending) || InOrder(b, a, descending)
  {
    CompareToFlip(a, b);
  }

  lemma InOrderTransitive(a: string, b: string, c: string, descending: bool)
    requires InOrder(a, b, descending) && InOrder(b, c, descending)
    ensures InOrder(a, c, descending)
  {
    if descending {
      CompareToTransitive(c, b, a);
    } else {
      CompareToTransitive(a, b, c);
    }
  }

  /** Inserts `x` into a sorted list before the first element it may precede. */
  function Insert(x: string, s: seq<string>, descending: bool): (r: seq<string>)
    requires Sorted(s, descending)
    ensures multiset(r) == multiset(s) + multiset{x}
    ensures Sorted(r, descending)
  {
    if |s| == 0 then [x]
    else if InOrder(x, s[0], descending) then
      InsertFront(x, s, descending);
      [x] + s
    else
      var t := Insert(x, s[1..], descending);
      InsertBehind(x, s, t, descending);
      [s[0]] + t
  }

  /** An element that may precede the head of a sorted list may precede all of it. */
  lemma InsertFront(x: string, s: seq<string>, descending: bool)
    requires Sorted(s, descending) && |s| > 0 && InOrder(x, s[0], descending)
    ensures Sorted([x] + s, descending)
  {
    var r := [x] + s;
    forall i, j | 0 <= i < j < |r|
      ensures InOrder(r[i], r[j], descending)
    {
      assert r[j] == s[j - 1];
      if i == 0 {
        if j > 1 {
          InOrderTransitive(x, s[0], s[j - 1], descending);
        }
      } else {
        assert r[i] == s[i - 1];
      }
    }
  }

  /** The head of a sorted list, kept in front of the sorted insertion into its tail. */
  lemma InsertBehind(x: string, s: seq<string>, t: seq<string>, descending: bool)
    requires Sorted(s, descending) && |s| > 0 && !InOrder(x, s[0], descending)
    requires Sorted(t, descending) && multiset(t) == multiset(s[1..]) + multiset{x}
    ensures multiset([s[0]] + t) == multiset(s) + multiset{x}
    ensures Sorted([s[0]] + t, descending)
  {
    assert s == [s[0]] + s[1..];
    InOrderTotal(x, s[0], descending);
    var r := [s[0]] + t;
    forall i, j | 0 <= i < j < |r|
      ensures InOrder(r[i], r[j], descending)
    {
      assert r[j] == t[j - 1];
      if i == 0 {
        assert t[j - 1] in multiset(t);
        if t[j - 1] != x {
          assert t[j - 1] in multiset(s[1..]);
          var k :| 0 <= k < |s[1..]| && s[1..][k] == t[j - 1];
          assert s[k + 1] == t[j - 1];
        }
      } else {
        assert r[i] == t[i - 1];
      }
    }
  }

  /** The sorted copy `stream().sorted()` (or with `Comparator.reverseOrder()`) returns:
      a sorted permutation of the input. */
  function SortedCopy(s: seq<string>, descending: bool): (r: seq<string>)
    ensures multiset(r) == multiset(s)
    ensures Sorted(r, descending)
  {
    if |s| == 0 then []
    else
      assert s == [s[0]] + s[1..];
      Insert(s[0], SortedCopy(s[1..], descending), descending)
  }

  /** Two sorted lists with the same elements are equal: the sorted copy is unique,
      whatever sorting algorithm produced it. */
  lemma {:induction false} SortedUnique(a: seq<string>, b: seq<string>, descending: bool)
    requires Sorted(a, descending) && Sorted(b, descending)
    requires multiset(a) == multiset(b)
    ensures a == b
    decreases |a|
  {
    assert |a| == |multiset(a)| == |multiset(b)| == |b|;
    if |a| > 0 {
      SortedHeadsEqual(a, b, descending);
      MultisetTails(a, b);
      SortedUnique(a[1..], b[1..], descending);
      assert a == [a[0]] + a[1..] && b == [b[0]] + b[1..];
    }
  }

  /** Sorted lists with the same elements start with the same element. */
  lemma SortedHeadsEqual(a: seq<string>, b: seq<string>, descending: bool)
    requires Sorted(a, descending) && Sorted(b, descending)
    requires multiset(a) == multiset(b) && |a| > 0 && |b| > 0
    ensures a[0] == b[0]
  {
    assert a[0] in multiset(b);
    var j :| 0 <= j < |b| && b[j] == a[0];
    assert b[0] in multiset(a);
    var i :| 0 <= i < |a| && a[i] == b[0];
    CompareToZero(a[0], b[0]);
    if i > 0 && j > 0 {
      assert InOrder(a[0], b[0], descending);
      assert InOrder(b[0], a[0], descending);
      InOrderAntisymmetric(a[0], b[0], descending);
    }
  }

  lemma MultisetTails<T>(a: seq<T>, b: seq<T>)
    requires |a| > 0 && |b| > 0 && a[0] == b[0]
    requires multiset(a) == multiset(b)
    ensures multiset(a[1..]) == multiset(b[1..])
  {
    assert a == [a[0]] + a[1..] && b == [b[0]] + b[1..];
    assert multiset(a[1..]) == multiset(a) - multiset{a[0]};
    assert multiset(b[1..]) == multiset(b) - multiset{b[0]};
  }

  /** A list equals its sorted copy exactly when it is already sorted. */
  lemma SortedCopyFixpoint(s: seq<string>, descending: bool)
    ensures SortedCopy(s, descending) == s <==> Sorted(s, descending)
  {
    if Sorted(s, descending) {
      SortedUnique(SortedCopy(s, descending), s, descending);
    }
  }

  /** A list is sorted both ways exactly when all its elements are equal. */
  lemma SortedBothWays(s: seq<string>)
    ensures Sorted(s, false) && Sorted(s, true) <==> forall i, j | 0 <= i < |s| && 0 <= j < |s| :: s[i] == s[j]
  {
    if Sorted(s, false) && Sorted(s, true) {
      forall i, j | 0 <= i < |s| && 0 <= j < |s|
        ensures s[i] == s[j]
      {
        if i < j {
          InOrderAntisymmetric(s[i], s[j], false);
        } else if j < i {
          InOrderAntisymmetric(s[j], s[i], false);
        }
      }
    }
    if forall i, j | 0 <= i < |s| && 0 <= j < |s| :: s[i] == s[j] {
      forall i, j | 0 <= i < j < |s|
        ensures InOrder(s[i], s[j], false) && InOrder(s[i], s[j], true)
      {
        CompareToZero(s[i], s[j]);
      }
    }
  }
}
