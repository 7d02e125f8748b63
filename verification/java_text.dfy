/** The parts of `java.lang.String` the helpers rely on, over `seq<char>`:
    `toLowerCase`, `equalsIgnoreCase`, `contains` and `trim`. Case mapping is
    ASCII only; locale-specific mappings are not modelled. */
module JavaText {

  /** `Character.toLowerCase` restricted to ASCII letters: an upper-case letter
      becomes the lower-case letter at the same place in the alphabet, and every
      other character is kept. */
  function LowerChar(c: char): (r: char)
    ensures !('A' <= r <= 'Z')
    ensures r == c <==> !('A' <= c <= 'Z')
    ensures 'A' <= c <= 'Z' ==> 'a' <= r <= 'z' && r as int - 'a' as int == c as int - 'A' as int
  {
    if 'A' <= c <= 'Z' then (c as int + 32) as char else c
  }

  /** `String.toLowerCase()`: character-wise lower-casing. No upper-case letter is
      left; every other character is kept; each upper-case letter becomes the
      lower-case letter at the same place in the alphabet. The result equals the
      input ignoring case. */
  function ToLower(s: string): (r: string)
    ensures |r| == |s|
    ensures forall i | 0 <= i < |r| :: !('A' <= r[i] <= 'Z')
    ensures forall i | 0 <= i < |s| :: !('A' <= s[i] <= 'Z') ==> r[i] == s[i]
    ensures forall i | 0 <= i < |s| :: 'A' <= s[i] <= 'Z' ==>
              'a' <= r[i] <= 'z' && r[i] as int - 'a' as int == s[i] as int - 'A' as int
    ensures EqualsIgnoreCase(r, s)
  {
    seq(|s|, i requires 0 <= i < |s| => LowerChar(s[i]))
  }

  /** Lower-casing twice is lower-casing once. */
  lemma ToLowerIdempotent(s: string)
    ensures ToLower(ToLower(s)) == ToLower(s)
  {
    var r := ToLower(s);
    forall i | 0 <= i < |r|
      ensures ToLower(r)[i] == r[i]
    {
    }
  }

  /** `String.equalsIgnoreCase`: same length and the characters agree after case folding. */
  predicate EqualsIgnoreCase(a: string, b: string) {
    |a| == |b| && forall i | 0 <= i < |a| :: LowerChar(a[i]) == LowerChar(b[i])
  }

  /** Two strings are equal ignoring case exactly when their lower-cased forms are equal. */
  lemma EqualsIgnoreCaseLower(a: string, b: string)
    ensures EqualsIgnoreCase(a, b) <==> ToLower(a) == ToLower(b)
  {
    if ToLower(a) == ToLower(b) {
      forall i | 0 <= i < |a|
        ensures LowerChar(a[i]) == LowerChar(b[i])
      {
        assert ToLower(a)[i] == ToLower(b)[i];
      }
    }
  }

  /** `String.contains`: `needle` occurs as a contiguous block of `hay`. */
  predicate Contains(hay: string, needle: string) {
    exists i | 0 <= i <= |hay| - |needle| :: OccursAt(hay, needle, i)
  }

  predicate OccursAt(hay: string, needle: string, i: int)
    requires 0 <= i <= |hay| - |needle|
  {
    hay[i..i + |needle|] == needle
  }

  /** A string contains every block it is built around. */
  lemma ContainsBlock(before: string, needle: string, after: string)
    ensures Contains(before + needle + after, needle)
  {
    var hay := before + needle + after;
    assert hay[|before|..|before| + |needle|] == needle;
    assert OccursAt(hay, needle, |before|);
  }

  /** A string that contains `needle` is built around it: the converse of `ContainsBlock`. */
  lemma ContainsParts(hay: string, needle: string) returns (before: string, after: string)
    requires Contains(hay, needle)
    ensures hay == before + needle + after
  {
    var i :| 0 <= i <= |hay| - |needle| && OccursAt(hay, needle, i);
    before, after := hay[..i], hay[i + |needle|..];
    assert hay == hay[..i] + hay[i..i + |needle|] + hay[i + |needle|..];
  }

  /** Characters `String.trim()` removes: every code point up to and including the space. */
  predicate IsTrimmable(c: char) {
    c <= ' '
  }

  function TrimStart(s: string): (r: string)
    ensures |r| <= |s| && r == s[|s| - |r|..]
    ensures forall i | 0 <= i < |s| - |r| :: IsTrimmable(s[i])
    ensures |r| > 0 ==> !IsTrimmable(r[0])
  {
    if |s| > 0 && IsTrimmable(s[0]) then TrimStart(s[1..]) else s
  }

  function TrimEnd(s: string): (r: string)
    ensures |r| <= |s| && r == s[..|r|]
    ensures forall i | |r| <= i < |s| :: IsTrimmable(s[i])
    ensures |r| > 0 ==> !IsTrimmable(r[|r| - 1])
  {
    if |s| > 0 && IsTrimmable(s[|s| - 1]) then TrimEnd(s[..|s| - 1]) else s
  }

  /** `String.trim()`: `r` is the block of `s` left once leading and trailing
      characters up to the space are removed; it neither starts nor ends with one. */
  function Trim(s: string): (r: string)
    ensures exists lo | 0 <= lo <= |s| - |r| :: TrimmedAt(s, r, lo)
    ensures |r| > 0 ==> !IsTrimmable(r[0]) && !IsTrimmable(r[|r| - 1])
  {
    var t := TrimStart(s);
    var r := TrimEnd(t);
    assert r == s[|s| - |t|..][..|r|];
    assert TrimmedAt(s, r, |s| - |t|);
    r
  }

  /** `r` is the block of `s` starting at `lo`, with only trimmable characters around it. */
  ghost predicate TrimmedAt(s: string, r: string, lo: int) {
    && 0 <= lo <= |s| - |r|
    && r == s[lo..lo + |r|]
    && (forall i | 0 <= i < lo :: IsTrimmable(s[i]))
    && (forall i | lo + |r| <= i < |s| :: IsTrimmable(s[i]))
  }

  /** `s.trim().isEmpty()` holds exactly when every character of `s` is trimmable. */
  lemma TrimEmptyIff(s: string)
    ensures Trim(s) == "" <==> forall i | 0 <= i < |s| :: IsTrimmable(s[i])
  {
    if Trim(s) != "" {
      var r := Trim(s);
      var lo :| 0 <= lo <= |s| - |r| && TrimmedAt(s, r, lo);
      assert s[lo] == r[0];
    }
  }
}
