/** Strings as the monitor sees them: Python's substring test `p in s` and
    the upper-casing applied to element text and search terms. */
module Text {

  /** `p` occurs in `s` starting exactly at index `i`. */
  ghost predicate OccursAt(s: string, p: string, i: int)
  {
    0 <= i && i + |p| <= |s| && s[i..i + |p|] == p
  }

  /** `p` occurs in `s` at some index `i` or later (executable scan). */
  predicate OccursFrom(s: string, p: string, i: nat)
    decreases |s| - i
  {
    i + |p| <= |s| && (s[i..i + |p|] == p || OccursFrom(s, p, i + 1))
  }

  /** Python's `p in s` for strings; the empty string occurs in every string. */
  predicate Contains(s: string, p: string)
  {
    OccursFrom(s, p, 0)
  }

  lemma {:induction false} OccursFromIff(s: string, p: string, i: nat)
    ensures OccursFrom(s, p, i) <==> exists j :: i <= j && OccursAt(s, p, j)
    decreases |s| - i
  {
    if i + |p| <= |s| {
      OccursFromIff(s, p, i + 1);
      if OccursAt(s, p, i) {
        assert OccursFrom(s, p, i);
      }
      if exists j :: i <= j && OccursAt(s, p, j) {
        var j :| i <= j && OccursAt(s, p, j);
        if j != i {
          assert i + 1 <= j;
        }
      }
    } else {
      assert forall j :: i <= j ==> !OccursAt(s, p, j);
    }
  }

  /** The executable scan agrees with "occurs at some index". */
  lemma ContainsIff(s: string, p: string)
    ensures Contains(s, p) <==> exists j :: OccursAt(s, p, j)
  {
    OccursFromIff(s, p, 0);
  }

  /** If `p + q` occurs in `s`, then so does its prefix `p`. */
  lemma ContainsPrefixOfPattern(s: string, p: string, q: string)
    requires Contains(s, p + q)
    ensures Contains(s, p)
  {
    ContainsIff(s, p + q);
    var j :| OccursAt(s, p + q, j);
    assert s[j..j + |p|] == (p + q)[..|p|] == p;
    assert OccursAt(s, p, j);
    ContainsIff(s, p);
  }

  /** Every character of an occurring pattern is a character of the text. */
  lemma ContainsChars(s: string, p: string, c: char)
    requires Contains(s, p)
    requires c in p
    ensures c in s
  {
    ContainsIff(s, p);
    var j :| OccursAt(s, p, j);
    var k :| 0 <= k < |p| && p[k] == c;
    assert s[j + k] == s[j..j + |p|][k] == c;
  }

  /** Python's `str.upper()` on one character, for the ASCII range. */
  function UpperChar(c: char): char
  {
    if 'a' <= c <= 'z' then (c as int - 'a' as int + 'A' as int) as char else c
  }

  function Upper(s: string): string
  {
    seq(|s|, i requires 0 <= i < |s| => UpperChar(s[i]))
  }

  /** No lower-case ASCII letter left. */
  ghost predicate IsUpper(s: string)
  {
    forall i :: 0 <= i < |s| ==> !('a' <= s[i] <= 'z')
  }

  /** Upper-casing maps each lower-case letter to its capital, 32 code points
      lower, and keeps every other character. */
  lemma UpperSpec(s: string)
    ensures |Upper(s)| == |s| && IsUpper(Upper(s))
    ensures forall i :: 0 <= i < |s| && !('a' <= s[i] <= 'z') ==> Upper(s)[i] == s[i]
    ensures forall i :: 0 <= i < |s| && 'a' <= s[i] <= 'z' ==> Upper(s)[i] as int == s[i] as int - 32
  {
  }

  /** Upper-casing an already upper-case string changes nothing. */
  lemma UpperFixesUpper(s: string)
    requires IsUpper(s)
    ensures Upper(s) == s
  {
  }

  /** Upper-casing twice is upper-casing once. */
  lemma UpperIdempotent(s: string)
    ensures Upper(Upper(s)) == Upper(s)
  {
    UpperSpec(s);
    UpperFixesUpper(Upper(s));
  }
}
