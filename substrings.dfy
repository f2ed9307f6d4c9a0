/** Python's `sub in s` test on strings and the ASCII part of `str.lower`,
    the two string operations the domain and source-filter tests use. */
module Substrings {

  /** `s` starts with `p`. */
  predicate IsPrefix(p: string, s: string) {
    |p| <= |s| && s[..|p|] == p
  }

  /** `sub` occurs in `s` starting at index `i`. */
  predicate OccursAt(sub: string, s: string, i: int) {
    0 <= i && i + |sub| <= |s| && s[i..i + |sub|] == sub
  }

  /** `sub in s`, scanning the start positions from left to right. */
  function Contains(s: string, sub: string): (r: bool)
    ensures r <==> exists i :: OccursAt(sub, s, i)
    decreases |s|
  {
    if IsPrefix(sub, s) then
      assert OccursAt(sub, s, 0);
      true
    else if s == [] then
      assert forall i :: !OccursAt(sub, s, i);
      false
    else
      var r := Contains(s[1..], sub);
      ShiftOccurrence(sub, s);
      r
  }

  /** The occurrences in `s` past its first position are the occurrences in
      `s[1..]`, shifted by one. */
  lemma ShiftOccurrence(sub: string, s: string)
    requires s != [] && !IsPrefix(sub, s)
    ensures (exists i :: OccursAt(sub, s, i)) <==> (exists j :: OccursAt(sub, s[1..], j))
  {
    if i :| OccursAt(sub, s, i) {
      assert i != 0;
      assert s[1..][i - 1..i - 1 + |sub|] == s[i..i + |sub|];
      assert OccursAt(sub, s[1..], i - 1);
    }
    if j :| OccursAt(sub, s[1..], j) {
      assert s[j + 1..j + 1 + |sub|] == s[1..][j..j + |sub|];
      assert OccursAt(sub, s, j + 1);
    }
  }

  /** The empty string occurs in every string. */
  lemma ContainsEmpty(s: string)
    ensures Contains(s, [])
  {
    assert OccursAt([], s, 0);
  }

  /** `c.lower()` for an ASCII capital: the letter 32 code points on. */
  function LowerChar(c: char): (r: char)
    ensures 'A' <= c <= 'Z' ==> 'a' <= r <= 'z' && r as int == c as int + 32
    ensures !('A' <= c <= 'Z') ==> r == c
  {
    if 'A' <= c <= 'Z' then (c as int + 32) as char else c
  }

  /** `s.lower()` on the ASCII letters. */
  function Lower(s: string): (r: string)
    ensures |r| == |s|
    ensures forall i :: 0 <= i < |s| ==> r[i] == LowerChar(s[i])
  {
    seq(|s|, i requires 0 <= i < |s| => LowerChar(s[i]))
  }
}
