/** Text operations the queries rely on: ASCII lower-casing and substring search. */
module Strings {

  /** Lower-cases an ASCII capital letter and leaves every other character alone. */
  function LowerChar(c: char): (d: char)
    ensures 'A' <= c <= 'Z' ==> d as int == c as int + 32
    ensures !('A' <= c <= 'Z') ==> d == c
  {
    if 'A' <= c <= 'Z' then (c as int + 32) as char else c
  }

  function Lower(s: string): (r: string)
    ensures |r| == |s|
    ensures forall i :: 0 <= i < |s| ==> r[i] == LowerChar(s[i])
  {
    seq(|s|, i requires 0 <= i < |s| => LowerChar(s[i]))
  }

  lemma LowerIdempotent(s: string)
    ensures Lower(Lower(s)) == Lower(s)
  {
  }

  /** `p` occurs in `s` as a contiguous substring. */
  function Contains(s: string, p: string): bool
    decreases |s|
  {
    p <= s || (|s| > 0 && Contains(s[1..], p))
  }

  /** `p` occurs in `s` starting at position `i`. */
  ghost predicate OccursAt(s: string, p: string, i: int)
  {
    0 <= i <= |s| && p <= s[i..]
  }

  /** `Contains` agrees with the positional definition of a substring. */
  lemma {:induction false} ContainsIffOccurs(s: string, p: string)
    ensures Contains(s, p) <==> exists i :: OccursAt(s, p, i)
    decreases |s|
  {
    if p <= s {
      assert OccursAt(s, p, 0);
    } else if |s| == 0 {
      assert forall i :: OccursAt(s, p, i) ==> i == 0;
    } else {
      ContainsIffOccurs(s[1..], p);
      if Contains(s[1..], p) {
        var i :| OccursAt(s[1..], p, i);
        assert s[1..][i..] == s[i + 1..];
        assert OccursAt(s, p, i + 1);
      }
      if exists i :: OccursAt(s, p, i) {
        var i :| OccursAt(s, p, i);
        assert i != 0;
        assert s[1..][i - 1..] == s[i..];
        assert OccursAt(s[1..], p, i - 1);
      }
    }
  }

  /** Case-insensitive substring test: `p` occurs in `s` once both are lower-cased. */
  predicate ContainsFold(s: string, p: string)
  {
    Contains(Lower(s), Lower(p))
  }

  /** The empty text occurs in every text. */
  lemma ContainsFoldEmpty(s: string)
    ensures ContainsFold(s, "")
  {
  }
}
