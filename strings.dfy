/** Go's `strings.Contains`, and the substring relation it decides. */
module Strings {

  /** `prefix` is a prefix of `s`. */
  predicate HasPrefix(s: string, prefix: string) {
    |prefix| <= |s| && s[..|prefix|] == prefix
  }

  /** `substr` occurs in `s` starting at index `i`. */
  ghost predicate OccursAt(s: string, substr: string, i: nat) {
    i + |substr| <= |s| && s[i..i + |substr|] == substr
  }

  /** `substr` occurs somewhere in `s`; the empty string occurs in every string. */
  ghost predicate IsSubstring(substr: string, s: string) {
    exists i: nat :: i <= |s| && OccursAt(s, substr, i)
  }

  /** `strings.Contains(s, substr)`: tries each starting position in turn. */
  function Contains(s: string, substr: string): bool
    decreases |s|
  {
    HasPrefix(s, substr) || (0 < |s| && Contains(s[1..], substr))
  }

  /** An occurrence in the tail of `s` is an occurrence in `s`, one index later. */
  lemma OccursInTail(s: string, substr: string, i: nat)
    requires 0 < |s|
    ensures OccursAt(s[1..], substr, i) <==> OccursAt(s, substr, i + 1)
  {
    if i + 1 + |substr| <= |s| {
      assert s[1..][i..i + |substr|] == s[i + 1..i + 1 + |substr|];
    }
  }

  /** `Contains` decides exactly the substring relation. */
  lemma {:induction false} ContainsIffSubstring(s: string, substr: string)
    ensures Contains(s, substr) <==> IsSubstring(substr, s)
    decreases |s|
  {
    if HasPrefix(s, substr) {
      assert OccursAt(s, substr, 0);
    } else if |s| == 0 {
      assert !OccursAt(s, substr, 0);
    } else {
      var tail := s[1..];
      assert Contains(s, substr) == Contains(tail, substr);
      ContainsIffSubstring(tail, substr);
      if IsSubstring(substr, s) {
        var i: nat :| i <= |s| && OccursAt(s, substr, i);
        assert i != 0;
        OccursInTail(s, substr, i - 1);
      }
      if IsSubstring(substr, tail) {
        var i: nat :| i <= |tail| && OccursAt(tail, substr, i);
        OccursInTail(s, substr, i);
      }
    }
  }
}
