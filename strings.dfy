/** Substring search, JavaScript's `String.prototype.includes`. */
module Strings {

  /** `sub` starts at position `i` of `s`. */
  predicate OccursAt(s: string, sub: string, i: nat) {
    i <= |s| && sub <= s[i..]
  }

  /** `s.includes(sub)`: `sub` is a prefix of some suffix of `s`. */
  predicate Contains(s: string, sub: string)
    decreases |s|
  {
    sub <= s || (|s| > 0 && Contains(s[1..], sub))
  }

  /** `Contains` holds exactly when some position of `s` starts an occurrence of `sub`. */
  lemma {:induction false} ContainsIffOccurs(s: string, sub: string)
    ensures Contains(s, sub) <==> exists i :: 0 <= i <= |s| && OccursAt(s, sub, i)
    decreases |s|
  {
    assert s[0..] == s;
    if sub <= s {
      assert OccursAt(s, sub, 0);
    } else if |s| == 0 {
      forall i | 0 <= i <= |s| ensures !OccursAt(s, sub, i) {
        assert s[i..] == s;
      }
    } else {
      ContainsIffOccurs(s[1..], sub);
      forall j | 0 <= j <= |s| - 1
        ensures OccursAt(s[1..], sub, j) <==> OccursAt(s, sub, j + 1)
      {
        assert s[1..][j..] == s[j + 1..];
      }
      if Contains(s, sub) {
        var j :| 0 <= j <= |s[1..]| && OccursAt(s[1..], sub, j);
        assert OccursAt(s, sub, j + 1);
      } else {
        forall i | 0 <= i <= |s| ensures !OccursAt(s, sub, i) {
          if i > 0 {
            assert !OccursAt(s[1..], sub, i - 1);
          }
        }
      }
    }
  }

  /** Putting anything in front of a string keeps every substring it had. */
  lemma {:induction false} ContainsAfterPrefix(p: string, s: string, sub: string)
    requires Contains(s, sub)
    ensures Contains(p + s, sub)
    decreases |p|
  {
    if p == [] {
      assert p + s == s;
    } else {
      ContainsAfterPrefix(p[1..], s, sub);
      assert (p + s)[1..] == p[1..] + s;
    }
  }
}
