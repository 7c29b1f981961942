/**
 * The string operations the stores use: `String#downcase` (on ASCII letters)
 * and `String#include?` (substring containment).
 */
module Text {

  /** Downcases one character; only the ASCII letters 'A'..'Z' change. */
  function LowerChar(c: char): char {
    if 'A' <= c <= 'Z' then (c as int + 32) as char else c
  }

  /**
   * `s.downcase` on ASCII: the same length, no capital letter left, each
   * capital turned into its lowercase letter, and every other character
   * kept as it is.
   */
  function Downcase(s: string): (r: string)
    ensures |r| == |s|
    ensures forall i :: 0 <= i < |r| ==> !('A' <= r[i] <= 'Z')
    ensures forall i :: 0 <= i < |s| && 'A' <= s[i] <= 'Z' ==> r[i] as int == s[i] as int + 32
    ensures forall i :: 0 <= i < |s| && !('A' <= s[i] <= 'Z') ==> r[i] == s[i]
  {
    seq(|s|, i requires 0 <= i < |s| => LowerChar(s[i]))
  }

  /** `t` occurs in `s` starting at position `i`. */
  predicate OccursAt(s: string, t: string, i: int) {
    0 <= i && i + |t| <= |s| && s[i..i + |t|] == t
  }

  /** `s.include?(t)`: scans `s` from the left for an occurrence of `t`. */
  predicate Contains(s: string, t: string)
    decreases |s|
  {
    (|t| <= |s| && s[..|t|] == t) || (|s| > 0 && Contains(s[1..], t))
  }

  /** The scan finds an occurrence exactly when one exists somewhere. */
  lemma {:induction false} ContainsIffOccurs(s: string, t: string)
    ensures Contains(s, t) <==> exists i :: OccursAt(s, t, i)
    decreases |s|
  {
    if |t| <= |s| && s[..|t|] == t {
      assert OccursAt(s, t, 0);
    } else if |s| > 0 {
      ContainsIffOccurs(s[1..], t);
      if Contains(s[1..], t) {
        var i :| OccursAt(s[1..], t, i);
        TailSlice(s, i, |t|);
        assert OccursAt(s, t, i + 1);
      } else {
        forall i | OccursAt(s, t, i) ensures false {
          assert i != 0;
          TailSlice(s, i - 1, |t|);
          assert OccursAt(s[1..], t, i - 1);
        }
      }
    } else {
      assert |s| == 0 < |t|;
    }
  }

  lemma TailSlice(s: string, i: nat, n: nat)
    requires |s| > 0 && i + n <= |s| - 1
    ensures s[1..][i..i + n] == s[i + 1..i + 1 + n]
  {
    var a, b := s[1..][i..i + n], s[i + 1..i + 1 + n];
    assert |a| == |b|;
    assert forall j :: 0 <= j < |a| ==> a[j] == b[j];
  }

  /** The empty query is contained in every string. */
  lemma EmptyIsContained(s: string)
    ensures Contains(s, "")
  {
  }
}
