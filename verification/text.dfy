/** The two string operations the outcome classifiers rely on: substring search
    (`String.prototype.includes`, Python's `in`) and lower-casing. */
module Text {

  /** `sub` occurs in `s` starting at index `i`. */
  predicate OccursAt(s: string, sub: string, i: int) {
    0 <= i && i + |sub| <= |s| && s[i..i + |sub|] == sub
  }

  /** Substring search by scanning: `sub` is a prefix of `s` or of a suffix of it. */
  function Contains(s: string, sub: string): (found: bool)
    ensures found <==> exists i :: OccursAt(s, sub, i)
    decreases |s|
  {
    if |sub| <= |s| && s[..|sub|] == sub then
      assert OccursAt(s, sub, 0);
      true
    else if |s| == 0 then
      false
    else
      var rest := Contains(s[1..], sub);
      assert forall i :: OccursAt(s[1..], sub, i) <==> OccursAt(s, sub, i + 1) by {
        forall i ensures OccursAt(s[1..], sub, i) <==> OccursAt(s, sub, i + 1) {
          if 0 <= i && i + |sub| <= |s[1..]| {
            assert s[1..][i..i + |sub|] == s[i + 1..i + 1 + |sub|];
          }
        }
      }
      assert (exists i :: OccursAt(s, sub, i)) ==> exists i :: OccursAt(s[1..], sub, i) by {
        if exists i :: OccursAt(s, sub, i) {
          var i :| OccursAt(s, sub, i);
          assert i != 0;
          assert OccursAt(s[1..], sub, i - 1);
        }
      }
      rest
  }

  /** ASCII case folding of one character. */
  function LowerChar(c: char): char {
    if 'A' <= c <= 'Z' then (c as int - 'A' as int + 'a' as int) as char else c
  }

  /** Lower-casing, character by character. */
  function ToLower(s: string): (r: string)
    ensures |r| == |s|
    ensures forall i :: 0 <= i < |s| ==> r[i] == LowerChar(s[i])
  {
    seq(|s|, i requires 0 <= i < |s| => LowerChar(s[i]))
  }

  /** Lower-casing is idempotent and leaves no upper-case ASCII letter behind. */
  lemma ToLowerIdempotent(s: string)
    ensures ToLower(ToLower(s)) == ToLower(s)
    ensures forall i :: 0 <= i < |s| ==> !('A' <= ToLower(s)[i] <= 'Z')
  {
  }
}
