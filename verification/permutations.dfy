/** Index permutations and the shuffle they induce (the model of
    `faker.helpers.shuffle`, whose random choices arrive as a permutation). */
module Permutations {

  /** The identity arrangement `[0, 1, ..., n - 1]`. */
  function Range(n: nat): (r: seq<nat>)
    ensures |r| == n
    ensures forall i :: 0 <= i < n ==> r[i] == i
  {
    seq(n, i requires 0 <= i < n => i)
  }

  /** `perm` lists each of `0 .. n - 1` exactly once. */
  predicate IsPermutation(perm: seq<nat>, n: nat) {
    |perm| == n && multiset(perm) == multiset(Range(n))
  }

  /** Every index in `idx` is below `n`. */
  predicate IndicesBelow(idx: seq<nat>, n: nat) {
    forall i :: 0 <= i < |idx| ==> idx[i] < n
  }

  /** The elements of `s` at positions `idx`, in that order. */
  function Pick<T>(s: seq<T>, idx: seq<nat>): (r: seq<T>)
    requires IndicesBelow(idx, |s|)
    ensures |r| == |idx|
    ensures forall i :: 0 <= i < |idx| ==> r[i] == s[idx[i]]
  {
    seq(|idx|, i requires 0 <= i < |idx| => s[idx[i]])
  }

  /** Every entry of a permutation of `n` is below `n`. */
  lemma PermutationBounded(perm: seq<nat>, n: nat)
    requires IsPermutation(perm, n)
    ensures IndicesBelow(perm, n)
  {
    forall i | 0 <= i < |perm| ensures perm[i] < n {
      assert perm[i] in multiset(perm);
      assert perm[i] in multiset(Range(n));
      assert perm[i] in Range(n);
    }
  }

  /** Removing position `m` from `b` removes one copy of `b[m]` from its multiset. */
  lemma RemoveAt<T>(b: seq<T>, m: nat)
    requires m < |b|
    ensures multiset(b[..m] + b[m + 1..]) == multiset(b) - multiset{b[m]}
  {
    assert b == b[..m] + [b[m]] + b[m + 1..];
    assert multiset(b) == multiset(b[..m]) + multiset{b[m]} + multiset(b[m + 1..]);
  }

  /** Picking commutes with removing one index; `rest` is `b` without position `m`. */
  lemma PickRemoveAt<T>(s: seq<T>, b: seq<nat>, m: nat, rest: seq<nat>)
    requires IndicesBelow(b, |s|)
    requires m < |b| && rest == b[..m] + b[m + 1..]
    ensures IndicesBelow(rest, |s|)
    ensures multiset(Pick(s, b)) == multiset(Pick(s, rest)) + multiset{s[b[m]]}
  {
    var pb := Pick(s, b);
    assert pb[..m] + pb[m + 1..] == Pick(s, rest);
    RemoveAt(pb, m);
  }

  /** A position of `x` in `b`. */
  lemma Locate<T>(b: seq<T>, x: T) returns (m: nat)
    requires x in multiset(b)
    ensures m < |b| && b[m] == x
  {
    assert x in b;
    m :| 0 <= m < |b| && b[m] == x;
  }

  /** Dropping the first of `a` and an equal element of `b` keeps the multisets equal. */
  lemma DropMatching<T>(a: seq<T>, b: seq<T>, m: nat)
    requires |a| > 0 && m < |b| && b[m] == a[0]
    requires multiset(a) == multiset(b)
    ensures multiset(a[1..]) == multiset(b[..m] + b[m + 1..])
  {
    RemoveAt(a, 0);
    assert a[..0] + a[1..] == a[1..];
    RemoveAt(b, m);
  }

  /** Picking with two index lists that hold the same indices, in any order,
      yields the same multiset of elements. */
  lemma {:induction false} PickRespectsMultiset<T>(s: seq<T>, a: seq<nat>, b: seq<nat>)
    requires IndicesBelow(a, |s|)
    requires IndicesBelow(b, |s|)
    requires multiset(a) == multiset(b)
    ensures multiset(Pick(s, a)) == multiset(Pick(s, b))
    decreases |a|
  {
    if |a| == 0 {
      assert |b| == |multiset(b)| == 0;
    } else {
      var m := Locate(b, a[0]);
      var a', b' := a[1..], b[..m] + b[m + 1..];
      DropMatching(a, b, m);
      assert a' == a[..0] + a[1..];
      PickRemoveAt(s, a, 0, a');
      PickRemoveAt(s, b, m, b');
      PickRespectsMultiset(s, a', b');
    }
  }

  /** The shuffled arrangement: position `i` receives `s[perm[i]]`. */
  function Shuffle<T>(s: seq<T>, perm: seq<nat>): (r: seq<T>)
    requires IsPermutation(perm, |s|)
    ensures |r| == |s|
    ensures multiset(r) == multiset(s)
  {
    PermutationBounded(perm, |s|);
    PickRespectsMultiset(s, perm, Range(|s|));
    assert Pick(s, Range(|s|)) == s;
    Pick(s, perm)
  }

  /** A shuffle keeps every element: whatever occurs in `s` occurs in its shuffle. */
  lemma ShuffleKeepsElements<T>(s: seq<T>, perm: seq<nat>, i: nat)
    requires IsPermutation(perm, |s|)
    requires i < |s|
    ensures exists j :: 0 <= j < |s| && Shuffle(s, perm)[j] == s[i]
  {
    var r := Shuffle(s, perm);
    assert s[i] in multiset(s);
    assert s[i] in multiset(r);
    assert s[i] in r;
  }
}
