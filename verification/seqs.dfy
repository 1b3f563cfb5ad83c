/**
  Facts about sequences of instruction numbers that the traversal proofs share:
  distinctness, bounds, counting, and reversal (ArrayUtil.reverseArray).
 */
module Seqs {

  /** No element occurs twice. */
  predicate Distinct<T(==)>(s: seq<T>) {
    forall i, j :: 0 <= i < j < |s| ==> s[i] != s[j]
  }

  /** Appending an element that is not yet present keeps a sequence distinct. */
  lemma DistinctAppend<T>(s: seq<T>, x: T)
    requires Distinct(s) && x !in s
    ensures Distinct(s + [x])
  {
    var t := s + [x];
    forall i, j | 0 <= i < j < |t| ensures t[i] != t[j] {
      assert t[i] == s[i];
      if j < |s| {
        assert t[j] == s[j];
      }
    }
  }

  /** Every element is an index below `n`. */
  predicate Below(s: seq<nat>, n: nat) {
    forall i :: 0 <= i < |s| ==> s[i] < n
  }

  /** `s` holds each of 0, 1, ..., n-1 exactly once. */
  predicate IsPermutationOfRange(s: seq<nat>, n: nat) {
    |s| == n && Distinct(s) && Below(s, n) && forall x :: 0 <= x < n ==> x in s
  }

  /** The indices 0, 1, ..., n-1 as a set. */
  function Range(n: nat): (r: set<nat>)
    ensures forall x: nat :: x in r <==> x < n
    ensures |r| == n
  {
    if n == 0 then {} else Range(n - 1) + {n - 1}
  }

  /** The elements of `s` as a set. */
  function Elements(s: seq<nat>): (r: set<nat>)
    ensures forall x :: x in r <==> x in s
  {
    set x | x in s
  }

  lemma {:induction false} DistinctCard(s: seq<nat>)
    requires Distinct(s)
    ensures |Elements(s)| == |s|
  {
    if s != [] {
      DistinctCard(s[1..]);
      assert Elements(s) == Elements(s[1..]) + {s[0]};
      assert s[0] !in s[1..] by {
        forall k | 0 <= k < |s[1..]| ensures s[1..][k] != s[0] {
          assert s[1..][k] == s[k + 1];
        }
      }
    }
  }

  lemma {:induction false} SubsetCard<T>(a: set<T>, b: set<T>)
    requires a <= b
    ensures |a| <= |b|
    decreases b
  {
    if a != {} {
      var x :| x in a;
      SubsetCard(a - {x}, b - {x});
    }
  }

  /** A sequence of distinct indices below `n` is no longer than `n`. */
  lemma DistinctBounded(s: seq<nat>, n: nat)
    requires Distinct(s) && Below(s, n)
    ensures |s| <= n
  {
    DistinctCard(s);
    SubsetCard(Elements(s), Range(n));
  }

  /** A sequence of distinct indices below `n` that covers them all has length `n`. */
  lemma CoversRange(s: seq<nat>, n: nat)
    requires Distinct(s) && Below(s, n)
    requires forall x :: 0 <= x < n ==> x in s
    ensures IsPermutationOfRange(s, n)
  {
    DistinctCard(s);
    var elems := Elements(s);
    assert elems == Range(n) by {
      forall x | x in elems ensures x in Range(n) {
        var k :| 0 <= k < |s| && s[k] == x;
      }
      forall x | x in Range(n) ensures x in elems {
        assert x in s;
      }
    }
  }

  /** The same elements in the opposite order. */
  function Reversed<T>(s: seq<T>): (r: seq<T>)
    ensures |r| == |s|
    ensures forall k :: 0 <= k < |s| ==> r[k] == s[|s| - 1 - k]
  {
    if s == [] then [] else Reversed(s[1..]) + [s[0]]
  }

  /** Reversing a permutation of 0, ..., n-1 gives one. */
  lemma ReversedIsPermutation(s: seq<nat>, n: nat)
    requires IsPermutationOfRange(s, n)
    ensures IsPermutationOfRange(Reversed(s), n)
  {
    var r := Reversed(s);
    forall x | 0 <= x < n ensures x in r {
      assert x in s;
      var k :| 0 <= k < |s| && s[k] == x;
      assert r[|s| - 1 - k] == x;
    }
    forall i, j | 0 <= i < j < |r| ensures r[i] != r[j] {
      assert r[i] == s[|s| - 1 - i] && r[j] == s[|s| - 1 - j];
    }
  }

  /** What comes before position `i` of `s` comes after position |s|-1-i of its reverse. */
  lemma ReversedPrefix<T>(s: seq<T>, i: nat, x: T)
    requires i < |s| && x in s[..i]
    ensures x in Reversed(s)[|s| - i..]
  {
    var r := Reversed(s);
    var j :| 0 <= j < i && s[..i][j] == x;
    assert r[|s| - 1 - j] == x;
    assert r[|s| - i..][i - 1 - j] == x;
  }
}
