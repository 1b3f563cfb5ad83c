/**
  The part of java.util.BitSet that the read extraction walks: a bit set is a sequence of
  bits indexed by non-negative Java ints, so it never holds an index above
  Integer.MAX_VALUE, and nextSetBit finds the first set bit at or after an index.
 */
module BitSets {

  /** Integer.MAX_VALUE. */
  const MaxInt: nat := 0x7fff_ffff

  /** A bit set: bit `k` is set when the element at `k` is true. */
  type BitSet = bits: seq<bool> | |bits| <= MaxInt + 1

  /** BitSet.nextSetBit: the first set bit at or after `from`, or -1 when there is none. */
  function NextSetBit(bits: BitSet, from: nat): (r: int)
    ensures r == -1 || (from <= r < |bits| && bits[r])
    ensures r == -1 <==> forall k :: from <= k < |bits| ==> !bits[k]
    ensures r >= 0 ==> forall k :: from <= k < r ==> !bits[k]
    decreases |bits| - from
  {
    if from >= |bits| then -1
    else if bits[from] then from
    else NextSetBit(bits, from + 1)
  }

  /** The set bits at or after `from` and below Integer.MAX_VALUE, in increasing order. */
  function SetBitsFrom(bits: BitSet, from: nat): seq<nat>
    decreases |bits| - from
  {
    if from >= |bits| || from >= MaxInt then []
    else if bits[from] then [from] + SetBitsFrom(bits, from + 1)
    else SetBitsFrom(bits, from + 1)
  }

  /** SetBitsFrom lists exactly the set bits in [from, Integer.MAX_VALUE), each once and
      in increasing order. */
  lemma {:induction false} SetBitsFromMeaning(bits: BitSet, from: nat)
    ensures var r := SetBitsFrom(bits, from);
      && (forall x :: x in r <==> from <= x < |bits| && x < MaxInt && bits[x])
      && (forall a, b :: 0 <= a < b < |r| ==> r[a] < r[b])
    decreases |bits| - from
  {
    if from < |bits| && from < MaxInt {
      SetBitsFromMeaning(bits, from + 1);
      var rest := SetBitsFrom(bits, from + 1);
      if bits[from] {
        var r := [from] + rest;
        forall a, b | 0 <= a < b < |r| ensures r[a] < r[b] {
          assert r[b] == rest[b - 1] && rest[b - 1] in rest;
          if a > 0 {
            assert r[a] == rest[a - 1];
          }
        }
      }
    }
  }

  /** Stepping with nextSetBit enumerates SetBitsFrom: no further set bit ends it, the bit
      at Integer.MAX_VALUE ends it, and any other set bit comes first. */
  lemma {:induction false} NextSetBitEnumerates(bits: BitSet, from: nat)
    ensures NextSetBit(bits, from) == -1 ==> SetBitsFrom(bits, from) == []
    ensures NextSetBit(bits, from) == MaxInt ==> SetBitsFrom(bits, from) == []
    ensures 0 <= NextSetBit(bits, from) < MaxInt ==>
      SetBitsFrom(bits, from) == [NextSetBit(bits, from)] + SetBitsFrom(bits, NextSetBit(bits, from) + 1)
    decreases |bits| - from
  {
    if from < |bits| && from < MaxInt && !bits[from] {
      NextSetBitEnumerates(bits, from + 1);
      assert NextSetBit(bits, from) == NextSetBit(bits, from + 1);
      assert SetBitsFrom(bits, from) == SetBitsFrom(bits, from + 1);
    }
  }
}
