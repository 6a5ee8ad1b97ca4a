/**
 * The candidate assembler `overwirite_scratch_bits`: a copy of the template
 * key whose bytes [start, end) are replaced by the scratch counter's bytes.
 */
module Assembler {
  import opened LittleEndian

  /**
   * What the copy loop needs in order not to index out of bounds: when the
   * range is not empty, it lies inside the key and the scratch buffer has a
   * byte for each of its positions. An empty or reversed range writes nothing.
   */
  predicate SpliceFits(keyLength: nat, scratchLength: nat, start: nat, end: nat) {
    start < end ==> end <= keyLength && end - start <= scratchLength
  }

  /** The candidate built from `key` and `scratch`. */
  function Splice(key: seq<Byte>, scratch: seq<Byte>, start: nat, end: nat): (candidate: seq<Byte>)
    requires SpliceFits(|key|, |scratch|, start, end)
    ensures |candidate| == |key|
    ensures forall i :: 0 <= i < |key| ==>
              candidate[i] == if start <= i < end then scratch[i - start] else key[i]
  {
    if start < end then key[..start] + scratch[..end - start] + key[end..] else key
  }

  /**
   * For a fixed key and range, a scratch buffer exactly as long as the range
   * determines the candidate and is determined by it: distinct scratch values
   * give distinct candidates.
   */
  lemma SpliceInjective(key: seq<Byte>, s1: seq<Byte>, s2: seq<Byte>, start: nat, end: nat)
    requires start <= end <= |key|
    requires |s1| == end - start && |s2| == end - start
    ensures Splice(key, s1, start, end) == Splice(key, s2, start, end) <==> s1 == s2
  {
    if Splice(key, s1, start, end) == Splice(key, s2, start, end) {
      forall i | 0 <= i < |s1| ensures s1[i] == s2[i] {
        assert Splice(key, s1, start, end)[start + i] == s1[i];
        assert Splice(key, s2, start, end)[start + i] == s2[i];
      }
    }
  }

  /**
   * `overwirite_scratch_bits`: clones the key and writes the scratch bytes
   * over positions start..end-1 one by one. The inputs are values, so they
   * are left as they were, as the source's borrowed `&Vec<u8>` are.
   */
  method OverwriteScratchBits(key: seq<Byte>, scratch: seq<Byte>, start: Byte, end: Byte)
    returns (candidate: seq<Byte>)
    requires SpliceFits(|key|, |scratch|, start, end)
    ensures candidate == Splice(key, scratch, start, end)
  {
    var count := 0;
    candidate := key;
    var index := start;
    while index < end
      invariant index == start || start < index <= end
      invariant count == index - start
      invariant |candidate| == |key|
      invariant forall i :: 0 <= i < |key| ==>
                  candidate[i] == if start <= i < index then scratch[i - start] else key[i]
    {
      candidate := candidate[index := scratch[count]];
      count := count + 1;
      index := index + 1;
    }
    assert forall i :: 0 <= i < |key| ==> candidate[i] == Splice(key, scratch, start, end)[i];
  }
}
