/**
 * The generation half of `spawn_check_futures`: starting from an all-zero
 * scratch buffer, every value of the counter is spliced into the template key,
 * the all-zero value first and then one candidate per successful increment.
 */
module Enumeration {
  import opened LittleEndian
  import RangeCounter
  import Assembler

  /**
   * `total_keys` as the start-up code computes it, 2^(8n). The source works in
   * `u8` and `u128`, so n * 8 and the power only stay in range for n < 16.
   */
  function TotalKeys(numScratchBytes: Byte): (total: nat)
    requires numScratchBytes < 16
    ensures total == Pow256(numScratchBytes)
    ensures total <= Pow2(120)
  {
    Pow256IsPow2(numScratchBytes);
    Pow2Monotone(8 * numScratchBytes, 120);
    Pow2(8 * numScratchBytes)
  }

  /** The i-th candidate of the enumeration: the key with the n-byte encoding of i spliced in. */
  function Candidate(partialKey: seq<Byte>, numScratchBytes: nat, start: nat, end: nat, i: nat): seq<Byte>
    requires Assembler.SpliceFits(|partialKey|, numScratchBytes, start, end)
  {
    Assembler.Splice(partialKey, Encode(i, numScratchBytes), start, end)
  }

  /** The candidates of the counter values 0 .. count-1, in counter order. */
  function Candidates(partialKey: seq<Byte>, numScratchBytes: nat, start: nat, end: nat, count: nat): (cs: seq<seq<Byte>>)
    requires Assembler.SpliceFits(|partialKey|, numScratchBytes, start, end)
    ensures |cs| == count
  {
    seq(count, i requires 0 <= i < count => Candidate(partialKey, numScratchBytes, start, end, i))
  }

  /** Splicing a scratch buffer in gives the candidate of the value the buffer denotes. */
  lemma CandidateOfScratch(partialKey: seq<Byte>, scratch: seq<Byte>, start: nat, end: nat)
    requires Assembler.SpliceFits(|partialKey|, |scratch|, start, end)
    ensures Assembler.Splice(partialKey, scratch, start, end) == Candidate(partialKey, |scratch|, start, end, Value(scratch))
  {
    EncodeOfValue(scratch);
  }

  /**
   * The loop that fills `test_keys`: the all-zero candidate is pushed before
   * the loop, then one candidate after each successful increment, until the
   * counter reports the end of the search space. The result lists the
   * candidates for 0, 1, ..., 256^n - 1 in that order.
   */
  method EnumerateCandidates(partialKey: seq<Byte>, numScratchBytes: Byte, start: Byte, end: Byte)
    returns (testKeys: seq<seq<Byte>>)
    requires Assembler.SpliceFits(|partialKey|, numScratchBytes, start, end)
    ensures |testKeys| == Pow256(numScratchBytes)
    ensures forall i :: 0 <= i < |testKeys| ==>
              testKeys[i] == Candidate(partialKey, numScratchBytes, start, end, i)
  {
    var n: nat := numScratchBytes;
    var scratchBits := RangeCounter.NewScratch(n);
    ZerosIsEncodeZero(n);
    var first := Assembler.OverwriteScratchBits(partialKey, scratchBits[..], start, end);
    CandidateOfScratch(partialKey, scratchBits[..], start, end);
    testKeys := [first];
    assert testKeys == Candidates(partialKey, n, start, end, 1);
    while true
      invariant scratchBits.Length == n
      invariant 1 <= |testKeys| && Value(scratchBits[..]) == |testKeys| - 1
      invariant testKeys == Candidates(partialKey, n, start, end, |testKeys|)
      decreases Pow256(n) - |testKeys|
    {
      var ok := RangeCounter.Increment(scratchBits);
      if !ok {
        break;
      }
      var scratch := scratchBits[..];
      var testKeyBytes := Assembler.OverwriteScratchBits(partialKey, scratch, start, end);
      CandidateOfScratch(partialKey, scratch, start, end);
      assert testKeys + [testKeyBytes] == Candidates(partialKey, n, start, end, |testKeys| + 1);
      testKeys := testKeys + [testKeyBytes];
    }
  }

  /** When the scratch buffer is exactly as long as the range, distinct counter values give distinct candidates. */
  lemma CandidatesDistinct(partialKey: seq<Byte>, start: nat, end: nat, i: nat, j: nat)
    requires start <= end <= |partialKey|
    requires i < Pow256(end - start) && j < Pow256(end - start)
    ensures Candidate(partialKey, end - start, start, end, i) == Candidate(partialKey, end - start, start, end, j)
            <==> i == j
  {
    var n := end - start;
    Assembler.SpliceInjective(partialKey, Encode(i, n), Encode(j, n), start, end);
    if Encode(i, n) == Encode(j, n) {
      EncodeInjective(i, j, n);
    }
  }

  /** A list holding the candidates 0 .. 256^n - 1 in order, n the length of the range, has no repeated key. */
  lemma CandidateListDistinct(partialKey: seq<Byte>, start: nat, end: nat, testKeys: seq<seq<Byte>>)
    requires start <= end <= |partialKey|
    requires |testKeys| == Pow256(end - start)
    requires forall i :: 0 <= i < |testKeys| ==> testKeys[i] == Candidate(partialKey, end - start, start, end, i)
    ensures forall i, j :: 0 <= i < j < |testKeys| ==> testKeys[i] != testKeys[j]
  {
    forall i, j | 0 <= i < j < |testKeys| ensures testKeys[i] != testKeys[j] {
      CandidatesDistinct(partialKey, start, end, i, j);
    }
  }

  /**
   * The enumeration misses nothing: every key that agrees with the template
   * outside [start, end) is the candidate of some counter value below 256^n.
   */
  lemma CandidatesExhaustive(partialKey: seq<Byte>, start: nat, end: nat, key: seq<Byte>) returns (i: nat)
    requires start <= end <= |partialKey|
    requires |key| == |partialKey|
    requires forall k :: 0 <= k < |key| && !(start <= k < end) ==> key[k] == partialKey[k]
    ensures i < Pow256(end - start) && key == Candidate(partialKey, end - start, start, end, i)
  {
    var scratch := key[start..end];
    i := Value(scratch);
    EncodeOfValue(scratch);
    var c := Candidate(partialKey, end - start, start, end, i);
    assert forall k :: 0 <= k < |key| ==> c[k] == key[k];
    assert c == key;
  }

  /**
   * The whole enumeration, for a scratch buffer as long as the range: exactly
   * `total_keys` candidates, pairwise distinct, and every key that agrees with
   * the template outside the range among them.
   */
  lemma EnumerationIsExhaustive(partialKey: seq<Byte>, start: Byte, end: Byte, testKeys: seq<seq<Byte>>)
    requires start <= end <= |partialKey| && end - start < 16
    requires |testKeys| == Pow256(end - start)
    requires forall i :: 0 <= i < |testKeys| ==> testKeys[i] == Candidate(partialKey, end - start, start, end, i)
    ensures |testKeys| == TotalKeys(end - start)
    ensures forall i, j :: 0 <= i < j < |testKeys| ==> testKeys[i] != testKeys[j]
    ensures forall key :: |key| == |partialKey| &&
                          (forall k :: 0 <= k < |key| && !(start <= k < end) ==> key[k] == partialKey[k])
                          ==> key in testKeys
  {
    CandidateListDistinct(partialKey, start, end, testKeys);
    forall key | |key| == |partialKey| &&
                 (forall k :: 0 <= k < |key| && !(start <= k < end) ==> key[k] == partialKey[k])
      ensures key in testKeys
    {
      var i := CandidatesExhaustive(partialKey, start, end, key);
      assert testKeys[i] == key;
    }
  }
}
