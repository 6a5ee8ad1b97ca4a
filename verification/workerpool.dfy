/**
 * Handing the candidate list to the workers of `spawn_check_futures`: each
 * worker thread receives the copy `test_keys[start..end]` of its slice.
 */
module WorkerPool {
  import opened LittleEndian
  import Assembler
  import Enumeration
  import Partition

  /** Slices that each lie inside a list of `length` elements. */
  predicate SlicesWithin(slices: seq<Partition.Slice>, length: nat) {
    forall k :: 0 <= k < |slices| ==> slices[k].start <= slices[k].end <= length
  }

  /** The per-worker lists `thread_keys`, one per slice. */
  function Batches<T>(testKeys: seq<T>, slices: seq<Partition.Slice>): (batches: seq<seq<T>>)
    requires SlicesWithin(slices, |testKeys|)
    ensures |batches| == |slices|
    ensures forall k :: 0 <= k < |slices| ==> |batches[k]| == slices[k].end - slices[k].start
  {
    seq(|slices|, k requires 0 <= k < |slices| => testKeys[slices[k].start..slices[k].end])
  }

  /** All workers' lists, one after the other. */
  function Flatten<T>(batches: seq<seq<T>>): seq<T> {
    if batches == [] then [] else batches[0] + Flatten(batches[1..])
  }

  /** Contiguous slices hand out, in order, exactly the elements from the first start to the last end. */
  lemma {:induction false} ContiguousBatchesFlatten<T>(testKeys: seq<T>, slices: seq<Partition.Slice>)
    requires |slices| >= 1
    requires SlicesWithin(slices, |testKeys|)
    requires forall k :: 0 <= k < |slices| - 1 ==> slices[k].end == slices[k + 1].start
    ensures slices[0].start <= slices[|slices| - 1].end
    ensures Flatten(Batches(testKeys, slices)) == testKeys[slices[0].start..slices[|slices| - 1].end]
  {
    var batches := Batches(testKeys, slices);
    if |slices| == 1 {
      assert Flatten(batches) == batches[0] + Flatten(batches[1..]);
      assert batches[1..] == [];
    } else {
      ContiguousBatchesFlatten(testKeys, slices[1..]);
      assert batches[1..] == Batches(testKeys, slices[1..]);
      var s0, s1, e := slices[0].start, slices[1].start, slices[|slices| - 1].end;
      assert slices[0].end == s1;
      assert testKeys[s0..s1] + testKeys[s1..e] == testKeys[s0..e];
    }
  }

  /** With the corrected partition, the workers between them receive every candidate exactly once, in order. */
  lemma TilingHandsOutEverything<T>(testKeys: seq<T>, slices: seq<Partition.Slice>)
    requires Partition.Tiling(slices, |testKeys|)
    ensures SlicesWithin(slices, |testKeys|)
    ensures Flatten(Batches(testKeys, slices)) == testKeys
  {
    forall k | 0 <= k < |slices| ensures slices[k].start <= slices[k].end <= |testKeys| {
      if k < |slices| - 1 {
        Partition.TilingOrdered(slices, |testKeys|, k, |slices| - 1);
      }
    }
    ContiguousBatchesFlatten(testKeys, slices);
  }

  /**
   * With the partition as written and pairwise distinct candidates (which the
   * enumeration produces), the last candidate is in no worker's list.
   */
  lemma AsWrittenLosesLastCandidate<T>(testKeys: seq<T>, slices: seq<Partition.Slice>, kpw: nat)
    requires Partition.AsWrittenLayout(slices, |testKeys|, kpw)
    requires forall i, j :: 0 <= i < j < |testKeys| ==> testKeys[i] != testKeys[j]
    ensures SlicesWithin(slices, |testKeys|)
    ensures forall k :: 0 <= k < |slices| ==> testKeys[|testKeys| - 1] !in Batches(testKeys, slices)[k]
  {
    var total := |testKeys|;
    Partition.AsWrittenBounds(slices, total, kpw);
    forall k | 0 <= k < |slices| ensures testKeys[total - 1] !in Batches(testKeys, slices)[k] {
      var s := slices[k];
      forall i | 0 <= i < s.end - s.start ensures testKeys[s.start..s.end][i] != testKeys[total - 1] {
        assert s.start + i < total - 1;
      }
    }
  }

  /** The workers' lists together are as long as the slices hand out. */
  lemma {:induction false} BatchesHandOut<T>(testKeys: seq<T>, slices: seq<Partition.Slice>)
    requires SlicesWithin(slices, |testKeys|)
    ensures |Flatten(Batches(testKeys, slices))| == Partition.HandedOut(slices)
  {
    if slices != [] {
      BatchesHandOut(testKeys, slices[1..]);
      assert Batches(testKeys, slices)[1..] == Batches(testKeys, slices[1..]);
    }
  }

  /** The copies `test_keys[start..end].iter().cloned().collect()`, one per slice, in slice order. */
  method CopyBatches<T>(testKeys: seq<T>, slices: seq<Partition.Slice>) returns (threadKeys: seq<seq<T>>)
    requires SlicesWithin(slices, |testKeys|)
    ensures threadKeys == Batches(testKeys, slices)
  {
    threadKeys := [];
    for k := 0 to |slices|
      invariant threadKeys == Batches(testKeys, slices)[..k]
    {
      threadKeys := threadKeys + [testKeys[slices[k].start..slices[k].end]];
    }
    assert threadKeys == Batches(testKeys, slices);
  }

  /**
   * The generation thread of `spawn_check_futures` up to the spawning of the
   * workers, as written: enumerate every candidate, partition with the end
   * rule `total_keys - 1` and copy out each worker's list. Index
   * `total_keys - 1` is in no slice, so with a scratch buffer as long as the
   * range (as `main` sets it up) the last candidate reaches no worker, and the
   * lists together hold `total_keys - 1` candidates when the remainder r of
   * `total_keys / keys_per_worker` is 0, and `total_keys + r - 2` otherwise.
   */
  method AssignWork(partialKey: seq<Byte>, numScratchBytes: Byte, start: Byte, end: Byte, cores: nat)
    returns (testKeys: seq<seq<Byte>>, slices: seq<Partition.Slice>, threadKeys: seq<seq<seq<Byte>>>)
    requires Assembler.SpliceFits(|partialKey|, numScratchBytes, start, end)
    requires 1 <= cores <= Pow256(numScratchBytes)
    ensures |testKeys| == Pow256(numScratchBytes)
    ensures forall i :: 0 <= i < |testKeys| ==>
              testKeys[i] == Enumeration.Candidate(partialKey, numScratchBytes, start, end, i)
    ensures Partition.AsWrittenLayout(slices, |testKeys|, Partition.KeysPerWorker(|testKeys|, cores))
    ensures SlicesWithin(slices, |testKeys|) && threadKeys == Batches(testKeys, slices)
    ensures !Partition.Assigned(slices, |testKeys| - 1)
    ensures numScratchBytes == end - start ==>
              forall k :: 0 <= k < |threadKeys| ==> testKeys[|testKeys| - 1] !in threadKeys[k]
    ensures var total, kpw := |testKeys|, Partition.KeysPerWorker(|testKeys|, cores);
            |Flatten(threadKeys)| == if total % kpw == 0 then total - 1 else total + total % kpw - 2
  {
    testKeys := Enumeration.EnumerateCandidates(partialKey, numScratchBytes, start, end);
    var total := |testKeys|;
    slices := Partition.Partition(total, cores);
    var kpw := Partition.KeysPerWorker(total, cores);
    Partition.AsWrittenBounds(slices, total, kpw);
    Partition.AsWrittenCoverage(slices, total, kpw, total - 1);
    threadKeys := CopyBatches(testKeys, slices);
    BatchesHandOut(testKeys, slices);
    Partition.AsWrittenHandedOut(slices, total, kpw);
    if numScratchBytes == end - start && start < end {
      Enumeration.CandidateListDistinct(partialKey, start, end, testKeys);
      AsWrittenLosesLastCandidate(testKeys, slices, kpw);
    }
  }

  /**
   * The same thread with the corrected partition: every candidate of the
   * enumeration reaches exactly one worker, in enumeration order.
   */
  method AssignWorkExact(partialKey: seq<Byte>, numScratchBytes: Byte, start: Byte, end: Byte, cores: nat)
    returns (testKeys: seq<seq<Byte>>, slices: seq<Partition.Slice>, threadKeys: seq<seq<seq<Byte>>>)
    requires Assembler.SpliceFits(|partialKey|, numScratchBytes, start, end)
    requires 1 <= cores <= Pow256(numScratchBytes)
    ensures |testKeys| == Pow256(numScratchBytes)
    ensures forall i :: 0 <= i < |testKeys| ==>
              testKeys[i] == Enumeration.Candidate(partialKey, numScratchBytes, start, end, i)
    ensures Partition.Tiling(slices, |testKeys|)
    ensures SlicesWithin(slices, |testKeys|) && threadKeys == Batches(testKeys, slices)
    ensures Flatten(threadKeys) == testKeys
  {
    testKeys := Enumeration.EnumerateCandidates(partialKey, numScratchBytes, start, end);
    slices := Partition.PartitionExact(|testKeys|, cores);
    TilingHandsOutEverything(testKeys, slices);
    threadKeys := CopyBatches(testKeys, slices);
  }
}
