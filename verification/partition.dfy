/**
 * The partition loop of `spawn_check_futures`: the list of `total` candidates
 * is cut into slices `test_keys[start..end]`, one worker thread per slice.
 *
 * `Partition` is the loop as written. Its end rule `total_keys - 1` loses the
 * last candidate, and when `total % keys_per_worker >= 2` the last slice lies
 * inside the one before it. `PartitionExact` is the evidently intended loop:
 * the last slice absorbs the remainder and the loop stops there.
 */
module Partition {

  /** The half-open index range `[start, end)` handed to one worker. */
  datatype Slice = Slice(start: nat, end: nat)

  predicate Contains(s: Slice, x: nat) {
    s.start <= x < s.end
  }

  /** Some slice hands out candidate x. */
  predicate Assigned(slices: seq<Slice>, x: nat) {
    exists k :: 0 <= k < |slices| && Contains(slices[k], x)
  }

  /** No candidate is handed to two workers. */
  ghost predicate PairwiseDisjoint(slices: seq<Slice>) {
    forall j, k, x :: 0 <= j < k < |slices| && Contains(slices[j], x) ==> !Contains(slices[k], x)
  }

  /** `keys_per_worker`. */
  function KeysPerWorker(total: nat, cores: nat): (kpw: nat)
    requires 1 <= cores <= total
    ensures 1 <= kpw <= total
    ensures kpw * cores <= total < (kpw + 1) * cores
  {
    total / cores
  }

  // ---------------------------------------------------------------------------
  // The loop as written
  // ---------------------------------------------------------------------------

  /** The end the source gives a slice that starts at `start`. */
  function AsWrittenEnd(start: nat, kpw: nat, total: nat): nat
    requires 1 <= total
  {
    if start + kpw + kpw > total then total - 1 else start + kpw
  }

  /**
   * The slices the source's loop produces: starts 0, kpw, 2 kpw, ... while the
   * start is below `total`, each ending where `AsWrittenEnd` says.
   */
  predicate AsWrittenLayout(slices: seq<Slice>, total: nat, kpw: nat) {
    && 1 <= kpw <= total
    && |slices| >= 1
    && slices[0].start == 0
    && (forall k :: 0 <= k < |slices| - 1 ==> slices[k + 1].start == slices[k].start + kpw)
    && (forall k :: 0 <= k < |slices| ==> slices[k].start < total)
    && slices[|slices| - 1].start + kpw >= total
    && (forall k :: 0 <= k < |slices| ==> slices[k].end == AsWrittenEnd(slices[k].start, kpw, total))
  }

  /**
   * The partition loop of `spawn_check_futures` as written. With
   * `keys_per_worker == 0` (more cores than candidates) the source loops for
   * ever, and with `cores == 0` it divides by zero; both are excluded.
   */
  method Partition(total: nat, cores: nat) returns (slices: seq<Slice>)
    requires 1 <= cores <= total
    ensures AsWrittenLayout(slices, total, KeysPerWorker(total, cores))
  {
    var keysPerWorker := KeysPerWorker(total, cores);
    var keysAssigned := 0;
    slices := [];
    while keysAssigned < total
      invariant |slices| == 0 <==> keysAssigned == 0
      invariant |slices| > 0 ==> slices[0].start == 0 && keysAssigned == slices[|slices| - 1].start + keysPerWorker
      invariant forall k :: 0 <= k < |slices| - 1 ==> slices[k + 1].start == slices[k].start + keysPerWorker
      invariant forall k :: 0 <= k < |slices| ==> slices[k].start < total
      invariant forall k :: 0 <= k < |slices| ==>
                  slices[k].end == AsWrittenEnd(slices[k].start, keysPerWorker, total)
      decreases total - keysAssigned
    {
      var start := keysAssigned;
      keysAssigned := keysAssigned + keysPerWorker;
      var end := if keysAssigned + keysPerWorker > total then total - 1 else keysAssigned;
      slices := slices + [Slice(start, end)];
    }
  }

  /** The k-th slice starts at k * keys_per_worker. */
  lemma {:induction false} AsWrittenStarts(slices: seq<Slice>, total: nat, kpw: nat, k: nat)
    requires AsWrittenLayout(slices, total, kpw)
    requires k < |slices|
    ensures slices[k].start == k * kpw
  {
    if k > 0 {
      AsWrittenStarts(slices, total, kpw, k - 1);
      assert slices[k].start == slices[k - 1].start + kpw;
    }
  }

  /** The loop runs ceil(total / keys_per_worker) times. */
  lemma AsWrittenCount(slices: seq<Slice>, total: nat, kpw: nat)
    requires AsWrittenLayout(slices, total, kpw)
    ensures (|slices| - 1) * kpw < total <= |slices| * kpw
  {
    AsWrittenStarts(slices, total, kpw, |slices| - 1);
  }

  /** Every slice is a well-formed range inside the list that stops short of its last index. */
  lemma AsWrittenBounds(slices: seq<Slice>, total: nat, kpw: nat)
    requires AsWrittenLayout(slices, total, kpw)
    ensures forall k :: 0 <= k < |slices| ==> slices[k].start <= slices[k].end <= total - 1
  {
  }

  /** Walks forward to the slice that holds x. */
  lemma {:induction false} AsWrittenFind(slices: seq<Slice>, total: nat, kpw: nat, x: nat, k: nat)
    returns (j: nat)
    requires AsWrittenLayout(slices, total, kpw)
    requires k < |slices| && slices[k].start <= x < total - 1
    ensures k <= j < |slices| && Contains(slices[j], x)
    decreases |slices| - k
  {
    if k + 1 < |slices| && slices[k + 1].start <= x {
      j := AsWrittenFind(slices, total, kpw, x, k + 1);
    } else {
      j := k;
    }
  }

  /**
   * Coverage of the loop as written: exactly the candidates 0 .. total-2 are
   * handed out, so the last candidate (the all-0xFF scratch value) is checked
   * by no worker.
   */
  lemma AsWrittenCoverage(slices: seq<Slice>, total: nat, kpw: nat, x: nat)
    requires AsWrittenLayout(slices, total, kpw)
    ensures Assigned(slices, x) <==> x < total - 1
  {
    if x < total - 1 {
      var j := AsWrittenFind(slices, total, kpw, x, 0);
    }
  }

  /** Division with remainder is unique: t == q * kpw + r with 0 <= r < kpw fixes t % kpw. */
  lemma ModUnique(t: nat, kpw: nat, q: nat, r: nat)
    requires r < kpw && t == q * kpw + r
    ensures t % kpw == r
  {
    var q0, r0 := t / kpw, t % kpw;
    assert t == q0 * kpw + r0;
    if q0 > q {
      assert (q + 1) * kpw == q * kpw + kpw;
      MulMonotone(q + 1, q0, kpw);
    } else if q0 < q {
      assert (q0 + 1) * kpw == q0 * kpw + kpw;
      MulMonotone(q0 + 1, q, kpw);
    }
  }

  /**
   * The remainder `total % keys_per_worker` is what the last slice's start
   * leaves of the list, unless that is a whole share.
   */
  lemma AsWrittenRemainder(slices: seq<Slice>, total: nat, kpw: nat)
    requires AsWrittenLayout(slices, total, kpw)
    ensures var last := slices[|slices| - 1].start;
            total % kpw == if last + kpw == total then 0 else total - last
  {
    var n := |slices|;
    var last := slices[n - 1].start;
    AsWrittenStarts(slices, total, kpw, n - 1);
    if last + kpw == total {
      assert total == n * kpw + 0;
      ModUnique(total, kpw, n, 0);
    } else {
      ModUnique(total, kpw, n - 1, total - last);
    }
  }

  /**
   * Overlap of the loop as written: when `total % keys_per_worker >= 2`, the
   * last two slices both hand out candidate total-2.
   */
  lemma AsWrittenOverlap(slices: seq<Slice>, total: nat, kpw: nat)
    requires AsWrittenLayout(slices, total, kpw)
    requires total % kpw >= 2
    ensures |slices| >= 2
    ensures Contains(slices[|slices| - 2], total - 2) && Contains(slices[|slices| - 1], total - 2)
  {
    AsWrittenRemainder(slices, total, kpw);
    var n := |slices|;
    assert slices[n - 1].start == slices[n - 2].start + kpw;
  }

  /** Slice starts never decrease. */
  lemma {:induction false} AsWrittenStartsIncrease(slices: seq<Slice>, total: nat, kpw: nat, j: nat, k: nat)
    requires AsWrittenLayout(slices, total, kpw)
    requires j <= k < |slices|
    ensures slices[j].start <= slices[k].start
    decreases k - j
  {
    if j < k {
      AsWrittenStartsIncrease(slices, total, kpw, j + 1, k);
      assert slices[j + 1].start == slices[j].start + kpw;
    }
  }

  /** When `total % keys_per_worker <= 1`, no slice reaches into the next one. */
  lemma AsWrittenAdjacent(slices: seq<Slice>, total: nat, kpw: nat, k: nat)
    requires AsWrittenLayout(slices, total, kpw)
    requires total % kpw <= 1
    requires k < |slices| - 1
    ensures slices[k].end <= slices[k + 1].start
  {
    AsWrittenRemainder(slices, total, kpw);
    var n := |slices|;
    assert slices[k + 1].start == slices[k].start + kpw;
    if k + 1 < n - 1 {
      assert slices[k + 2].start == slices[k + 1].start + kpw;
    }
  }

  /** When `total % keys_per_worker <= 1`, no candidate goes to two workers. */
  lemma AsWrittenDisjoint(slices: seq<Slice>, total: nat, kpw: nat)
    requires AsWrittenLayout(slices, total, kpw)
    requires total % kpw <= 1
    ensures PairwiseDisjoint(slices)
  {
    forall j, k, x | 0 <= j < k < |slices| && Contains(slices[j], x) ensures !Contains(slices[k], x) {
      AsWrittenAdjacent(slices, total, kpw, j);
      AsWrittenStartsIncrease(slices, total, kpw, j + 1, k);
    }
  }

  /** The slices of the loop as written are disjoint exactly when `total % keys_per_worker <= 1`. */
  lemma AsWrittenDisjointIff(slices: seq<Slice>, total: nat, kpw: nat)
    requires AsWrittenLayout(slices, total, kpw)
    ensures PairwiseDisjoint(slices) <==> total % kpw <= 1
  {
    if total % kpw <= 1 {
      AsWrittenDisjoint(slices, total, kpw);
    } else {
      AsWrittenOverlap(slices, total, kpw);
      var n := |slices|;
      assert 0 <= n - 2 < n - 1 < n && Contains(slices[n - 2], total - 2);
    }
  }

  /** How many candidates the slices hand out, a candidate in two slices counted twice. */
  function HandedOut(slices: seq<Slice>): int {
    if slices == [] then 0 else slices[0].end - slices[0].start + HandedOut(slices[1..])
  }

  /**
   * Slices that each end where the next one starts hand out, from slice j up
   * to slice m, exactly the candidates between their starts.
   */
  lemma {:induction false} HandedOutTelescopes(slices: seq<Slice>, j: nat, m: nat)
    requires j <= m < |slices|
    requires forall k :: j <= k < m ==> slices[k].end == slices[k + 1].start
    ensures HandedOut(slices[j..]) == slices[m].start - slices[j].start + HandedOut(slices[m..])
    decreases m - j
  {
    if j < m {
      HandedOutTelescopes(slices, j + 1, m);
      assert slices[j..][1..] == slices[j + 1..];
    }
  }

  /** A slice of the loop as written that is followed by two more, or by a last one starting a whole share before the end, is full. */
  lemma AsWrittenFullSlice(slices: seq<Slice>, total: nat, kpw: nat, k: nat)
    requires AsWrittenLayout(slices, total, kpw)
    requires k + 2 < |slices| || (k + 2 == |slices| && slices[k + 1].start + kpw == total)
    ensures slices[k].end == slices[k + 1].start
  {
    assert slices[k + 1].start == slices[k].start + kpw;
    if k + 2 < |slices| {
      assert slices[k + 2].start == slices[k + 1].start + kpw;
    }
  }

  /**
   * What the last slices of the loop as written hand out: the last one alone
   * when it starts a whole share before the end, otherwise the last two,
   * both of which end at total - 1.
   */
  lemma AsWrittenTail(slices: seq<Slice>, total: nat, kpw: nat)
    requires AsWrittenLayout(slices, total, kpw)
    ensures var n, last := |slices|, slices[|slices| - 1].start;
            && (last + kpw == total ==> HandedOut(slices[n - 1..]) == total - 1 - last)
            && (last + kpw != total ==>
                  n >= 2 && HandedOut(slices[n - 2..]) == (total - 1 - slices[n - 2].start) + (total - 1 - last))
  {
    var n := |slices|;
    var tail := slices[n - 1..];
    assert tail[1..] == [];
    assert HandedOut(tail) == tail[0].end - tail[0].start + HandedOut(tail[1..]);
    assert tail[0].end == total - 1;
    if slices[n - 1].start + kpw != total {
      if n == 1 {
        assert false;
      }
      var tail2 := slices[n - 2..];
      assert slices[n - 1].start == slices[n - 2].start + kpw;
      assert tail2[1..] == tail;
      assert HandedOut(tail2) == tail2[0].end - tail2[0].start + HandedOut(tail);
    }
  }

  /**
   * What the loop as written hands out in total: one candidate short of the
   * list when `total % keys_per_worker == 0`, and `total + r - 2` otherwise,
   * where r is the remainder. So with r >= 3 more candidates are handed out
   * than there are.
   */
  lemma AsWrittenHandedOut(slices: seq<Slice>, total: nat, kpw: nat)
    requires AsWrittenLayout(slices, total, kpw)
    ensures HandedOut(slices) == if total % kpw == 0 then total - 1 else total + total % kpw - 2
  {
    AsWrittenRemainder(slices, total, kpw);
    AsWrittenTail(slices, total, kpw);
    var n := |slices|;
    var last := slices[n - 1].start;
    var m := if last + kpw == total then n - 1 else n - 2;
    forall k | 0 <= k < m ensures slices[k].end == slices[k + 1].start {
      AsWrittenFullSlice(slices, total, kpw, k);
    }
    HandedOutTelescopes(slices, 0, m);
    assert slices[0..] == slices;
    if last + kpw == total {
      assert total % kpw == 0;
      assert HandedOut(slices) == last + (total - 1 - last);
    } else {
      assert total % kpw == total - last;
      assert HandedOut(slices) == slices[n - 2].start + (total - 1 - slices[n - 2].start) + (total - 1 - last);
    }
  }

  /** Multiplying by the same factor keeps the order. */
  lemma MulMonotone(a: nat, b: nat, c: nat)
    requires a <= b
    ensures a * c <= b * c
  {
  }

  // ---------------------------------------------------------------------------
  // The corrected loop
  // ---------------------------------------------------------------------------

  /**
   * Slices that tile [0, total): they start at 0, each begins where the one
   * before ended, none is empty and the last ends at `total`.
   */
  predicate Tiling(slices: seq<Slice>, total: nat) {
    && |slices| >= 1
    && slices[0].start == 0
    && (forall k :: 0 <= k < |slices| - 1 ==> slices[k].end == slices[k + 1].start)
    && (forall k :: 0 <= k < |slices| ==> slices[k].start < slices[k].end)
    && slices[|slices| - 1].end == total
  }

  /**
   * The slices the corrected loop has produced once `boundary` candidates are
   * handed out: they tile [0, boundary) and all but the newest hold `kpw`.
   */
  ghost predicate TilingPrefix(slices: seq<Slice>, boundary: nat, kpw: nat) {
    && (|slices| == 0 <==> boundary == 0)
    && (|slices| > 0 ==> slices[0].start == 0 && slices[|slices| - 1].end == boundary)
    && (forall k :: 0 <= k < |slices| - 1 ==> slices[k].end == slices[k + 1].start)
    && (forall k :: 0 <= k < |slices| ==> slices[k].start < slices[k].end)
    && (forall k :: 0 <= k < |slices| - 1 ==> slices[k].end - slices[k].start == kpw)
  }

  /** Appending a non-empty slice at the boundary, after a full one, extends the prefix. */
  lemma ExtendTilingPrefix(slices: seq<Slice>, boundary: nat, kpw: nat, end: nat)
    requires TilingPrefix(slices, boundary, kpw)
    requires |slices| > 0 ==> slices[|slices| - 1].end - slices[|slices| - 1].start == kpw
    requires boundary < end
    ensures TilingPrefix(slices + [Slice(boundary, end)], end, kpw)
  {
    var slices' := slices + [Slice(boundary, end)];
    forall k | 0 <= k < |slices'| - 1 ensures slices'[k].end == slices'[k + 1].start {
      if k < |slices| - 1 {
        assert slices'[k + 1] == slices[k + 1];
      }
    }
  }

  /**
   * The partition with the evidently intended boundary: every slice but the
   * last holds `keys_per_worker` candidates, the last absorbs the remainder
   * (between one and two shares) and ends at `total`.
   */
  method PartitionExact(total: nat, cores: nat) returns (slices: seq<Slice>)
    requires 1 <= cores <= total
    ensures Tiling(slices, total)
    ensures forall k :: 0 <= k < |slices| - 1 ==>
              slices[k].end - slices[k].start == KeysPerWorker(total, cores)
    ensures KeysPerWorker(total, cores) <= slices[|slices| - 1].end - slices[|slices| - 1].start
                                        < 2 * KeysPerWorker(total, cores)
  {
    var keysPerWorker := KeysPerWorker(total, cores);
    var keysAssigned := 0;
    slices := [];
    while keysAssigned < total
      invariant keysAssigned <= total
      invariant TilingPrefix(slices, keysAssigned, keysPerWorker)
      invariant keysAssigned < total ==> keysAssigned + keysPerWorker <= total
      invariant |slices| > 0 ==> keysPerWorker <= slices[|slices| - 1].end - slices[|slices| - 1].start
      invariant keysAssigned < total && |slices| > 0 ==>
                  slices[|slices| - 1].end - slices[|slices| - 1].start == keysPerWorker
      invariant keysAssigned == total ==>
                  slices[|slices| - 1].end - slices[|slices| - 1].start < 2 * keysPerWorker
      decreases total - keysAssigned
    {
      var start := keysAssigned;
      var next := keysAssigned + keysPerWorker;
      var end := if next + keysPerWorker > total then total else next;
      ExtendTilingPrefix(slices, start, keysPerWorker, end);
      slices := slices + [Slice(start, end)];
      keysAssigned := end;
    }
  }

  /** In a tiling, earlier slices end no later than later ones start. */
  lemma {:induction false} TilingOrdered(slices: seq<Slice>, total: nat, j: nat, k: nat)
    requires Tiling(slices, total)
    requires j < k < |slices|
    ensures slices[j].end <= slices[k].start
    decreases k - j
  {
    if j + 1 < k {
      TilingOrdered(slices, total, j + 1, k);
    }
  }

  /** Walks forward to the slice of a tiling that holds x. */
  lemma {:induction false} TilingFind(slices: seq<Slice>, total: nat, x: nat, k: nat) returns (j: nat)
    requires Tiling(slices, total)
    requires k < |slices| && slices[k].start <= x < total
    ensures k <= j < |slices| && Contains(slices[j], x)
    decreases |slices| - k
  {
    if x < slices[k].end {
      j := k;
    } else {
      j := TilingFind(slices, total, x, k + 1);
    }
  }

  /** A tiling hands every candidate 0 .. total-1 to exactly one worker and nothing else. */
  lemma TilingAssignsEachOnce(slices: seq<Slice>, total: nat)
    requires Tiling(slices, total)
    ensures forall x: nat :: Assigned(slices, x) <==> x < total
    ensures PairwiseDisjoint(slices)
  {
    forall x: nat | x < total ensures Assigned(slices, x) {
      var j := TilingFind(slices, total, x, 0);
    }
    forall x: nat | Assigned(slices, x) ensures x < total {
      var k :| 0 <= k < |slices| && Contains(slices[k], x);
      if k < |slices| - 1 {
        TilingOrdered(slices, total, k, |slices| - 1);
      }
    }
    forall j, k, x | 0 <= j < k < |slices| && Contains(slices[j], x) ensures !Contains(slices[k], x) {
      TilingOrdered(slices, total, j, k);
    }
  }
}
