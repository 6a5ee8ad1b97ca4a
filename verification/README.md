# partial-eth-key-cracker: a Dafny model of the search engine

partial-eth-key-cracker recovers an Ethereum private key of which only some
bytes are unknown. It takes a template key, padded to full length, and a byte
range `[start, end)` that holds the unknown bytes. It enumerates every value of
that range with a little-endian ripple counter, splices each value into the
template, and splits the resulting candidate list among worker threads. Each
worker then either compares the derived address with a known one, or sends it
to an actor that asks a full node for the balance. The actor (`CheckKeys`)
counts checked keys and prints a rate every five seconds. It resends a failed
balance query after a random delay below ten seconds, and halts the process
when it finds a funded address.

This project models the sequential core of `src/main.rs`:

- `bytes.dfy` (module `LittleEndian`): byte buffers as little-endian numbers
  (`Value`, `Encode`, `Pow256`), and `zeros`.
- `counter.dfy` (module `RangeCounter`): `increment_vec_uint`, as an in-place
  method on an `array<Byte>` proved against the function `Incremented`.
- `assembler.dfy` (module `Assembler`): `overwirite_scratch_bits`, as a copy
  loop proved equal to the function `Splice`.
- `enumeration.dfy` (module `Enumeration`): the loop that fills `test_keys`,
  and `total_keys`.
- `partition.dfy` (module `Partition`): the loop that cuts `test_keys` into
  worker slices, both as written (`Partition`) and corrected (`PartitionExact`).
- `workerpool.dfy` (module `WorkerPool`): the per-worker copies
  `test_keys[start..end]`, and the whole generation thread up to the workers,
  both as written (`AssignWork`) and with the corrected partition
  (`AssignWorkExact`).
- `progress.dfy` (module `Progress`): the `CheckKeys` actor state, a class with
  the `Count` and `Tick` handlers.
- `verification.dfy` (module `Verification`): the decision the `CheckBalance`
  handler takes on the oracle's reply, and the retry chain it sets up.

Two behaviours of the source are modelled as written:

- `Tick` divides the keys counted since the previous tick by the whole seconds
  elapsed (src/main.rs:113-115) without a guard. A caller would expect a tick
  that comes less than a second after the previous one to be skipped; the
  source divides by zero instead. `CheckKeys.Tick` therefore requires at
  least one whole second since the previous tick.
- A slice whose next share would run past the end of the list ends at
  `total_keys - 1` (src/main.rs:185-186). The evident intent is that the last
  slice takes the remainder and ends at `total_keys`, so that every candidate
  reaches exactly one worker. The model proves what the source does, and
  proves the intended property of a corrected loop; see Findings.

Clock readings are parameters. An instant is a nanosecond reading of a
monotonic clock. The oracle's reply and the random retry delay are parameters
too; the delay is constrained to `[0, 10000)`.

## Model

| member | source | states |
|---|---|---|
| LittleEndian.Zeros | src/main.rs:255-257 | `zeros(size)` is a buffer of exactly `size` bytes, each 0 |
| LittleEndian.ZerosIsEncodeZero | src/main.rs:255-257 | the all-zero buffer is the n-byte encoding of 0 and has value 0, so the enumeration starts at the smallest counter value |
| LittleEndian.Value | src/main.rs:242-253 | the number a buffer denotes (first byte least significant) is below 256^n |
| LittleEndian.ValueOfEncode | src/main.rs:242-253 | reading back the n-byte encoding of any v < 256^n gives v |
| LittleEndian.EncodeOfValue | src/main.rs:242-253 | encoding the value of any buffer gives the buffer back, so buffers and numbers below 256^n correspond one to one |
| LittleEndian.AllMaxIsLargest | src/main.rs:248-252 | a buffer of all-255 bytes denotes 256^n - 1, the largest value |
| LittleEndian.Pow256IsPow2 | src/main.rs:316-317 | 256^n = 2^(8n): the search-space size counted in bytes equals the `2^(n*8)` the start-up code computes |
| RangeCounter.Incremented | src/main.rs:243-253 | one increment keeps the buffer's length |
| RangeCounter.IncrementedAfterCarry | src/main.rs:244-252 | if bytes 0..i-1 are 255 and byte i is below 255, the call succeeds: bytes 0..i-1 become 0, byte i gains 1, later bytes are untouched; if every byte is 255 it fails with every byte 0 |
| RangeCounter.IncrementedValue | src/main.rs:243-253 | the increment succeeds exactly when the value is below 256^n - 1 (both directions); the buffer then holds value + 1, and 0 after a failure |
| RangeCounter.IncrementFailsAtMaximum | src/main.rs:248-252 | the call fails exactly when every byte is 255, the empty buffer included, and it then leaves every byte 0 |
| RangeCounter.ScanMatchesIncremented | src/main.rs:244-252 | a buffer whose bytes before i went from 255 to 0, with byte i raised by one and the rest untouched (success) or with the scan past the end (failure), is exactly the result of `Incremented` |
| RangeCounter.IncrementEncoding | src/main.rs:243-253 | incrementing the encoding of v yields the encoding of v + 1, or fails when v = 256^n - 1 |
| RangeCounter.Increment | src/main.rs:243-253 | the in-place method leaves the array equal to `Incremented` of its old contents, and returns `Ok` exactly when the old value was below 256^n - 1; the new value is old + 1 on success and 0 on failure |
| Assembler.Splice | src/main.rs:260-268 | the candidate has the key's length, holds `scratch[i - start]` at every i in [start, end), and holds `key[i]` everywhere else |
| Assembler.SpliceInjective | src/main.rs:260-268 | for a fixed key and range, two scratch buffers as long as the range give the same candidate exactly when they are equal |
| Assembler.OverwriteScratchBits | src/main.rs:260-268 | the clone-and-overwrite loop returns exactly `Splice(key, scratch, start, end)`; key and scratch are values and stay unchanged |
| Enumeration.TotalKeys | src/main.rs:313-317 | `total_keys = 2^(8n)` equals 256^n and fits in `u128` for n < 16 |
| Enumeration.EnumerateCandidates | src/main.rs:162-173 | starting from `zeros(n)`, the loop pushes exactly 256^n candidates, and the i-th is the template with the n-byte encoding of i spliced in |
| Enumeration.CandidatesDistinct | src/main.rs:162-173 | when the scratch buffer is as long as the range, candidates i and j below 256^n are equal exactly when i = j |
| Enumeration.CandidateListDistinct | src/main.rs:162-173 | a list holding the candidates 0 .. 256^n - 1 in order, with n the length of the range, has no repeated key |
| Enumeration.CandidatesExhaustive | src/main.rs:162-173 | every key that agrees with the template outside [start, end) is the candidate of some counter value below 256^n |
| Enumeration.EnumerationIsExhaustive | src/main.rs:162-175 | the enumerated list has `total_keys` elements, which are pairwise distinct, and contains every key that agrees with the template outside the range |
| Partition.KeysPerWorker | src/main.rs:176 | for 1 <= cores <= total, `keys_per_worker` lies in [1, total] and is the floor of total / cores |
| Partition.Partition | src/main.rs:175-190 | the loop as written yields slices starting at 0 and then kpw apart, with every start below total and the last start + kpw >= total; each ends at `total - 1` when start + 2 kpw > total, and at start + kpw otherwise |
| Partition.AsWrittenStarts | src/main.rs:182-184 | the k-th slice starts at k * keys_per_worker |
| Partition.AsWrittenCount | src/main.rs:182-184 | the loop makes ceil(total / keys_per_worker) slices: (N-1) kpw < total <= N kpw |
| Partition.AsWrittenBounds | src/main.rs:185-190 | every slice satisfies start <= end <= total - 1, so `test_keys[start..end]` never panics |
| Partition.AsWrittenCoverage | src/main.rs:182-190 | exactly the indices 0 .. total-2 are handed to some worker: the last candidate never is |
| Partition.AsWrittenOverlap | src/main.rs:182-190 | when total % keys_per_worker >= 2, the last two slices both contain index total - 2 |
| Partition.AsWrittenDisjoint | src/main.rs:182-190 | when total % keys_per_worker <= 1, no index lies in two slices |
| Partition.AsWrittenDisjointIff | src/main.rs:182-190 | the slices as written are pairwise disjoint exactly when total % keys_per_worker <= 1 |
| Partition.PartitionExact | src/main.rs:175-190 | the corrected loop tiles [0, total): first start 0, each slice non-empty and starting where the previous ended, the last ending at total; every slice but the last holds kpw candidates, the last between kpw and 2 kpw - 1 |
| Partition.TilingAssignsEachOnce | src/main.rs:175-190 | a tiling hands index x to some worker exactly when x < total, and to no two workers |
| WorkerPool.Batches | src/main.rs:190 | there is one worker list per slice, each as long as its slice |
| WorkerPool.TilingHandsOutEverything | src/main.rs:190 | with the corrected partition, the worker lists concatenated in order are the whole candidate list |
| WorkerPool.AsWrittenLosesLastCandidate | src/main.rs:185-190 | with the partition as written and distinct candidates, the last candidate is in no worker's list |
| Partition.AsWrittenHandedOut | src/main.rs:182-190 | the slices as written hand out total - 1 candidates (counted with repeats) when total % kpw = 0, and total + total % kpw - 2 otherwise: more than there are when the remainder is at least 3 |
| WorkerPool.BatchesHandOut | src/main.rs:190 | the worker lists together are exactly as long as the slices hand out |
| WorkerPool.CopyBatches | src/main.rs:190 | the copy loop builds one list per slice, in slice order, each equal to `test_keys[start..end]` |
| WorkerPool.AssignWork | src/main.rs:162-190 | the generation thread as written enumerates the 256^n candidates in counter order, partitions them with the loop as written and copies out each slice; index total - 1 is in no slice, so when the scratch length is end - start the last candidate is in no worker's list, and the lists hold total - 1 candidates when total % kpw = 0 and total + total % kpw - 2 otherwise |
| WorkerPool.AssignWorkExact | src/main.rs:162-190 | the generation thread with the corrected partition: the slices tile [0, total) and the worker lists, concatenated in order, are exactly the enumeration |
| Progress.ElapsedSeconds | src/main.rs:113 | `as_secs()` is the whole number of seconds between the two instants, rounded down |
| Progress.Rate | src/main.rs:115 | the reported rate avg satisfies avg * secs <= checked < (avg + 1) * secs, i.e. the floor of keys per second |
| Progress.CheckKeys.constructor | src/main.rs:332-336 | the actor starts with count 0, max = total_keys, history = (start-up instant, 0), and its invariant history.1 <= count holds |
| Progress.CheckKeys.Count | src/main.rs:134-137 | `Count` raises `count` by exactly 1, changes nothing else, and keeps history.1 <= count |
| Progress.CheckKeys.Tick | src/main.rs:111-122 | with at least one elapsed second, `Tick` returns (count - history.1) / elapsed seconds, sets history to (second clock reading, count), leaves count and max alone, and keeps history.1 <= count, so the subtraction never underflows |
| Verification.Decide | src/main.rs:61-96 | a nonzero balance is the found case and reports this request's key and address; a zero balance (and only that) sends one `Count`; an error resends the identical request after a delay below 10000 ms |
| Verification.Resolve | src/main.rs:73-92 | a chain of resends ends with fewer retries than replies and waits at most 9999 ms per retry; a found outcome reports the original request's key and address; a chain still pending carries the original request and has used every reply |
| Verification.FailKTimesThenAnswer | src/main.rs:73-92 | a query that fails exactly k times and then answers is resolved after exactly k resends, having waited the sum of the first k delays; the outcome is what that answer decides for the original request |

## Left out

- Actor runtime, mailbox and timer: the actix actor system, the mailbox capacity of 1000 and the five-second `run_interval` (src/main.rs:30-36). Also left out: `Arbiter::spawn` and the futures and `Delay` chain that carry the balance query (src/main.rs:61-98). Only the decision taken on the reply is modelled.
- Threads: the generation thread, one thread per slice, and the final `join` (src/main.rs:161, 194, 234-238). The model is sequential.
- The worker loop body (src/main.rs:195-229). Key derivation with `PrivateKey::from_slice` and `to_public_key` is foreign elliptic-curve code. In known-address mode a worker sends one `Count` per candidate and then compares the derived address with the known one (src/main.rs:222-227); that comparison needs the derived address, so it is left out with the derivation. Only the number of `Count` messages is modelled, as the length of the worker lists. The blocking `send().wait()` retry with a five-second sleep in remote mode is concurrency and timing. The model stops at the per-worker lists.
- `wait_for_memory_pressure` (src/main.rs:273-282) reads system memory and compares an `f32` ratio. It never samples memory again inside its loop, so once over the threshold it would sleep forever.
- The `f32` progress ratio (src/main.rs:114) and all printed output. The ratio is a fraction, although it is printed as a percentage.
- Command-line parsing, hex decoding, address parsing and the start-up checks (src/main.rs:284-366). Only `total_keys` and the actor's initial state are modelled from `main`.
- Partition.Partition: requires 1 <= cores <= total. With `cores == 0` the source divides by zero. With more cores than candidates, `keys_per_worker` is 0 and the source's loop never ends.
- Progress.CheckKeys.Count: `count` is unbounded. The source's `u128` would overflow only after 2^128 messages. The class keeps no invariant `count <= max`, because the source does not: in known-address mode the workers send one `Count` per candidate they receive, and with the partition as written that is `total_keys + r - 2` candidates, which exceeds `max` when r >= 3 (see Findings).
- Assembler.OverwriteScratchBits: requires the range to lie inside the key and the scratch buffer to cover it. `main` only checks that the key has at least 32 bytes (src/main.rs:324), while `end_index / 2` can be as large as 127. With `end` past the key's length, `key[index]` (src/main.rs:264) panics in the generation thread, and the process then idles in the actor system with nothing left to check. The panic is not modelled. `Enumeration.EnumerateCandidates` and the `WorkerPool.AssignWork` methods carry the same requirement.
- Enumeration.TotalKeys: requires fewer than 16 scratch bytes. From 16 bytes on, `2u128.pow(n * 8)` (src/main.rs:317) overflows `u128`, and from 32 bytes on `num_scratch_bytes * 8` overflows `u8`. The model does not describe what the source does then.
- Progress.CheckKeys.Tick: requires at least one elapsed second, because the source divides by zero otherwise. It also requires the clock not to go backwards, because `Instant` subtraction then panics.
- Enumeration.EnumerateCandidates: the unbounded `nat` lengths do not model the memory the source needs to hold 256^n candidates.
- Sizes are unbounded `nat`s (`usize`, `u16` cores, `u128` counters), except where the source's `u8` matters: buffer bytes, `start`, `end` and the scratch length.

## Findings

| source | as written | input that shows it | evidently intended | confidence | as-written member | corrected member |
|---|---|---|---|---|---|---|
| src/main.rs:185-186 | a slice whose next share would pass the end of the list ends at `total_keys - 1`, so index `total_keys - 1` is never handed to a worker | remote mode (one core), one scratch byte: total 256, single slice [0, 255); the candidate with scratch byte 0xFF is never checked | the last slice ends at `total_keys` and the loop stops there | high (not executed) | Partition.AsWrittenCoverage | Partition.PartitionExact |
| src/main.rs:182-189 | the loop goes on after the slice that ends at `total_keys - 1`; when `total_keys % keys_per_worker >= 2` the extra slice lies inside the previous one | known-address mode, one scratch byte, 6 cores: total 256, keys_per_worker 42, slices [0,42), ..., [168,210), [210,255), [252,255); candidates 252-254 are checked twice and 255 never | each candidate goes to exactly one worker | high (not executed) | Partition.AsWrittenOverlap | Partition.TilingAssignsEachOnce |
| src/main.rs:182-190 | the slices as written hand out `total_keys + r - 2` candidates, r being `total_keys % keys_per_worker` (when r > 0); in known-address mode each is counted with one `Count` (src/main.rs:223) | known-address mode, one scratch byte, 6 cores: r = 4, the workers receive 258 candidates and send 258 `Count` messages while `max` is 256, so the printed progress passes 1 | the workers receive exactly the `total_keys` candidates, and the count ends at `max` | high (not executed) | Partition.AsWrittenHandedOut | WorkerPool.AssignWorkExact |
