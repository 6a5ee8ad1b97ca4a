/**
 * The `CheckBalance` handler of the `CheckKeys` actor, reduced to the decision
 * it takes once the balance query has answered. The query itself, the
 * futures that carry it and the timer are not modelled: the oracle's answer
 * and the random retry delay are inputs.
 */
module Verification {
  import opened LittleEndian

  /** Retry delays are drawn uniformly from [0, RETRY_WINDOW_MS) milliseconds. */
  const RETRY_WINDOW_MS: nat := 10000

  /** A `CheckBalance` message: the candidate private key, its derived address and the full node to ask. */
  datatype CheckBalance = CheckBalance(privateKey: seq<Byte>, address: seq<Byte>, fullNode: string)

  /** What `eth_get_balance` delivered: a balance in wei, or an error of any kind. */
  datatype BalanceReply = Balance(amount: nat) | QueryError

  /** What the handler does with the reply. */
  datatype Outcome =
    | Found(privateKey: seq<Byte>, address: seq<Byte>)  // funds found: the key is reported and the process halts
    | CountChecked                                       // empty account: one `Count` message to the actor
    | Resend(request: CheckBalance, delayMs: nat)        // failure: the request is sent again after the delay

  /**
   * The outcome of one balance query for `msg`: a nonzero balance is the
   * terminal found case, a zero balance is counted once, and any error makes
   * the handler resend the very same request after `jitterMs` milliseconds.
   */
  function Decide(msg: CheckBalance, reply: BalanceReply, jitterMs: nat): (o: Outcome)
    requires jitterMs < RETRY_WINDOW_MS
    ensures o.Found? <==> reply.Balance? && reply.amount != 0
    ensures o.Found? ==> o.privateKey == msg.privateKey && o.address == msg.address
    ensures o.CountChecked? <==> reply == Balance(0)
    ensures o.Resend? ==> o.request == msg && o.delayMs < RETRY_WINDOW_MS
  {
    match reply
    case Balance(amount) => if amount != 0 then Found(msg.privateKey, msg.address) else CountChecked
    case QueryError => Resend(msg, jitterMs)
  }

  /** The fate of one request handled again and again: its final outcome, how often it was resent and the delay spent waiting. */
  datatype Resolution = Resolution(final: Outcome, retries: nat, waitedMs: nat)

  predicate DelaysInWindow(jittersMs: seq<nat>) {
    forall i :: 0 <= i < |jittersMs| ==> jittersMs[i] < RETRY_WINDOW_MS
  }

  /**
   * The retry chain of one request: `replies[i]` is the oracle's answer to the
   * i-th attempt and `jittersMs[i]` the delay drawn if that attempt fails.
   * The chain stops at the first answer or when the replies run out. Every
   * resend carries the original request, so the final outcome is about it, and
   * each retry waits less than RETRY_WINDOW_MS.
   */
  function Resolve(msg: CheckBalance, replies: seq<BalanceReply>, jittersMs: seq<nat>): (r: Resolution)
    requires |replies| >= 1 && |jittersMs| == |replies|
    requires DelaysInWindow(jittersMs)
    ensures r.retries < |replies|
    ensures r.waitedMs <= r.retries * (RETRY_WINDOW_MS - 1)
    ensures r.final.Found? ==> r.final.privateKey == msg.privateKey && r.final.address == msg.address
    ensures r.final.Resend? ==> r.final.request == msg && r.retries == |replies| - 1
    decreases |replies|
  {
    var o := Decide(msg, replies[0], jittersMs[0]);
    if o.Resend? && |replies| > 1 then
      var rest := Resolve(o.request, replies[1..], jittersMs[1..]);
      Resolution(rest.final, rest.retries + 1, rest.waitedMs + o.delayMs)
    else
      Resolution(o, 0, 0)
  }

  /** The sum of a sequence of delays. */
  function Total(delaysMs: seq<nat>): nat {
    if delaysMs == [] then 0 else delaysMs[0] + Total(delaysMs[1..])
  }

  /**
   * A query that fails exactly k times and then answers is resolved once,
   * after exactly k resends, having waited the sum of the first k delays; the
   * answer decides it as a single query would.
   */
  lemma {:induction false} FailKTimesThenAnswer(msg: CheckBalance, replies: seq<BalanceReply>, jittersMs: seq<nat>, k: nat)
    requires |replies| == k + 1 && |jittersMs| == k + 1
    requires DelaysInWindow(jittersMs)
    requires forall i :: 0 <= i < k ==> replies[i] == QueryError
    requires replies[k].Balance?
    ensures Resolve(msg, replies, jittersMs).retries == k
    ensures Resolve(msg, replies, jittersMs).waitedMs == Total(jittersMs[..k])
    ensures Resolve(msg, replies, jittersMs).final ==
              if replies[k].amount == 0 then CountChecked else Found(msg.privateKey, msg.address)
  {
    if k > 0 {
      FailKTimesThenAnswer(msg, replies[1..], jittersMs[1..], k - 1);
      assert jittersMs[1..][..k - 1] == jittersMs[..k][1..];
    }
  }
}
