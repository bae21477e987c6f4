/** The polling loop (src/finality/mod.rs, wait_for_finality): is_final every two seconds until a timeout. */
module Polling {
  import opened Common
  import opened Chain
  import opened Finality
  import opened Window

  /** Times are in milliseconds. */
  const SLEEP: nat := 2000

  datatype WaitResult = Finalized | TimedOut(retryCount: nat) | Failed(error: FinalityError)

  /** The verdict of each poll, and the time elapsed when the loop looks at the clock after it. */
  type Verdicts = nat -> Result<bool, FinalityError>
  type Clock = nat -> nat

  ghost predicate SleepsFully(elapsed: Clock) {
    forall k: nat :: elapsed(k) + SLEEP <= elapsed(k + 1)
  }

  ghost predicate KeptWaiting(verdict: Verdicts, elapsed: Clock, timeout: nat, k: nat) {
    verdict(k) == Ok(false) && elapsed(k) <= timeout
  }

  /** The outcome of a wait whose last poll is number `polls`, after that many sleeps. */
  ghost predicate Outcome(verdict: Verdicts, elapsed: Clock, timeout: nat, polls: nat, r: WaitResult) {
    && (forall k: nat | k < polls :: KeptWaiting(verdict, elapsed, timeout, k))
    && match r
       case Finalized => verdict(polls) == Ok(true)
       case Failed(e) => verdict(polls) == Err(e)
       case TimedOut(n) => n == polls && verdict(polls) == Ok(false) && elapsed(polls) > timeout
  }

  method WaitForFinality(verdict: Verdicts, elapsed: Clock, timeout: nat) returns (r: WaitResult, polls: nat)
    requires SleepsFully(elapsed)
    ensures Outcome(verdict, elapsed, timeout, polls, r)
    ensures polls <= timeout / 2000 + 1
  {
    var retryCount: nat := 0;
    while true
      invariant forall k: nat | k < retryCount :: KeptWaiting(verdict, elapsed, timeout, k)
      invariant retryCount * SLEEP <= elapsed(retryCount)
      invariant retryCount > 0 ==> (retryCount - 1) * SLEEP <= timeout
      decreases timeout - elapsed(retryCount)
    {
      match verdict(retryCount)
      case Err(e) =>
        return Failed(e), retryCount;
      case Ok(final) =>
        if final {
          return Finalized, retryCount;
        }
        if elapsed(retryCount) > timeout {
          return TimedOut(retryCount), retryCount;
        }
        assert elapsed(retryCount) + SLEEP <= elapsed(retryCount + 1);
        retryCount := retryCount + 1;
    }
  }

  /** A wait has one outcome. */
  lemma OutcomeUnique(verdict: Verdicts, elapsed: Clock, timeout: nat, m: nat, r: WaitResult, n: nat, q: WaitResult)
    requires Outcome(verdict, elapsed, timeout, m, r) && Outcome(verdict, elapsed, timeout, n, q)
    ensures m == n && r == q
  {
    assert !KeptWaiting(verdict, elapsed, timeout, m) && !KeptWaiting(verdict, elapsed, timeout, n);
  }

  /** The bound on the sleeps is reached when the verdict stays false and each sleep lasts exactly two seconds. */
  lemma BoundReached(verdict: Verdicts, elapsed: Clock, timeout: nat, polls: nat, r: WaitResult)
    requires forall k: nat :: verdict(k) == Ok(false) && elapsed(k) == k * 2000
    requires Outcome(verdict, elapsed, timeout, polls, r)
    ensures r == TimedOut(timeout / 2000 + 1)
  {
    var last := timeout / SLEEP + 1;
    assert !KeptWaiting(verdict, elapsed, timeout, last) && !KeptWaiting(verdict, elapsed, timeout, polls);
  }

  /** The polls of one wait, poll `i` reading the client at `calls(i)`. */
  ghost function VerdictsOf(env: Env, p: Params, c: Config, hs: History, ref: BlockRef,
                            calls: nat -> CallReads): Verdicts
    requires forall i: nat :: CallInRange(calls(i), |hs|)
  {
    (i: nat) => if CallInRange(calls(i), |hs|) then IsFinal(env, p, c, hs, ref, calls(i)) else Ok(false)
  }

  /** A successful wait reports a block that stays finalized with its confirmations. */
  lemma WaitSound(env: Env, p: Params, c: Config, hs: History, ref: BlockRef, calls: nat -> CallReads,
                  elapsed: Clock, timeout: nat, polls: nat, k: nat)
    requires IsHistory(env.ledger, hs) && c.minConfirmations >= 1
    requires forall i: nat :: CallInRange(calls(i), |hs|) && CallInOrder(calls(i))
    requires Outcome(VerdictsOf(env, p, c, hs, ref, calls), elapsed, timeout, polls, Finalized)
    requires calls(polls).best <= k < |hs|
    ensures ref.number + c.minConfirmations <= hs[k].finalizedNumber
  {
    VerdictSound(env, p, c, hs, ref, calls(polls), k);
  }

  /** A wait begun after the height window has closed can only fail or run into its timeout. */
  lemma WaitHopeless(env: Env, p: Params, c: Config, hs: History, ref: BlockRef, start: nat, calls: nat -> CallReads,
                     elapsed: Clock, timeout: nat, polls: nat, r: WaitResult)
    requires IsHistory(env.ledger, hs) && BestRises(hs)
    requires forall i: nat :: CallInRange(calls(i), |hs|) && start <= calls(i).best
    requires ref.hash in env.ledger.headers && start < |hs|
    requires hs[start].bestNumber > env.ledger.headers[ref.hash].number + 50
    requires Outcome(VerdictsOf(env, p, c, hs, ref, calls), elapsed, timeout, polls, r)
    ensures r != Finalized
  {
    WindowCloses(env, p, c, hs, ref, start, calls(polls));
  }
}
