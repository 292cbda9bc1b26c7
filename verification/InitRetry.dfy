/** sendInitWithRetry: dial, wait half a second after each failure, give up at the deadline. */
module InitRetry {
  import opened Common

  const PAUSE: nat := 500_000_000

  /** The timeout New passes. */
  const INIT_TIMEOUT: nat := 30_000_000_000

  /** One call of sendInit: how long it takes, how late the timer after it fires, what it returns. */
  datatype Attempt = Attempt(takes: nat, lateness: nat, reply: Option<Bytes>)

  /** ceil(timeout / pause) */
  function MaxAttempts(timeout: nat): nat {
    (timeout + PAUSE - 1) / PAUSE
  }

  /** How long the first n attempts and the pauses after them take. */
  function Elapsed(attempts: nat -> Attempt, n: nat): (t: nat)
    ensures t >= n * PAUSE
  {
    if n == 0 then 0
    else
      assert n * PAUSE == (n - 1) * PAUSE + PAUSE;
      Elapsed(attempts, n - 1) + attempts(n - 1).takes + PAUSE + attempts(n - 1).lateness
  }

  /**
   attempts(k) is what the k-th attempt would do.  lag is the time between reading the clock
   for the deadline and reading it for the first test.  An attempt is made as long as the
   deadline has not passed when its turn comes, and all but the last have failed.
   */
  method SendInitWithRetry(start: int, timeout: nat, lag: nat, attempts: nat -> Attempt)
    returns (pk: Option<Bytes>, made: nat)
    ensures pk.Some? ==> made > 0 && attempts(made - 1).reply == pk
    ensures forall k: nat :: k < (if pk.Some? then made - 1 else made) ==> attempts(k).reply.None?
    ensures forall k: nat :: k < made ==> lag + Elapsed(attempts, k) < timeout
    ensures pk.None? ==> lag + Elapsed(attempts, made) >= timeout
    ensures made > 0 <==> lag < timeout
    ensures made <= MaxAttempts(timeout)
  {
    var deadline := start + timeout;
    var now := start + lag;
    made := 0;
    while now < deadline
      invariant now == start + lag + Elapsed(attempts, made)
      invariant forall k: nat :: k < made ==> attempts(k).reply.None?
      invariant forall k: nat :: k < made ==> lag + Elapsed(attempts, k) < timeout
      invariant made > 0 ==> lag < timeout
      invariant made <= MaxAttempts(timeout)
      decreases deadline - now
    {
      var a := attempts(made);
      made := made + 1;
      AttemptsBounded(made, timeout);
      if a.reply.Some? {
        return a.reply, made;
      }
      now := now + a.takes;
      now := now + PAUSE + a.lateness;
    }
    assert made == 0 ==> Elapsed(attempts, 0) == 0;
    pk := None;
  }

  lemma AttemptsBounded(made: nat, timeout: nat)
    requires made * PAUSE < timeout + PAUSE
    ensures made <= MaxAttempts(timeout)
  {
    assert timeout + PAUSE - 1 >= made * PAUSE;
  }

  lemma {:induction false} InstantFailures(attempts: nat -> Attempt, n: nat)
    requires forall k: nat :: k < n ==> attempts(k).takes == 0 && attempts(k).lateness == 0
    ensures Elapsed(attempts, n) == n * 500_000_000
  {
    if n > 0 {
      InstantFailures(attempts, n - 1);
    }
  }

  /**
   Sixty of them are made when each fails at once and no timer is late: what SendInitWithRetry
   says about a failure after made attempts then leaves no other number.
   */
  lemma SixtyWhenInstant(attempts: nat -> Attempt, made: nat)
    requires forall k: nat :: attempts(k).takes == 0 && attempts(k).lateness == 0
    requires forall k: nat :: k < made ==> Elapsed(attempts, k) < 30_000_000_000
    requires Elapsed(attempts, made) >= 30_000_000_000
    ensures made == 60
  {
    InstantFailures(attempts, 60);
    InstantFailures(attempts, made);
  }

  /** New's thirty seconds allow at most sixty attempts. */
  lemma SixtyAttempts()
    ensures MaxAttempts(INIT_TIMEOUT) == 60
  {
  }
}
