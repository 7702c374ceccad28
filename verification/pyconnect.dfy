/**
 The connection check in StrmGenerator's constructor: at most `retryTimes`
 calls of client.check, stopping at the first success. The outcomes of the
 successive calls are a parameter.
 */
module PyConnect {

  /** What the n-th call of client.check(remote_path) does. */
  datatype CheckOutcome =
    | Exists            // returns True
    | Missing           // returns False: the constructor raises ConnectionException itself
    | ConnectionLost    // raises ConnectionException
    | Raises(error: string) // raises any other exception, which is not caught

  datatype Connection =
    | Connected(attempts: nat)            // the loop broke after this many calls
    | GaveUp(attempts: nat)               // ConnectionException("多次重连失败") from the loop's else branch
    | Propagated(error: string, attempts: nat)

  /** Outcomes the loop catches and retries after. */
  predicate Retried(o: CheckOutcome) {
    o.Missing? || o.ConnectionLost?
  }

  /** Every one of the first `n` calls was retried. */
  ghost predicate RetriedBefore(check: nat -> CheckOutcome, n: nat) {
    forall j: nat :: j < n ==> Retried(check(j))
  }

  /**
   The while/else loop: call check until it succeeds or raises something
   other than ConnectionException; after `retryTimes` retried calls, give up.
   */
  method Connect(retryTimes: int, check: nat -> CheckOutcome) returns (c: Connection)
    ensures c.attempts <= if retryTimes < 0 then 0 else retryTimes
    ensures c.Connected? ==> c.attempts >= 1 && check(c.attempts - 1).Exists? && RetriedBefore(check, c.attempts - 1)
    ensures c.Propagated? ==> c.attempts >= 1 && check(c.attempts - 1) == Raises(c.error)
                              && RetriedBefore(check, c.attempts - 1)
    ensures c.GaveUp? <==> (retryTimes <= 0 || RetriedBefore(check, retryTimes))
    ensures c.GaveUp? ==> c.attempts == if retryTimes < 0 then 0 else retryTimes
  {
    var q: nat := 0;
    while q < retryTimes
      invariant RetriedBefore(check, q)
      invariant retryTimes >= 0 ==> q <= retryTimes
      invariant retryTimes < 0 ==> q == 0
    {
      match check(q)
      case Exists =>
        return Connected(q + 1);
      case Raises(e) =>
        return Propagated(e, q + 1);
      case _ =>
        q := q + 1;
    }
    return GaveUp(q);
  }
}
