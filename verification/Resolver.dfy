/** One domain's resolution: queryDomain and resolveDomain of internal/resolver/resolver.go. */
module Resolver {
  import opened NetIP

  datatype Status = Valid | Failed | NXDomain

  /** The error of one DNS query, as the code tells them apart. */
  datatype QueryError = NoError | NameError | ServerFailure | OtherRcode | TimeoutOrIO | OtherFailure

  datatype ResolveError =
    | NoErr
    | CNAMEError
    | QueryFailed(err: QueryError)
    | ContextDone
    | ResolverClosed
    | MaxRetriesExceeded(last: ResolveError)

  datatype ResolveResult =
    ResolveResult(domain: string, ipv4: seq<Addr>, ipv6: seq<Addr>, status: Status, err: ResolveError)

  /** What the network answers to one attempt: the CNAME chase, then the A and AAAA queries. */
  datatype Answer = Answer(cnameFails: bool, a: seq<Addr>, errA: QueryError, aaaa: seq<Addr>, errAAAA: QueryError)

  /** What happens during the backoff before an attempt. */
  datatype Backoff = Elapses | CtxDone | Closed

  predicate IsRetryable(err: QueryError) {
    err == ServerFailure || err == TimeoutOrIO
  }

  predicate HasAddress(q: Answer) {
    !q.cnameFails && (|q.a| > 0 || |q.aaaa| > 0)
  }

  /** The name does not exist, or exists without addresses. */
  predicate SaysNoAddress(q: Answer) {
    && !q.cnameFails && |q.a| == |q.aaaa| == 0
    && (NameError in [q.errA, q.errAAAA] || q.errA == q.errAAAA == NoError)
  }

  /** The result of one attempt, and whether to try again. */
  function QueryDomain(domain: string, q: Answer): (r: (ResolveResult, bool))
    ensures r.0.domain == domain
    ensures r.0.status == Valid <==> HasAddress(q)
    ensures r.0.status == NXDomain <==> SaysNoAddress(q)
    ensures (r.0.ipv4, r.0.ipv6) == if HasAddress(q) then (q.a, q.aaaa) else ([], [])
    ensures r.1 <==> r.0.status == Failed && !q.cnameFails && exists e | e in [q.errA, q.errAAAA] :: IsRetryable(e)
    ensures r.1 ==> r.0.err != NoErr
  {
    if q.cnameFails then
      (ResolveResult(domain, [], [], Failed, CNAMEError), false)
    else if |q.a| > 0 || |q.aaaa| > 0 then
      (ResolveResult(domain, q.a, q.aaaa, Valid, NoErr), false)
    else if q.errA == NameError || q.errAAAA == NameError then
      (ResolveResult(domain, [], [], NXDomain, if q.errA == NoError then NoErr else QueryFailed(q.errA)), false)
    else if q.errA == NoError && q.errAAAA == NoError then
      (ResolveResult(domain, [], [], NXDomain, NoErr), false)
    else
      (ResolveResult(domain, [], [], Failed, QueryFailed(if q.errA != NoError then q.errA else q.errAAAA)),
       IsRetryable(q.errA) || IsRetryable(q.errAAAA))
  }

  /** Attempt k is made: every earlier answer asked for a retry, and every backoff up to k elapsed. */
  ghost predicate Reached(domain: string, answers: nat -> Answer, backoffs: nat -> Backoff, k: nat) {
    && (forall i: nat | i < k :: QueryDomain(domain, answers(i)).1)
    && (forall i: nat | 0 < i <= k :: backoffs(i) == Elapses)
  }

  /** resolveDomain: retry until an answer settles the matter. */
  method ResolveDomain(domain: string, retries: int, answers: nat -> Answer, backoffs: nat -> Backoff)
    returns (result: ResolveResult, attempts: nat)
    ensures result.domain == domain
    ensures result.status == Valid <==> |result.ipv4| > 0 || |result.ipv6| > 0
    ensures retries < 0 ==> attempts == 0 && result.err == MaxRetriesExceeded(NoErr)
    // the first `attempts` attempts were made; the outcome is decided by the last of them,
    // by an interruption before the next one, or by running out of retries
    ensures retries >= 0 ==> 0 < attempts <= retries + 1 && Reached(domain, answers, backoffs, attempts - 1)
    ensures retries >= 0 ==>
            var (last, again) := QueryDomain(domain, answers(attempts - 1));
            if !again then result == last
            else if attempts <= retries then
              backoffs(attempts) != Elapses && result.status == Failed
              && result.err == if backoffs(attempts) == CtxDone then ContextDone else ResolverClosed
            else result.status == Failed && result.err == MaxRetriesExceeded(last.err)
  {
    var lastErr := NoErr;
    var attempt: nat := 0;
    while attempt <= retries
      invariant attempt == 0 || attempt <= retries + 1
      invariant forall i: nat | i < attempt :: QueryDomain(domain, answers(i)).1
      invariant forall i: nat | 0 < i < attempt :: backoffs(i) == Elapses
      invariant lastErr == if attempt == 0 then NoErr else QueryDomain(domain, answers(attempt - 1)).0.err
    {
      if attempt > 0 {
        match backoffs(attempt)
        case Elapses =>
        case CtxDone =>
          return ResolveResult(domain, [], [], Failed, ContextDone), attempt;
        case Closed =>
          return ResolveResult(domain, [], [], Failed, ResolverClosed), attempt;
      }
      var (r, shouldRetry) := QueryDomain(domain, answers(attempt));
      if !shouldRetry {
        return r, attempt + 1;
      }
      lastErr := r.err;
      attempt := attempt + 1;
    }
    return ResolveResult(domain, [], [], Failed, MaxRetriesExceeded(lastErr)), attempt;
  }
}
