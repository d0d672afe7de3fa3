/**
 The add-or-get protocol of the database-backed memoization store. A caller
 offers a candidate record for a strong fingerprint; the store reads the
 current record and its replacement token, rejects a single-phase mixing,
 decides whether the candidate supersedes the record, and if so tries a
 compare-exchange against the token it read. A lost exchange restarts the
 attempt; everything else ends the call.

 The database and the content session are the environment: attempt `k`
 sees `env(k)`, the read result, the availability answer and the outcome of
 the compare-exchange (if one is issued). The determinism type's
 `ShouldBeReplacedWith` is the `policy` parameter.
 */
module DatabaseMemoizationStore {
  import opened Wrappers
  import opened MemoizationTypes

  /** The database read: the record and its token, or a failure. */
  datatype ReadResult =
    | ReadSucceeded(info: ContentHashListWithDeterminism, token: ReplacementToken)
    | ReadFailed(message: string)

  /** The compare-exchange: applied, lost to a stale token, or failed (and thrown). */
  datatype ExchangeOutcome = Exchanged | Lost | ExchangeFailed(message: string)

  /** What one attempt observes of the database and the content session. */
  datatype Observation = Observation(read: ReadResult, contentAvailable: bool, exchange: ExchangeOutcome)

  type Environment = nat -> Observation

  /** The result codes of add-or-get; `Error` also carries a failed operation's message. */
  datatype AddOrGetResult =
    | Success(value: ContentHashListWithDeterminism)
    | SinglePhaseMixingError
    | InvalidToolDeterminismError(existing: ContentHashListWithDeterminism)
    | Error(message: string)

  /** The end of one attempt: start the next one, or return. */
  datatype Step = Retry | Done(result: AddOrGetResult)

  /** The initial value of the attempt counter, tested with a post-decrement `>= 0`. */
  const MaxAttempts: int := 5

  const TooManyRacesMessage: string := "Hit too many races attempting to add content hash list into the cache"

  /** The stored record and token of an attempt: a failed read counts as no record and the empty token. */
  function OldRecord(read: ReadResult): (ContentHashListWithDeterminism, ReplacementToken)
  {
    match read
    case ReadSucceeded(info, token) => (info, token)
    case ReadFailed(_) => (NoRecord, EmptyToken)
  }

  /** A stored record exists and disagrees with the candidate on the single-phase flag. */
  predicate PhaseMismatch(stored: ContentHashListWithDeterminism, candidate: ContentHashListWithDeterminism)
  {
    stored.contentHashList.Some?
    && stored.determinism.isSinglePhaseNonDeterministic != candidate.determinism.isSinglePhaseNonDeterministic
  }

  /**
   The replacement decision: no record, a better determinism, or content of
   the record no longer available. The availability answer is the last
   disjunct, so it matters only when the first two are false.
   */
  predicate ShouldReplace(
    stored: ContentHashListWithDeterminism, candidate: ContentHashListWithDeterminism,
    contentAvailable: bool, policy: ReplacementPolicy)
  {
    stored.contentHashList.None? || policy(stored.determinism, candidate.determinism) || !contentAvailable
  }

  /** What a caller whose candidate became current receives: no list, the candidate's determinism. */
  function Accepted(candidate: ContentHashListWithDeterminism): ContentHashListWithDeterminism
  {
    ContentHashListWithDeterminism(None, candidate.determinism)
  }

  /**
   The outcomes of one attempt, stated case by case: which step each
   combination of observations justifies.
   */
  ghost predicate Justifies(
    candidate: ContentHashListWithDeterminism, obs: Observation, policy: ReplacementPolicy, step: Step)
  {
    var stored := OldRecord(obs.read).0;
    var mixing := PhaseMismatch(stored, candidate);
    var replacing := !mixing && ShouldReplace(stored, candidate, obs.contentAvailable, policy);
    var keeping := !mixing && !replacing;
    match step
    case Retry => replacing && obs.exchange == Lost
    case Done(SinglePhaseMixingError) => mixing
    case Done(Error(message)) => replacing && obs.exchange == ExchangeFailed(message)
    case Done(InvalidToolDeterminismError(existing)) =>
      keeping && stored.contentHashList != candidate.contentHashList
      && candidate.determinism.isDeterministicTool && existing == stored
    case Done(Success(value)) =>
      || (replacing && obs.exchange == Exchanged && value == Accepted(candidate))
      || (keeping && stored.contentHashList == candidate.contentHashList
          && value == ContentHashListWithDeterminism(None, stored.determinism))
      || (keeping && stored.contentHashList != candidate.contentHashList
          && !candidate.determinism.isDeterministicTool && value == stored)
  }

  /** One pass of the loop body: read, check the phase, decide, exchange or classify. */
  function Attempt(
    candidate: ContentHashListWithDeterminism, obs: Observation, policy: ReplacementPolicy): (step: Step)
    ensures Justifies(candidate, obs, policy, step)
  {
    var stored := OldRecord(obs.read).0;
    if PhaseMismatch(stored, candidate) then
      Done(SinglePhaseMixingError)
    else if ShouldReplace(stored, candidate, obs.contentAvailable, policy) then
      match obs.exchange
      case Exchanged => Done(Success(Accepted(candidate)))
      case Lost => Retry
      case ExchangeFailed(message) => Done(Error(message))
    else if stored.contentHashList == candidate.contentHashList then
      Done(Success(ContentHashListWithDeterminism(None, stored.determinism)))
    else if candidate.determinism.isDeterministicTool then
      Done(InvalidToolDeterminismError(stored))
    else
      Done(Success(stored))
  }

  /** The loop with the counter as the source keeps it: attempt `MaxAttempts - counter` runs while `counter >= 0`. */
  function Loop(
    candidate: ContentHashListWithDeterminism, env: Environment, policy: ReplacementPolicy, counter: int): AddOrGetResult
    requires counter <= MaxAttempts
    decreases counter + 1
  {
    if counter >= 0 then
      match Attempt(candidate, env(MaxAttempts - counter), policy)
      case Retry => Loop(candidate, env, policy, counter - 1)
      case Done(result) => result
    else
      Error(TooManyRacesMessage)
  }

  /** `AddOrGetContentHashListAsync` as a function of the environment. */
  function AddOrGet(
    candidate: ContentHashListWithDeterminism, env: Environment, policy: ReplacementPolicy): AddOrGetResult
  {
    Loop(candidate, env, policy, MaxAttempts)
  }

  /**
   The retry loop as written, `maxAttempts = 5; while (maxAttempts-- >= 0)`.
   It runs between one and six attempts; all but the last lost their
   exchange, and the last either decided the result or also lost, after
   which the result is the too-many-races error.
   */
  method AddOrGetContentHashList(
    candidate: ContentHashListWithDeterminism, env: Environment, policy: ReplacementPolicy)
    returns (r: AddOrGetResult, attempts: nat)
    ensures r == AddOrGet(candidate, env, policy)
    ensures 1 <= attempts <= MaxAttempts + 1
    ensures forall j :: 0 <= j < attempts - 1 ==> Attempt(candidate, env(j), policy) == Retry
    ensures r == match Attempt(candidate, env(attempts - 1), policy)
                 case Done(result) => result
                 case Retry => Error(TooManyRacesMessage)
    ensures Attempt(candidate, env(attempts - 1), policy) == Retry ==> attempts == MaxAttempts + 1
  {
    var maxAttempts := MaxAttempts;
    attempts := 0;
    var proceed := maxAttempts >= 0;
    maxAttempts := maxAttempts - 1;
    var last := Retry;
    while proceed
      invariant 0 <= attempts <= MaxAttempts + 1
      invariant maxAttempts == MaxAttempts - 1 - attempts
      invariant proceed <==> attempts <= MaxAttempts
      invariant attempts > 0 ==> last == Attempt(candidate, env(attempts - 1), policy) && last == Retry
      invariant forall j :: 0 <= j < attempts ==> Attempt(candidate, env(j), policy) == Retry
      invariant Loop(candidate, env, policy, MaxAttempts - attempts) == AddOrGet(candidate, env, policy)
      decreases MaxAttempts + 1 - attempts
    {
      last := Attempt(candidate, env(attempts), policy);
      attempts := attempts + 1;
      if last.Done? {
        r := last.result;
        return;
      }
      proceed := maxAttempts >= 0;
      maxAttempts := maxAttempts - 1;
    }
    r := Error(TooManyRacesMessage);
  }

  /** The loop returns the result of the first attempt that does not lose its exchange. */
  lemma {:induction false} LoopFirstDecision(
    candidate: ContentHashListWithDeterminism, env: Environment, policy: ReplacementPolicy, counter: int, k: nat)
    requires counter <= MaxAttempts && MaxAttempts - counter <= k <= MaxAttempts
    requires forall j :: MaxAttempts - counter <= j < k ==> Attempt(candidate, env(j), policy) == Retry
    requires Attempt(candidate, env(k), policy).Done?
    ensures Loop(candidate, env, policy, counter) == Attempt(candidate, env(k), policy).result
    decreases counter + 1
  {
    if MaxAttempts - counter < k {
      assert Attempt(candidate, env(MaxAttempts - counter), policy) == Retry;
      LoopFirstDecision(candidate, env, policy, counter - 1, k);
    }
  }

  /** The loop gives up with the too-many-races error when every remaining attempt loses. */
  lemma {:induction false} LoopExhausted(
    candidate: ContentHashListWithDeterminism, env: Environment, policy: ReplacementPolicy, counter: int)
    requires counter <= MaxAttempts
    requires forall j :: MaxAttempts - counter <= j <= MaxAttempts ==> Attempt(candidate, env(j), policy) == Retry
    ensures Loop(candidate, env, policy, counter) == Error(TooManyRacesMessage)
    decreases counter + 1
  {
    if counter >= 0 {
      assert Attempt(candidate, env(MaxAttempts - counter), policy) == Retry;
      LoopExhausted(candidate, env, policy, counter - 1);
    }
  }

  /** Attempt `k` decides the call when every earlier attempt lost its exchange. */
  lemma AddOrGetFirstDecision(
    candidate: ContentHashListWithDeterminism, env: Environment, policy: ReplacementPolicy, k: nat)
    requires k <= MaxAttempts
    requires forall j :: 0 <= j < k ==> Attempt(candidate, env(j), policy) == Retry
    requires Attempt(candidate, env(k), policy).Done?
    ensures AddOrGet(candidate, env, policy) == Attempt(candidate, env(k), policy).result
  {
    LoopFirstDecision(candidate, env, policy, MaxAttempts, k);
  }

  /** Six lost exchanges in a row end the call with the too-many-races error. */
  lemma AddOrGetExhausted(candidate: ContentHashListWithDeterminism, env: Environment, policy: ReplacementPolicy)
    requires forall j :: 0 <= j <= MaxAttempts ==> Attempt(candidate, env(j), policy) == Retry
    ensures AddOrGet(candidate, env, policy) == Error(TooManyRacesMessage)
  {
    LoopExhausted(candidate, env, policy, MaxAttempts);
  }

  /** Only the first six attempts can influence the result. */
  lemma {:induction false} LoopUsesAtMostSixAttempts(
    candidate: ContentHashListWithDeterminism, env1: Environment, env2: Environment,
    policy: ReplacementPolicy, counter: int)
    requires counter <= MaxAttempts
    requires forall j :: 0 <= j <= MaxAttempts ==> env1(j) == env2(j)
    ensures Loop(candidate, env1, policy, counter) == Loop(candidate, env2, policy, counter)
    decreases counter + 1
  {
    if counter >= 0 {
      assert env1(MaxAttempts - counter) == env2(MaxAttempts - counter);
      LoopUsesAtMostSixAttempts(candidate, env1, env2, policy, counter - 1);
    }
  }

  lemma AddOrGetUsesAtMostSixAttempts(
    candidate: ContentHashListWithDeterminism, env1: Environment, env2: Environment, policy: ReplacementPolicy)
    requires forall j :: 0 <= j <= MaxAttempts ==> env1(j) == env2(j)
    ensures AddOrGet(candidate, env1, policy) == AddOrGet(candidate, env2, policy)
  {
    LoopUsesAtMostSixAttempts(candidate, env1, env2, policy, MaxAttempts);
  }

  /** The outcome of an attempt is exactly one of the enumerated steps: the justified step is unique. */
  lemma AttemptIsTheOnlyJustifiedStep(
    candidate: ContentHashListWithDeterminism, obs: Observation, policy: ReplacementPolicy, step: Step)
    requires Justifies(candidate, obs, policy, step)
    ensures step == Attempt(candidate, obs, policy)
  {
  }

  /** A single-phase mixing ends the call at once, whatever the availability and exchange answers. */
  lemma MixingIsNotRetried(candidate: ContentHashListWithDeterminism, env: Environment, policy: ReplacementPolicy)
    requires env(0).read.ReadSucceeded? && PhaseMismatch(env(0).read.info, candidate)
    ensures AddOrGet(candidate, env, policy) == SinglePhaseMixingError
  {
    AddOrGetFirstDecision(candidate, env, policy, 0);
  }

  /**
   The availability answer is consulted only when a record exists and the
   policy does not already prefer the candidate.
   */
  lemma AvailabilityConsultedOnlyWhenNeeded(
    candidate: ContentHashListWithDeterminism, obs: Observation, policy: ReplacementPolicy, available: bool)
    requires var stored := OldRecord(obs.read).0;
      PhaseMismatch(stored, candidate) || stored.contentHashList.None? || policy(stored.determinism, candidate.determinism)
    ensures Attempt(candidate, obs.(contentAvailable := available), policy) == Attempt(candidate, obs, policy)
  {
  }

  /** The exchange outcome matters only when the attempt decides to replace. */
  lemma ExchangeConsultedOnlyWhenReplacing(
    candidate: ContentHashListWithDeterminism, obs: Observation, policy: ReplacementPolicy, exchange: ExchangeOutcome)
    requires var stored := OldRecord(obs.read).0;
      PhaseMismatch(stored, candidate) || !ShouldReplace(stored, candidate, obs.contentAvailable, policy)
    ensures Attempt(candidate, obs.(exchange := exchange), policy) == Attempt(candidate, obs, policy)
    ensures Attempt(candidate, obs, policy).Done?
  {
  }

  /** A failed read behaves as an absent record: the attempt goes straight to the exchange. */
  lemma FailedReadForcesExchange(
    candidate: ContentHashListWithDeterminism, obs: Observation, policy: ReplacementPolicy)
    requires obs.read.ReadFailed?
    ensures OldRecord(obs.read).1 == EmptyToken
    ensures Attempt(candidate, obs, policy) ==
      match obs.exchange
      case Exchanged => Done(Success(Accepted(candidate)))
      case Lost => Retry
      case ExchangeFailed(message) => Done(Error(message))
  {
  }

  /**
   What a successful result says: a result without a list means the
   candidate's list is now current, reported with the candidate's
   determinism after an exchange or with the stored one for an identical
   resubmission; a result with a list is the stored record that won.
   */
  lemma SuccessMeaning(
    candidate: ContentHashListWithDeterminism, obs: Observation, policy: ReplacementPolicy,
    value: ContentHashListWithDeterminism)
    requires Attempt(candidate, obs, policy) == Done(Success(value))
    ensures var stored := OldRecord(obs.read).0;
      value.contentHashList.None? ==>
        (obs.exchange == Exchanged && value.determinism == candidate.determinism)
        || (stored.contentHashList == candidate.contentHashList && value.determinism == stored.determinism)
    ensures var stored := OldRecord(obs.read).0;
      value.contentHashList.Some? ==>
        value == stored && obs.read.ReadSucceeded? && value == obs.read.info
        && value.contentHashList != candidate.contentHashList
        && !candidate.determinism.isDeterministicTool
  {
  }

  /** The result of the plain read path. */
  datatype GetContentHashListResult =
    | Found(contentHashListWithDeterminism: ContentHashListWithDeterminism)
    | GetFailed(message: string)

  /** `GetContentHashListAsync`: a successful read is a found result (possibly of no record), a failure propagates. */
  function GetContentHashList(read: ReadResult): (r: GetContentHashListResult)
    ensures r.Found? <==> read.ReadSucceeded?
    ensures r.Found? ==> r.contentHashListWithDeterminism == read.info
    ensures r.GetFailed? ==> r.message == read.message
  {
    match read
    case ReadSucceeded(info, _) => Found(info)
    case ReadFailed(message) => GetFailed(message)
  }
}
