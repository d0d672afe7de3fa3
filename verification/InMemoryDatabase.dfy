/**
 An in-memory stand-in for the metadata database, with the compare-exchange
 contract the add-or-get protocol relies on: every record carries a
 version, its token is derived
 from the version, and an exchange applies only when the caller's token is
 the current one. It grounds the protocol's environment in a concrete store
 so that the whole-call scenarios (first writer wins, idempotent
 resubmission, a lost race) can be stated.
 */
module InMemoryDatabase {
  import opened Wrappers
  import opened MemoizationTypes
  import opened DatabaseMemoizationStore

  datatype Entry = Entry(value: ContentHashListWithDeterminism, version: nat)

  /** The records by fingerprint and the version the next write will carry. */
  datatype Database = Database(entries: map<StrongFingerprint, Entry>, nextVersion: nat)

  const EmptyDatabase: Database := Database(map[], 0)

  /** Every stored version was handed out before. */
  ghost predicate Valid(db: Database)
  {
    forall fp :: fp in db.entries ==> db.entries[fp].version < db.nextVersion
  }

  /** The token of a version: never empty, and different for different versions. */
  function VersionToken(version: nat): (token: ReplacementToken)
    ensures |token| == version + 1
  {
    seq(version + 1, _ => 'v')
  }

  /** The token a read returns now; an absent record has the empty token. */
  function CurrentToken(db: Database, fp: StrongFingerprint): ReplacementToken
  {
    if fp in db.entries then VersionToken(db.entries[fp].version) else EmptyToken
  }

  /** The read: the stored record and its token, or no record and the empty token. */
  function Read(db: Database, fp: StrongFingerprint): ReadResult
  {
    if fp in db.entries then ReadSucceeded(db.entries[fp].value, CurrentToken(db, fp))
    else ReadSucceeded(NoRecord, EmptyToken)
  }

  /**
   The compare-exchange: when `expected` is the current token the new value
   is stored under a fresh version, otherwise nothing changes. No other
   fingerprint is touched.
   */
  function CompareExchange(
    db: Database, fp: StrongFingerprint, expected: ReplacementToken,
    oldValue: ContentHashListWithDeterminism, newValue: ContentHashListWithDeterminism): (r: (bool, Database))
    ensures r.0 <==> CurrentToken(db, fp) == expected
    ensures r.0 ==> fp in r.1.entries && r.1.entries[fp].value == newValue
    ensures r.0 && Valid(db) ==> CurrentToken(r.1, fp) != expected
    ensures !r.0 ==> r.1 == db
    ensures forall other :: other != fp ==> (other in r.1.entries <==> other in db.entries)
    ensures forall other :: other != fp && other in db.entries ==> r.1.entries[other] == db.entries[other]
    ensures Valid(db) ==> Valid(r.1)
  {
    if CurrentToken(db, fp) == expected then
      var written := Database(db.entries[fp := Entry(newValue, db.nextVersion)], db.nextVersion + 1);
      assert |CurrentToken(written, fp)| == db.nextVersion + 1;
      assert Valid(db) && fp in db.entries ==> |expected| < db.nextVersion + 1;
      (true, written)
    else
      (false, db)
  }

  /** Whether an exchange issued now with `token` would apply. */
  function ExchangeAt(db: Database, fp: StrongFingerprint, token: ReplacementToken): ExchangeOutcome
  {
    if CurrentToken(db, fp) == token then Exchanged else Lost
  }

  /**
   What an attempt observes when it reads `readFrom` and issues its exchange
   against `exchangeOn` (the same database when no other writer intervenes).
   Content availability is asked of the stored list.
   */
  function Observe(
    readFrom: Database, exchangeOn: Database, fp: StrongFingerprint, available: ContentHashList -> bool): Observation
  {
    var read := Read(readFrom, fp);
    var stored := OldRecord(read).0;
    var isAvailable := if stored.contentHashList.Some? then available(stored.contentHashList.value) else true;
    Observation(read, isAvailable, ExchangeAt(exchangeOn, fp, OldRecord(read).1))
  }

  /** The database after an attempt that read `db` and was not interrupted. */
  function AfterAttempt(
    db: Database, fp: StrongFingerprint, candidate: ContentHashListWithDeterminism,
    available: ContentHashList -> bool, policy: ReplacementPolicy): Database
  {
    var obs := Observe(db, db, fp, available);
    var (stored, token) := OldRecord(obs.read);
    if !PhaseMismatch(stored, candidate) && ShouldReplace(stored, candidate, obs.contentAvailable, policy) then
      CompareExchange(db, fp, token, stored, candidate).1
    else
      db
  }

  /**
   One add-or-get call with no other writer: the protocol's result over the
   observations this database gives, and the database afterwards. This
   store never fails a read or an exchange, and with no other writer the
   exchange never loses, so the call ends on its first attempt, never with a
   store failure or the too-many-races error (`Error`), and it touches no
   other fingerprint. The mixing and invalid tool determinism results remain
   possible.
   */
  function AddOrGetAlone(
    db: Database, fp: StrongFingerprint, candidate: ContentHashListWithDeterminism,
    available: ContentHashList -> bool, policy: ReplacementPolicy): (r: (AddOrGetResult, Database))
    ensures r.0 == Attempt(candidate, Observe(db, db, fp, available), policy).result
    ensures !r.0.Error?
    ensures forall other :: other != fp ==> (other in r.1.entries <==> other in db.entries)
    ensures forall other :: other != fp && other in db.entries ==> r.1.entries[other] == db.entries[other]
    ensures Valid(db) ==> Valid(r.1)
  {
    var obs := Observe(db, db, fp, available);
    AddOrGetFirstDecision(candidate, _ => obs, policy, 0);
    (AddOrGet(candidate, _ => obs, policy), AfterAttempt(db, fp, candidate, available, policy))
  }

  /**
   Agreement between the result and the database: an accepted result (no
   list) leaves the caller's list stored, with the determinism the result
   reports; any other result leaves the database as it was.
   */
  lemma AcceptedMeansStored(
    db: Database, fp: StrongFingerprint, candidate: ContentHashListWithDeterminism,
    available: ContentHashList -> bool, policy: ReplacementPolicy)
    requires candidate.contentHashList.Some?
    ensures var (result, after) := AddOrGetAlone(db, fp, candidate, available, policy);
      result.Success? && result.value.contentHashList.None? ==>
        fp in after.entries
        && after.entries[fp].value == ContentHashListWithDeterminism(candidate.contentHashList, result.value.determinism)
    ensures var (result, after) := AddOrGetAlone(db, fp, candidate, available, policy);
      !(result.Success? && result.value.contentHashList.None?) ==> after == db
  {
  }

  /** After a call that stored the candidate, the plain read path finds it. */
  lemma ReadYourWrite(
    db: Database, fp: StrongFingerprint, candidate: ContentHashListWithDeterminism,
    available: ContentHashList -> bool, policy: ReplacementPolicy)
    requires fp !in db.entries
    ensures var (result, after) := AddOrGetAlone(db, fp, candidate, available, policy);
      result == Success(Accepted(candidate))
      && GetContentHashList(Read(after, fp)) == Found(candidate)
  {
  }

  /**
   Resubmitting the stored record is idempotent: whatever the policy and the
   availability answer, the caller is told its value is current and the
   stored record stays the same. Nothing is written exactly when the policy
   does not prefer the record over itself and its content is available;
   otherwise the same record is written again under a new version.
   */
  lemma ResubmissionIsIdempotent(
    db: Database, fp: StrongFingerprint, candidate: ContentHashListWithDeterminism,
    available: ContentHashList -> bool, policy: ReplacementPolicy)
    requires fp in db.entries && db.entries[fp].value == candidate
    requires candidate.contentHashList.Some?
    ensures var (result, after) := AddOrGetAlone(db, fp, candidate, available, policy);
      result == Success(Accepted(candidate)) && fp in after.entries && after.entries[fp].value == candidate
    ensures var (_, after) := AddOrGetAlone(db, fp, candidate, available, policy);
      after == db <==>
        !policy(candidate.determinism, candidate.determinism) && available(candidate.contentHashList.value)
  {
  }

  /**
   Two identical calls in a row on a fresh fingerprint are both accepted and
   the record stays. The second call writes nothing exactly when the policy
   keeps the record against itself and its content is available.
   */
  lemma TwoIdenticalCalls(
    db: Database, fp: StrongFingerprint, candidate: ContentHashListWithDeterminism,
    available: ContentHashList -> bool, policy: ReplacementPolicy)
    requires fp !in db.entries && candidate.contentHashList.Some?
    ensures var (first, db1) := AddOrGetAlone(db, fp, candidate, available, policy);
      var (second, db2) := AddOrGetAlone(db1, fp, candidate, available, policy);
      first == Success(Accepted(candidate)) && second == Success(Accepted(candidate))
      && fp in db2.entries && db2.entries[fp].value == candidate
    ensures var (_, db1) := AddOrGetAlone(db, fp, candidate, available, policy);
      var (_, db2) := AddOrGetAlone(db1, fp, candidate, available, policy);
      db2 == db1 <==>
        !policy(candidate.determinism, candidate.determinism) && available(candidate.contentHashList.value)
  {
    var (first, db1) := AddOrGetAlone(db, fp, candidate, available, policy);
    ResubmissionIsIdempotent(db1, fp, candidate, available, policy);
  }

  /**
   A stored record `winner` that a candidate neither supersedes nor finds
   unavailable, and whose list the candidate does not repeat.
   */
  ghost predicate Loses(
    winner: ContentHashListWithDeterminism, candidate: ContentHashListWithDeterminism,
    available: ContentHashList -> bool, policy: ReplacementPolicy)
  {
    && winner.contentHashList.Some?
    && winner.determinism.isSinglePhaseNonDeterministic == candidate.determinism.isSinglePhaseNonDeterministic
    && !policy(winner.determinism, candidate.determinism)
    && available(winner.contentHashList.value)
    && candidate.contentHashList != winner.contentHashList
  }

  /**
   A losing candidate gets the stored record back, or the invalid tool
   determinism error carrying it when the candidate claims a deterministic
   tool; the database does not change.
   */
  lemma LoserSeesWinner(
    db: Database, fp: StrongFingerprint, candidate: ContentHashListWithDeterminism,
    available: ContentHashList -> bool, policy: ReplacementPolicy)
    requires fp in db.entries && Loses(db.entries[fp].value, candidate, available, policy)
    ensures var (result, after) := AddOrGetAlone(db, fp, candidate, available, policy);
      after == db
      && result == if candidate.determinism.isDeterministicTool
                   then InvalidToolDeterminismError(db.entries[fp].value)
                   else Success(db.entries[fp].value)
  {
  }

  /** Calls one after another on the same fingerprint; the results in order, and the final database. */
  function RunInOrder(
    db: Database, fp: StrongFingerprint, candidates: seq<ContentHashListWithDeterminism>,
    available: ContentHashList -> bool, policy: ReplacementPolicy): (r: (seq<AddOrGetResult>, Database))
    ensures |r.0| == |candidates|
    decreases |candidates|
  {
    if |candidates| == 0 then ([], db)
    else
      var (first, next) := AddOrGetAlone(db, fp, candidates[0], available, policy);
      var (rest, final) := RunInOrder(next, fp, candidates[1..], available, policy);
      ([first] + rest, final)
  }

  /** Once a winner is stored, every later losing caller receives it and it stays stored. */
  lemma {:induction false} WinnerStays(
    db: Database, fp: StrongFingerprint, candidates: seq<ContentHashListWithDeterminism>,
    available: ContentHashList -> bool, policy: ReplacementPolicy)
    requires fp in db.entries
    requires forall i :: 0 <= i < |candidates| ==> Loses(db.entries[fp].value, candidates[i], available, policy)
    requires forall i :: 0 <= i < |candidates| ==> !candidates[i].determinism.isDeterministicTool
    ensures var (results, final) := RunInOrder(db, fp, candidates, available, policy);
      final == db && forall i :: 0 <= i < |results| ==> results[i] == Success(db.entries[fp].value)
  {
    if |candidates| > 0 {
      LoserSeesWinner(db, fp, candidates[0], available, policy);
      WinnerStays(db, fp, candidates[1..], available, policy);
      var (first, next) := AddOrGetAlone(db, fp, candidates[0], available, policy);
      var (rest, final) := RunInOrder(next, fp, candidates[1..], available, policy);
      assert RunInOrder(db, fp, candidates, available, policy).0 == [first] + rest;
    }
  }

  /**
   Single winner: of several callers on a fresh fingerprint that run one
   after another, the first is accepted and every other one receives the
   first one's record.
   */
  lemma {:induction false} FirstWriterWins(
    db: Database, fp: StrongFingerprint, candidates: seq<ContentHashListWithDeterminism>,
    available: ContentHashList -> bool, policy: ReplacementPolicy)
    requires fp !in db.entries && |candidates| > 0
    requires candidates[0].contentHashList.Some?
    requires forall i :: 1 <= i < |candidates| ==> Loses(candidates[0], candidates[i], available, policy)
    requires forall i :: 1 <= i < |candidates| ==> !candidates[i].determinism.isDeterministicTool
    ensures var (results, final) := RunInOrder(db, fp, candidates, available, policy);
      results[0] == Success(Accepted(candidates[0]))
      && (forall i :: 1 <= i < |results| ==> results[i] == Success(candidates[0]))
      && fp in final.entries && final.entries[fp].value == candidates[0]
  {
    var (first, next) := AddOrGetAlone(db, fp, candidates[0], available, policy);
    var rest := candidates[1..];
    assert forall i :: 0 <= i < |rest| ==> rest[i] == candidates[i + 1];
    WinnerStays(next, fp, rest, available, policy);
  }

  /**
   The observations of a writer that read `before` and whose exchange met
   `after`, another writer's exchange having landed in between; its retries
   see `after` throughout.
   */
  function RaceEnvironment(
    before: Database, after: Database, fp: StrongFingerprint, available: ContentHashList -> bool): Environment
  {
    k => if k == 0 then Observe(before, after, fp, available) else Observe(after, after, fp, available)
  }

  /**
   Two writers race on a fresh fingerprint: both read it empty, A's exchange
   lands first, B's exchange with the empty token loses, and B's second
   attempt reads A's record and receives it (or the tool determinism error
   carrying it).
   */
  lemma LostRaceReturnsWinner(
    db: Database, fp: StrongFingerprint, a: ContentHashListWithDeterminism, b: ContentHashListWithDeterminism,
    available: ContentHashList -> bool, policy: ReplacementPolicy)
    requires Valid(db) && fp !in db.entries
    requires Loses(a, b, available, policy)
    ensures var (resultA, db1) := AddOrGetAlone(db, fp, a, available, policy);
      var envB := RaceEnvironment(db, db1, fp, available);
      resultA == Success(Accepted(a))
      && Attempt(b, envB(0), policy) == Retry
      && AddOrGet(b, envB, policy) ==
           if b.determinism.isDeterministicTool then InvalidToolDeterminismError(a) else Success(a)
  {
    var (resultA, db1) := AddOrGetAlone(db, fp, a, available, policy);
    assert db1 == CompareExchange(db, fp, EmptyToken, NoRecord, a).1;
    assert fp in db1.entries && db1.entries[fp].value == a;
    assert CurrentToken(db1, fp) != EmptyToken;
    var envB := RaceEnvironment(db, db1, fp, available);
    assert Read(db, fp) == ReadSucceeded(NoRecord, EmptyToken);
    assert ExchangeAt(db1, fp, EmptyToken) == Lost;
    assert Observe(db, db1, fp, available) == Observation(ReadSucceeded(NoRecord, EmptyToken), true, Lost);
    assert envB(0) == Observe(db, db1, fp, available);
    assert Attempt(b, envB(0), policy) == Retry;
    assert envB(1) == Observe(db1, db1, fp, available);
    AddOrGetFirstDecision(b, envB, policy, 1);
  }

  /**
   Many writers race on a fresh fingerprint: all read it empty and the
   first one's exchange lands. Every other writer's exchange then loses on
   its first attempt, and its retry returns the first one's record (or the
   tool determinism error carrying it) without writing anything.
   */
  lemma RaceOfMany(
    db: Database, fp: StrongFingerprint, candidates: seq<ContentHashListWithDeterminism>,
    available: ContentHashList -> bool, policy: ReplacementPolicy)
    requires Valid(db) && fp !in db.entries && |candidates| > 0
    requires forall i :: 1 <= i < |candidates| ==> Loses(candidates[0], candidates[i], available, policy)
    ensures var (first, db1) := AddOrGetAlone(db, fp, candidates[0], available, policy);
      first == Success(Accepted(candidates[0]))
      && fp in db1.entries && db1.entries[fp].value == candidates[0]
      && (forall i :: 1 <= i < |candidates| ==>
            Attempt(candidates[i], RaceEnvironment(db, db1, fp, available)(0), policy) == Retry)
      && (forall i :: 1 <= i < |candidates| ==>
            AddOrGet(candidates[i], RaceEnvironment(db, db1, fp, available), policy) ==
              if candidates[i].determinism.isDeterministicTool then InvalidToolDeterminismError(candidates[0])
              else Success(candidates[0]))
      && (forall i :: 1 <= i < |candidates| ==>
            AfterAttempt(db1, fp, candidates[i], available, policy) == db1)
  {
    var (first, db1) := AddOrGetAlone(db, fp, candidates[0], available, policy);
    assert db1 == CompareExchange(db, fp, EmptyToken, NoRecord, candidates[0]).1;
    forall i | 1 <= i < |candidates|
      ensures Attempt(candidates[i], RaceEnvironment(db, db1, fp, available)(0), policy) == Retry
      ensures AddOrGet(candidates[i], RaceEnvironment(db, db1, fp, available), policy) ==
              if candidates[i].determinism.isDeterministicTool then InvalidToolDeterminismError(candidates[0])
              else Success(candidates[0])
      ensures AfterAttempt(db1, fp, candidates[i], available, policy) == db1
    {
      LostRaceReturnsWinner(db, fp, candidates[0], candidates[i], available, policy);
      LoserSeesWinner(db1, fp, candidates[i], available, policy);
    }
  }

  /**
   The code tests the candidate's determinism, not the stored one: a
   tool-deterministic record that a non-tool candidate cannot supersede is
   returned to it as the winner, not as an error.
   */
  lemma ToolDeterministicWinnerIsReturned(
    db: Database, fp: StrongFingerprint, a: ContentHashListWithDeterminism, b: ContentHashListWithDeterminism,
    available: ContentHashList -> bool, policy: ReplacementPolicy)
    requires fp !in db.entries
    requires a.determinism.isDeterministicTool && !b.determinism.isDeterministicTool
    requires Loses(a, b, available, policy)
    ensures var (resultA, db1) := AddOrGetAlone(db, fp, a, available, policy);
      var (resultB, db2) := AddOrGetAlone(db1, fp, b, available, policy);
      resultA == Success(Accepted(a)) && resultB == Success(a) && db2 == db1
  {
    var (resultA, db1) := AddOrGetAlone(db, fp, a, available, policy);
    LoserSeesWinner(db1, fp, b, available, policy);
  }

  /** A tool-deterministic candidate that cannot supersede a different stored list is an error carrying that record. */
  lemma ToolDeterministicLoserIsAnError(
    db: Database, fp: StrongFingerprint, a: ContentHashListWithDeterminism, b: ContentHashListWithDeterminism,
    available: ContentHashList -> bool, policy: ReplacementPolicy)
    requires fp !in db.entries
    requires b.determinism.isDeterministicTool
    requires Loses(a, b, available, policy)
    ensures var (resultA, db1) := AddOrGetAlone(db, fp, a, available, policy);
      var (resultB, db2) := AddOrGetAlone(db1, fp, b, available, policy);
      resultA == Success(Accepted(a)) && resultB == InvalidToolDeterminismError(a) && db2 == db1
  {
    var (resultA, db1) := AddOrGetAlone(db, fp, a, available, policy);
    LoserSeesWinner(db1, fp, b, available, policy);
  }

  /** Mixing the single-phase flag fails in either order, and the stored record stays. */
  lemma MixingFailsEitherWay(
    db: Database, fp: StrongFingerprint, a: ContentHashListWithDeterminism, b: ContentHashListWithDeterminism,
    available: ContentHashList -> bool, policy: ReplacementPolicy)
    requires fp !in db.entries
    requires a.contentHashList.Some? && b.contentHashList.Some?
    requires a.determinism.isSinglePhaseNonDeterministic != b.determinism.isSinglePhaseNonDeterministic
    ensures var (_, withA) := AddOrGetAlone(db, fp, a, available, policy);
      AddOrGetAlone(withA, fp, b, available, policy) == (SinglePhaseMixingError, withA)
    ensures var (_, withB) := AddOrGetAlone(db, fp, b, available, policy);
      AddOrGetAlone(withB, fp, a, available, policy) == (SinglePhaseMixingError, withB)
  {
  }
}
