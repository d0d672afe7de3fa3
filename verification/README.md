# Machine id sets and the memoization add-or-get protocol

This project models two sequential pieces of the metadata layer of BuildXL's distributed cache and proves properties about them.

1. **MachineIdSet** (`MachineIdSet.dfy`, helpers in `BitVectors.dfy`). This is the immutable set of machine indices that records which machines hold some content. A set is encoded either as a bit vector (`BitSet`) or as a list of 16-bit indices (`ArraySet`). When a set is written, one tag byte (Bits = 0, Array = 1) is chosen from its count alone, with a threshold of 100. If the in-memory encoding is the other one, the set is rebuilt before the write. `Deserialize` and the probe `HasMachineId` both dispatch on that tag byte. The Bits tag goes to the Bits decoder and every other byte goes to the Array decoder. Payloads are modelled abstractly as a sequence of words:
   - a Bits payload has one word per index, and a non-zero word means the index is a member;
   - an Array payload lists the indices, and each one is read back as a 16-bit value.

2. **The add-or-get protocol of `DatabaseMemoizationStore`** (`DatabaseMemoizationStore.dfy`, types in `MemoizationTypes.dfy`). Each attempt:
   - reads the current record and its replacement token;
   - rejects a single-phase-non-determinism mismatch;
   - decides whether to replace the record (no record, `ShouldBeReplacedWith`, or content unavailable);
   - then either issues a compare-exchange or classifies the outcome.

   The database and the content session are an environment `nat -> Observation`: attempt `k` sees a read result, an availability answer and a compare-exchange outcome. `ShouldBeReplacedWith` is a parameter `policy(old, new)`. The counter starts at 5 and is tested with a post-decrement `>= 0`, so the loop runs at most **six** attempts. The model keeps six.

   `InMemoryDatabase.dfy` adds the model's own in-memory stand-in for the database with a token-checked compare-exchange. With it, the whole-call scenarios can be stated: first writer wins, idempotent resubmission, a lost race, and single-phase mixing in either order.

The code at DatabaseMemoizationStore.cs:200 tests the **candidate's** `IsDeterministicTool`, not the stored record's. So take a stored tool-deterministic record that a non-tool candidate with a different list cannot supersede. That candidate gets the record back as the winner, not an invalid-tool-determinism error (`ToolDeterministicWinnerIsReturned`). The error arises only when the losing candidate claims tool determinism itself (`ToolDeterministicLoserIsAnError`). The model follows the code.

The external collaborators are parameters or environment inputs, and nothing in the model performs I/O:
- the database (read, compare-exchange);
- the content session (`EnsureContentIsAvailableAsync`);
- the determinism type's `ShouldBeReplacedWith`, `IsSinglePhaseNonDeterministic` and `IsDeterministicTool`.

## Model

| member | source | states |
|---|---|---|
| MachineIdSets.ContainsIsMembership | Public/Src/Cache/ContentStore/Distributed/NuCache/MachineIdSets/MachineIdSet.cs:42-45 | The index lookup `Contains` answers from the encoding exactly as membership in the enumerated set (`Indices`, which `EnumerateMachineIds` wraps as machine ids), for both encodings |
| MachineIdSets.ContainsMachine | Public/Src/Cache/ContentStore/Distributed/NuCache/MachineIdSets/MachineIdSet.cs:40 | Membership by `MachineId` holds exactly when its raw index is a member |
| MachineIdSets.CountIsCardinality | Public/Src/Cache/ContentStore/Distributed/NuCache/MachineIdSets/MachineIdSet.cs:47-50 | `Count`, as each encoding counts, equals the enumeration's length; for a valid set the enumeration has no repeats and `Count` is the cardinality |
| MachineIdSets.IsEmpty | Public/Src/Cache/ContentStore/Distributed/NuCache/MachineIdSets/MachineIdSet.cs:32-35 | A set is empty exactly when it has no members |
| MachineIdSets.EmptyHasNoMembers | Public/Src/Cache/ContentStore/Distributed/NuCache/MachineIdSets/MachineIdSet.cs:22-25 | `Empty` is a valid Array-format set with count 0 and no member index |
| MachineIdSets.SetExistence | Public/Src/Cache/ContentStore/Distributed/NuCache/MachineIdSets/MachineIdSet.cs:52-55 | Returns a set in the same format in which each given id has the requested existence and every other index keeps its membership; validity is kept |
| MachineIdSets.Add | Public/Src/Cache/ContentStore/Distributed/NuCache/MachineIdSets/MachineIdSet.cs:57-58 | The members afterwards are the old members plus the given ids; the format is kept |
| MachineIdSets.Remove | Public/Src/Cache/ContentStore/Distributed/NuCache/MachineIdSets/MachineIdSet.cs:60-61 | The members afterwards are the old members minus the given ids; the format is kept |
| MachineIdSets.GetMachineIdIndex | Public/Src/Cache/ContentStore/Distributed/NuCache/MachineIdSets/MachineIdSet.cs:63-76 | -1 exactly when the id is not a member; otherwise the id's position in `EnumerateMachineIds`, the only such position for a valid set; for a Bits set the position is the number of set bits below the index |
| MachineIdSets.SerializableInstance | Public/Src/Cache/ContentStore/Distributed/NuCache/MachineIdSets/MachineIdSet.cs:79-95 | The instance written is in the Array format exactly when the count is at most 100, whatever the in-memory format |
| MachineIdSets.Serialize | Public/Src/Cache/ContentStore/Distributed/NuCache/MachineIdSets/MachineIdSet.cs:79-99 | The tag byte written is Array (1) when the count is at most 100 and Bits (0) otherwise |
| MachineIdSets.Deserialize | Public/Src/Cache/ContentStore/Distributed/NuCache/MachineIdSets/MachineIdSet.cs:121-134 | The decoded set's format is Bits exactly when the tag byte is the Bits tag; every other byte decodes as Array |
| MachineIdSets.HasMachineId | Public/Src/Cache/ContentStore/Distributed/NuCache/MachineIdSets/MachineIdSet.cs:104-119 | For every encoded input and index, the probe answers exactly what the decoded set's index lookup answers |
| MachineIdSets.RebuildPreservesMembership | Public/Src/Cache/ContentStore/Distributed/NuCache/MachineIdSets/MachineIdSet.cs:81-95 | Rebuilding into the other format before the write keeps exactly the members, whenever the Bits-to-Array rebuild (the only one that narrows) has 16-bit members |
| MachineIdSets.RebuildKeepsValid | Public/Src/Cache/ContentStore/Distributed/NuCache/MachineIdSets/MachineIdSet.cs:81-95 | Rebuilding before the write turns a valid set into a valid set, whenever the Bits-to-Array rebuild has 16-bit members: the Array list it builds has no repeats |
| MachineIdSets.BitsToArrayRebuild | Public/Src/Cache/ContentStore/Distributed/NuCache/MachineIdSets/MachineIdSet.cs:84-87 | The `ushort` cast of the enumerated members changes nothing when they fit in 16 bits, and the list has no repeats |
| MachineIdSets.ArrayToBitsRebuild | Public/Src/Cache/ContentStore/Distributed/NuCache/MachineIdSets/MachineIdSet.cs:91-94 | Adding every member to the empty Bits set gives the same members |
| MachineIdSets.SerializeRoundTrip | Public/Src/Cache/ContentStore/Distributed/NuCache/MachineIdSets/MachineIdSet.cs:79-134 | Decoding the encoding of a valid set gives back exactly the instance that was written |
| MachineIdSets.RoundTripPreservesMembership | Public/Src/Cache/ContentStore/Distributed/NuCache/MachineIdSets/MachineIdSet.cs:79-134 | A valid set decodes with the same members and count, whenever the Bits-to-Array rebuild has 16-bit members, in the Array format when it has at most 100 members and Bits otherwise |
| MachineIdSets.SerializedTagIsMinimal | Public/Src/Cache/ContentStore/Distributed/NuCache/MachineIdSets/MachineIdSet.cs:82-97 | For a valid set, the tag is Array exactly when the cardinality is at most 100 and Bits exactly when it is above 100 |
| MachineIdSets.ProbeAgreesWithSet | Public/Src/Cache/ContentStore/Distributed/NuCache/MachineIdSets/MachineIdSet.cs:107-134 | Probing the encoding of a valid set answers the same as the set's own index lookup, whenever the Bits-to-Array rebuild has 16-bit members |
| MachineIdSets.ProbeExample | Public/Src/Cache/ContentStore/Distributed/NuCache/MachineIdSets/MachineIdSet.cs:107-119 | The set {3, 5, 9} is written with the Array tag, and probes for 3, 4, 5 answer true, false, true |
| MachineIdSets.NarrowingRebuild | Public/Src/Cache/ContentStore/Distributed/NuCache/MachineIdSets/MachineIdSet.cs:86 | A Bits set whose only member is 65536 is written as an Array whose decoded member is 0: the cast keeps the low 16 bits |
| DatabaseMemoizationStore.Attempt | Public/Src/Cache/MemoizationStore/Library/Stores/DatabaseMemoizationStore.cs:147-208 | One attempt's step is the one the case-by-case outcome description (`Justifies`) gives for its observations |
| DatabaseMemoizationStore.AttemptIsTheOnlyJustifiedStep | Public/Src/Cache/MemoizationStore/Library/Stores/DatabaseMemoizationStore.cs:164-208 | At most one step is justified by any observations, so each attempt ends in exactly one of the enumerated outcomes |
| DatabaseMemoizationStore.AddOrGetContentHashList | Public/Src/Cache/MemoizationStore/Library/Stores/DatabaseMemoizationStore.cs:144-211 | The loop runs 1 to 6 attempts; every attempt but the last lost its exchange; the result is the last attempt's, or the too-many-races error after six losses |
| DatabaseMemoizationStore.LoopFirstDecision | Public/Src/Cache/MemoizationStore/Library/Stores/DatabaseMemoizationStore.cs:145-209 | From any counter value, the loop (`Loop`, started by `AddOrGet` at 5) returns the result of the first remaining attempt that does not lose its exchange |
| DatabaseMemoizationStore.LoopExhausted | Public/Src/Cache/MemoizationStore/Library/Stores/DatabaseMemoizationStore.cs:145-211 | From any counter value, the loop ends with the too-many-races error when every remaining attempt loses |
| DatabaseMemoizationStore.LoopUsesAtMostSixAttempts | Public/Src/Cache/MemoizationStore/Library/Stores/DatabaseMemoizationStore.cs:144-145 | Two environments that agree on attempts 0 to 5 give the same loop result from any counter value |
| DatabaseMemoizationStore.AddOrGetFirstDecision | Public/Src/Cache/MemoizationStore/Library/Stores/DatabaseMemoizationStore.cs:144-209 | If attempts 0..k-1 lost their exchange and attempt k (k at most 5) decides, the call returns attempt k's result |
| DatabaseMemoizationStore.AddOrGetExhausted | Public/Src/Cache/MemoizationStore/Library/Stores/DatabaseMemoizationStore.cs:211 | Six lost exchanges in a row give the "Hit too many races" error |
| DatabaseMemoizationStore.AddOrGetUsesAtMostSixAttempts | Public/Src/Cache/MemoizationStore/Library/Stores/DatabaseMemoizationStore.cs:144-145 | The result depends on the first six attempts' observations only |
| DatabaseMemoizationStore.MixingIsNotRetried | Public/Src/Cache/MemoizationStore/Library/Stores/DatabaseMemoizationStore.cs:164-168 | A stored record whose single-phase flag differs from the candidate's ends the call with the mixing error on the first attempt, whatever the other answers |
| DatabaseMemoizationStore.AvailabilityConsultedOnlyWhenNeeded | Public/Src/Cache/MemoizationStore/Library/Stores/DatabaseMemoizationStore.cs:170-172 | The availability answer cannot change the step when there is a mixing, no record, or the policy already prefers the candidate |
| DatabaseMemoizationStore.ExchangeConsultedOnlyWhenReplacing | Public/Src/Cache/MemoizationStore/Library/Stores/DatabaseMemoizationStore.cs:170-190 | When the attempt does not replace, the exchange outcome cannot change the step and the attempt always ends the call |
| DatabaseMemoizationStore.FailedReadForcesExchange | Public/Src/Cache/MemoizationStore/Library/Stores/DatabaseMemoizationStore.cs:157-159 | A failed read is no record with the empty token, so the step depends only on the exchange: accepted, retry, or the exchange's error |
| DatabaseMemoizationStore.SuccessMeaning | Public/Src/Cache/MemoizationStore/Library/Stores/DatabaseMemoizationStore.cs:189-208 | A success without a list follows a won exchange (candidate's determinism) or an identical list (stored determinism); a success with a list is the stored record, with a different list, for a non-tool candidate |
| DatabaseMemoizationStore.GetContentHashList | Public/Src/Cache/MemoizationStore/Library/Stores/DatabaseMemoizationStore.cs:120-128 | A successful read becomes a found result holding the read record; a failed read becomes a failed result with the same message |
| InMemoryDatabase.CompareExchange | Public/Src/Cache/MemoizationStore/Library/Stores/DatabaseMemoizationStore.cs:177-182 | The exchange applies exactly when the expected token is current; then the new value is stored under a token that is no longer the expected one; otherwise nothing changes; other fingerprints are untouched |
| InMemoryDatabase.AddOrGetAlone | Public/Src/Cache/MemoizationStore/Library/Stores/DatabaseMemoizationStore.cs:134-211 | Without another writer, and over this store, which never fails a read or an exchange, the call ends on its first attempt, never with a store failure or the too-many-races error (`Error`), and leaves every other fingerprint as it was |
| InMemoryDatabase.AcceptedMeansStored | Public/Src/Cache/MemoizationStore/Library/Stores/DatabaseMemoizationStore.cs:170-197 | A success without a list means the caller's list is stored with the reported determinism; any other result leaves the database unchanged |
| InMemoryDatabase.ReadYourWrite | Public/Src/Cache/MemoizationStore/Library/Stores/DatabaseMemoizationStore.cs:120-128 | After an accepted call on a fresh fingerprint, the plain read path finds exactly the candidate |
| InMemoryDatabase.ResubmissionIsIdempotent | Public/Src/Cache/MemoizationStore/Library/Stores/DatabaseMemoizationStore.cs:192-197 | Offering the stored record again returns "accepted" with its determinism and keeps it stored, for any policy and availability; it writes nothing exactly when the policy does not prefer the record over itself and its content is available |
| InMemoryDatabase.TwoIdenticalCalls | Public/Src/Cache/MemoizationStore/Library/Stores/DatabaseMemoizationStore.cs:177-197 | Two identical calls on a fresh fingerprint are both accepted and the record stays; the second writes nothing exactly when the policy keeps the record against itself and its content is available |
| InMemoryDatabase.LoserSeesWinner | Public/Src/Cache/MemoizationStore/Library/Stores/DatabaseMemoizationStore.cs:199-208 | A candidate that can neither supersede nor repeat the stored record gets that record back (or the tool determinism error carrying it), and nothing is written |
| InMemoryDatabase.WinnerStays | Public/Src/Cache/MemoizationStore/Library/Stores/DatabaseMemoizationStore.cs:199-208 | Once a winner is stored, every later losing non-tool caller receives it and the database never changes |
| InMemoryDatabase.FirstWriterWins | Public/Src/Cache/MemoizationStore/Library/Stores/DatabaseMemoizationStore.cs:170-208 | Of callers on a fresh fingerprint that run one after another, the first is accepted and each later loser receives the first's record, which stays stored |
| InMemoryDatabase.LostRaceReturnsWinner | Public/Src/Cache/MemoizationStore/Library/Stores/DatabaseMemoizationStore.cs:177-187 | When two writers read a fresh fingerprint and A's exchange lands first, B's exchange loses, and B's retry returns A's record (or the tool determinism error carrying it) |
| InMemoryDatabase.RaceOfMany | Public/Src/Cache/MemoizationStore/Library/Stores/DatabaseMemoizationStore.cs:170-208 | When many writers read a fresh fingerprint and the first one's exchange lands, every other writer loses its first exchange, then receives the first one's record (or the tool determinism error carrying it) and writes nothing |
| InMemoryDatabase.ToolDeterministicWinnerIsReturned | Public/Src/Cache/MemoizationStore/Library/Stores/DatabaseMemoizationStore.cs:199-208 | A stored tool-deterministic record is returned as the winner to a non-tool candidate it beats, and is not an error |
| InMemoryDatabase.ToolDeterministicLoserIsAnError | Public/Src/Cache/MemoizationStore/Library/Stores/DatabaseMemoizationStore.cs:199-205 | A tool-deterministic candidate that cannot supersede a different stored list gets the invalid tool determinism error carrying the stored record |
| InMemoryDatabase.MixingFailsEitherWay | Public/Src/Cache/MemoizationStore/Library/Stores/DatabaseMemoizationStore.cs:164-168 | Records that differ in the single-phase flag give the mixing error whichever is stored first, and the stored record stays |

## Left out

- Byte layouts: the Bits and Array payloads are abstract word sequences, because the two subclasses (`BitMachineIdSet`, `ArrayMachineIdSet`) are not part of this model.
- MachineIdSets.SetExistence: the subclasses' implementations are not shown. The model keeps the receiver's format, and the Array encoding appends new ids at the end. Adding an id of 65536 or more to an Array set is excluded by a requires, since that encoding stores `ushort`.
- MachineIdSets.Add: carries the same requires as `SetExistence` for Array sets.
- MachineIdSets.RoundTripPreservesMembership: requires every member of a Bits set with at most 100 members to be below 65536. This is because that set's Bits-to-Array rebuild at line 86 casts each index to `ushort`; `NarrowingRebuild` shows what is lost otherwise. The same requirement holds for `RebuildPreservesMembership`, `RebuildKeepsValid` and `ProbeAgreesWithSet`.
- Index lookups and `HasMachineId` take a non-negative index; a negative `int` index is not modelled.
- Reading from a stream: an exhausted reader (`ReadByte` throwing) is not modelled, because a `Wire` always has its tag byte.
- `GetEnumerator` is the enumeration itself (`EnumerateMachineIds`); the `IEnumerable` plumbing is left out.
- The session factories of `DatabaseMemoizationStore` (lines 70-88) are left out. They only wrap the store itself in a session object, and the session classes are not part of this model.
- `GetStatsAsync` (lines 91-99) and tracing are left out, because they only collect the tracer's counters and do not affect any result.
- Startup and shutdown, fingerprint enumeration and level selectors of `DatabaseMemoizationStore` are left out. They are thin delegations to the `MemoizationDatabase` class, which is not part of this model.
- Cancellation, async suspension and real concurrency are left out. Other writers appear only through the read results and exchange outcomes that each attempt observes.
- Exceptions other than a failed compare-exchange are left out, for example an availability check that throws. A failed compare-exchange is thrown by `ThrowIfFailureAsync` and becomes a failed result; it is modelled as `Error(message)`.
- The `preferShared` tier choice is left out: the in-memory database has one tier.
- The read's refresh of the record's last-access time is left out, since it is eviction bookkeeping inside the database.
- The in-memory database is the model's own assumption about the unseen store:
  - its compare-exchange checks only the token, and the old value is not compared;
  - an absent fingerprint reads as no record with the empty token;
  - it never fails a read or an exchange, so store failures appear only in the environment-level lemmas of `DatabaseMemoizationStore`, not in the whole-call scenarios.
- Determinism is left abstract: `ShouldBeReplacedWith` is a parameter, the two flags are independent booleans, and expiry times are not modelled.
- A content hash list is its sequence of hashes; its payload is not modelled.
