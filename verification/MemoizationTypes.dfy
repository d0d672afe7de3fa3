/**
 Values of the memoization store: the outputs recorded for a build step's
 strong fingerprint and the determinism tag that says how far they can be
 trusted.
 */
module MemoizationTypes {
  import opened Wrappers

  datatype ContentHash = ContentHash(bytes: seq<bv8>)

  /** The declared outputs of a build step, compared structurally. */
  datatype ContentHashList = ContentHashList(hashes: seq<ContentHash>)

  datatype Fingerprint = Fingerprint(bytes: seq<bv8>)

  datatype Selector = Selector(contentHash: ContentHash, output: seq<bv8>)

  /** The key of one memoized invocation of a build step. */
  datatype StrongFingerprint = StrongFingerprint(weakFingerprint: Fingerprint, selector: Selector)

  /**
   The trust level of a recorded output. `guid` stands for the tag's
   identity; the two flags are the only properties the add-or-get protocol
   reads directly.
   */
  datatype Determinism = Determinism(guid: nat, isSinglePhaseNonDeterministic: bool, isDeterministicTool: bool)

  /** The default determinism: no claim at all. */
  const NoDeterminism: Determinism := Determinism(0, false, false)

  /**
   The `ShouldBeReplacedWith` relation of the determinism type, as a
   parameter: `policy(old, new)` holds when `new` may supersede `old`.
   */
  type ReplacementPolicy = (Determinism, Determinism) -> bool

  /** The value recorded per fingerprint; a `None` list means "no record". */
  datatype ContentHashListWithDeterminism =
    ContentHashListWithDeterminism(contentHashList: Option<ContentHashList>, determinism: Determinism)

  /** The default value of the record type: no list and no determinism. */
  const NoRecord: ContentHashListWithDeterminism := ContentHashListWithDeterminism(None, NoDeterminism)

  /** Opaque version stamp returned by every read and expected by compare-exchange. */
  type ReplacementToken = string

  const EmptyToken: ReplacementToken := ""
}
