/**
 The immutable set of machine ids that records which machines of the cluster
 hold a piece of content. A set has one of two physical encodings, a bit
 vector (Bits) or an explicit list of 16-bit indices (Array); the encoding is
 never visible through membership or count. Serialization writes one tag
 byte, chosen by the set's size alone, followed by a format-specific payload.

 Every operation returns a new value: the receiver of `SetExistence`, `Add`
 and `Remove` is a Dafny value and cannot change.
 */
module MachineIdSets {
  import opened BitVectors

  /** Index of a machine in the cluster. */
  datatype MachineId = MachineId(index: nat)

  /** The two physical encodings of a set. */
  datatype SetFormat = Bits | Array

  type byte = b: int | 0 <= b < 256

  /** The wire tag of a format: the enum's ordinal, Bits = 0 and Array = 1. */
  function FormatTag(f: SetFormat): byte
  {
    match f
    case Bits => 0
    case Array => 1
  }

  /** Sets with at most this many members are written in the Array format. */
  const BitMachineIdSetThreshold: nat := 100

  /** The Array encoding stores each index as an unsigned 16-bit value. */
  const UShortRange: nat := 0x1_0000

  /** The `(ushort)` cast: keeps the low 16 bits. */
  function ToUShort(x: nat): (r: nat)
    ensures r < UShortRange
  {
    x % UShortRange
  }

  /**
   A machine id set. `BitSet(bits)`: index `i` is a member when `bits[i]`;
   `ArraySet(ids)`: the members are the listed indices, in list order.
   */
  datatype MachineIdSet = BitSet(bits: seq<bool>) | ArraySet(ids: seq<nat>)

  /** The empty set, in the Array encoding. */
  const Empty: MachineIdSet := ArraySet([])

  /** The empty set in the Bits encoding, the start of a Bits rebuild. */
  const EmptyBits: MachineIdSet := BitSet([])

  function Format(s: MachineIdSet): SetFormat
  {
    match s
    case BitSet(_) => Bits
    case ArraySet(_) => Array
  }

  /**
   The Array encoding holds distinct 16-bit indices; every bit vector is a
   well-formed Bits encoding.
   */
  predicate Valid(s: MachineIdSet)
  {
    match s
    case BitSet(_) => true
    case ArraySet(ids) => Distinct(ids) && forall x :: x in ids ==> x < UShortRange
  }

  /** The member indices in enumeration order: ascending for Bits, list order for Array. */
  function Indices(s: MachineIdSet): seq<nat>
  {
    match s
    case BitSet(bits) => Positions(bits, 0)
    case ArraySet(ids) => ids
  }

  function AsMachineIds(xs: seq<nat>): (ms: seq<MachineId>)
    ensures |ms| == |xs|
    ensures forall k :: 0 <= k < |xs| ==> ms[k].index == xs[k]
  {
    seq(|xs|, k requires 0 <= k < |xs| => MachineId(xs[k]))
  }

  /** The members as machine ids, in the set's own stable order. */
  function EnumerateMachineIds(s: MachineIdSet): seq<MachineId>
  {
    AsMachineIds(Indices(s))
  }

  /** The logical content of a set. */
  function Members(s: MachineIdSet): set<nat>
  {
    Elements(Indices(s))
  }

  /** Every member fits in the 16 bits of the Array encoding. */
  predicate Fits16(s: MachineIdSet)
  {
    forall x :: x in Members(s) ==> x < UShortRange
  }

  /**
   Writing narrows indices in one place only: the rebuild of a Bits set with
   at most 100 members into the Array encoding. That rebuild loses nothing
   when the members fit in 16 bits.
   */
  predicate NarrowingIsLossless(s: MachineIdSet)
  {
    s.BitSet? && Count(s) <= BitMachineIdSetThreshold ==> Fits16(s)
  }

  /** The indexer `this[int index]`, answered from the encoding directly. */
  function Contains(s: MachineIdSet, index: nat): bool
  {
    match s
    case BitSet(bits) => index < |bits| && bits[index]
    case ArraySet(ids) => index in ids
  }

  /** The indexer `this[MachineId id]`: the id is a member exactly when its raw index is. */
  function ContainsMachine(s: MachineIdSet, id: MachineId): (r: bool)
    ensures r <==> id.index in Members(s)
  {
    ContainsIsMembership(s, id.index);
    Contains(s, id.index)
  }

  /** The number of members as each encoding counts them. */
  function Count(s: MachineIdSet): nat
  {
    match s
    case BitSet(bits) => CountTrue(bits)
    case ArraySet(ids) => |ids|
  }

  /** The indexer agrees with the logical content, in both encodings. */
  lemma ContainsIsMembership(s: MachineIdSet, index: nat)
    ensures Contains(s, index) <==> index in Members(s)
  {
    if s.BitSet? {
      PositionsMembership(s.bits, 0, index);
    }
  }

  /** The count is the length of the enumeration, and for a valid set its cardinality. */
  lemma CountIsCardinality(s: MachineIdSet)
    ensures Count(s) == |Indices(s)|
    ensures Valid(s) ==> Distinct(Indices(s)) && Count(s) == |Members(s)|
  {
    if s.BitSet? {
      PositionsLength(s.bits, 0);
      PositionsIncreasing(s.bits, 0);
    }
    if Valid(s) {
      DistinctCardinality(Indices(s));
    }
  }

  function IsEmpty(s: MachineIdSet): (r: bool)
    ensures r <==> Members(s) == {}
  {
    CountIsCardinality(s);
    assert Indices(s) != [] ==> Indices(s)[0] in Members(s);
    Count(s) == 0
  }

  lemma EmptyHasNoMembers()
    ensures Format(Empty) == Array && Valid(Empty)
    ensures Count(Empty) == 0 && IsEmpty(Empty)
    ensures forall index: nat :: !Contains(Empty, index)
  {
  }

  /** The raw indices of a collection of machine ids. */
  function IndexSet(ms: seq<MachineId>): set<nat>
  {
    if |ms| == 0 then {} else {ms[0].index} + IndexSet(ms[1..])
  }

  /** One past the largest index of a collection (0 when empty). */
  function Bound(ms: seq<MachineId>): (b: nat)
    ensures forall i :: i in IndexSet(ms) ==> i < b
  {
    if |ms| == 0 then 0
    else var rest := Bound(ms[1..]); if ms[0].index < rest then rest else ms[0].index + 1
  }

  function Max(a: nat, b: nat): nat
  {
    if a < b then b else a
  }

  /** The Bits encoding of `SetExistence`: the bits of `idx` get `value`, the others keep theirs. */
  function SetBits(bits: seq<bool>, idx: set<nat>, value: bool, length: nat): (r: seq<bool>)
    requires value ==> forall i :: i in idx ==> i < length
    ensures forall i: nat :: (i < |r| && r[i]) <==> (if i in idx then value else i < |bits| && bits[i])
  {
    var n := Max(|bits|, length);
    seq(n, i requires 0 <= i < n => if i in idx then value else i < |bits| && bits[i])
  }

  /** The Array encoding of adding: indices not yet listed are appended in the order given. */
  function AddIds(ids: seq<nat>, ms: seq<MachineId>): (r: seq<nat>)
    ensures forall x :: x in r <==> x in ids || x in IndexSet(ms)
    ensures Distinct(ids) ==> Distinct(r)
    decreases |ms|
  {
    if |ms| == 0 then ids
    else
      var next := if ms[0].index in ids then ids else ids + [ms[0].index];
      assert Distinct(ids) ==> Distinct(next);
      AddIds(next, ms[1..])
  }

  /** The Array encoding of removing: the listed indices in `gone` are dropped, order kept. */
  function Without(ids: seq<nat>, gone: set<nat>): (r: seq<nat>)
    ensures forall x :: x in r <==> x in ids && x !in gone
    ensures Distinct(ids) ==> Distinct(r)
  {
    if |ids| == 0 then []
    else
      var rest := Without(ids[1..], gone);
      assert Distinct(ids) ==> Distinct(ids[1..]) && ids[0] !in ids[1..];
      (if ids[0] in gone then [] else [ids[0]]) + rest
  }

  /**
   `SetExistence(machines, exists)`: a new set in the same encoding in which
   every given machine is present (`present`) or absent (`!present`) and every
   other index keeps its membership.
   */
  function SetExistence(s: MachineIdSet, ms: seq<MachineId>, present: bool): (r: MachineIdSet)
    requires s.ArraySet? && present ==> forall k :: 0 <= k < |ms| ==> ms[k].index < UShortRange
    ensures Format(r) == Format(s)
    ensures forall index: nat :: Contains(r, index) <==> (if index in IndexSet(ms) then present else Contains(s, index))
    ensures Valid(s) ==> Valid(r)
  {
    match s
    case BitSet(bits) => BitSet(SetBits(bits, IndexSet(ms), present, if present then Bound(ms) else 0))
    case ArraySet(ids) =>
      if present then
        IndexSetBound(ms);
        ArraySet(AddIds(ids, ms))
      else ArraySet(Without(ids, IndexSet(ms)))
  }

  lemma {:induction false} IndexSetBound(ms: seq<MachineId>)
    requires forall k :: 0 <= k < |ms| ==> ms[k].index < UShortRange
    ensures forall i :: i in IndexSet(ms) ==> i < UShortRange
  {
    if |ms| > 0 {
      IndexSetBound(ms[1..]);
    }
  }

  /** `Add(machines)`: every given machine becomes a member; nothing is removed. */
  function Add(s: MachineIdSet, ms: seq<MachineId>): (r: MachineIdSet)
    requires s.ArraySet? ==> forall k :: 0 <= k < |ms| ==> ms[k].index < UShortRange
    ensures Format(r) == Format(s)
    ensures forall index: nat :: Contains(r, index) <==> index in IndexSet(ms) || Contains(s, index)
    ensures Valid(s) ==> Valid(r)
  {
    SetExistence(s, ms, true)
  }

  /** `Remove(machines)`: every given machine stops being a member; nothing is added. */
  function Remove(s: MachineIdSet, ms: seq<MachineId>): (r: MachineIdSet)
    ensures Format(r) == Format(s)
    ensures forall index: nat :: Contains(r, index) <==> index !in IndexSet(ms) && Contains(s, index)
    ensures Valid(s) ==> Valid(r)
  {
    SetExistence(s, ms, false)
  }

  /**
   `GetMachineIdIndex`: the position of `id` in `EnumerateMachineIds(s)`, or
   -1 when `id` is not a member. The Bits encoding answers by counting the
   set bits below the index instead of enumerating.
   */
  method GetMachineIdIndex(s: MachineIdSet, id: MachineId) returns (r: int)
    ensures r == -1 <==> !ContainsMachine(s, id)
    ensures r != -1 ==> 0 <= r < |EnumerateMachineIds(s)| && EnumerateMachineIds(s)[r] == id
    ensures Valid(s) && r != -1 ==>
      forall k :: 0 <= k < |EnumerateMachineIds(s)| && EnumerateMachineIds(s)[k] == id ==> k == r
    ensures s.BitSet? && r != -1 ==> id.index < |s.bits| && r == CountTrue(s.bits[..id.index])
  {
    match s
    case BitSet(bits) =>
      r := BitsIndex(bits, id.index);
    case ArraySet(ids) =>
      r := ArrayIndex(ids, id.index);
    if r != -1 && Valid(s) {
      CountIsCardinality(s);
    }
  }

  /** Rank of a set bit: the number of set bits below it. */
  method BitsIndex(bits: seq<bool>, index: nat) returns (r: int)
    ensures r == -1 <==> !(index < |bits| && bits[index])
    ensures r != -1 ==> 0 <= r < |Positions(bits, 0)| && Positions(bits, 0)[r] == index
    ensures r != -1 ==> forall k :: 0 <= k < |Positions(bits, 0)| && Positions(bits, 0)[k] == index ==> k == r
    ensures r != -1 ==> index < |bits| && r == CountTrue(bits[..index])
  {
    if !(index < |bits| && bits[index]) {
      return -1;
    }
    var rank := 0;
    var k := 0;
    while k < index
      invariant 0 <= k <= index
      invariant rank == CountTrue(bits[..k])
    {
      CountTrueSnoc(bits, k);
      if bits[k] {
        rank := rank + 1;
      }
      k := k + 1;
    }
    PositionsRank(bits, 0, index);
    PositionsIncreasing(bits, 0);
    r := rank;
  }

  /** First position of an index in a list, or -1. */
  method ArrayIndex(ids: seq<nat>, index: nat) returns (r: int)
    ensures r == -1 <==> index !in ids
    ensures r != -1 ==> 0 <= r < |ids| && ids[r] == index
    ensures r != -1 ==> forall j :: 0 <= j < r ==> ids[j] != index
  {
    var k := 0;
    while k < |ids|
      invariant 0 <= k <= |ids|
      invariant forall j :: 0 <= j < k ==> ids[j] != index
    {
      if ids[k] == index {
        return k;
      }
      k := k + 1;
    }
    r := -1;
  }

  // ---------------------------------------------------------------------
  // Serialization
  // ---------------------------------------------------------------------

  /**
   A serialized set: the leading tag byte and an abstract payload of words.
   A Bits payload holds one word per index, non-zero for a member; an Array
   payload lists the member indices, each read back as a 16-bit value.
   */
  datatype Wire = Wire(tag: byte, payload: seq<nat>)

  /** Each index narrowed to 16 bits, as a cast to `ushort` does. */
  function Narrow(xs: seq<nat>): (r: seq<nat>)
    ensures |r| == |xs|
    ensures forall k :: 0 <= k < |xs| ==> r[k] == ToUShort(xs[k])
  {
    seq(|xs|, k requires 0 <= k < |xs| => ToUShort(xs[k]))
  }

  /**
   The instance actually written: a Bits set of at most 100 members is
   rebuilt as an Array of its enumerated indices cast to 16 bits, and an
   Array set of more than 100 members is rebuilt by adding its members to the
   empty Bits set; any other set is written as it is.
   */
  function SerializableInstance(s: MachineIdSet): (t: MachineIdSet)
    ensures Format(t) == (if Count(s) <= BitMachineIdSetThreshold then Array else Bits)
  {
    if s.BitSet? then
      (if Count(s) <= BitMachineIdSetThreshold then ArraySet(Narrow(Indices(s))) else s)
    else
      (if Count(s) > BitMachineIdSetThreshold then SetExistence(EmptyBits, EnumerateMachineIds(s), true) else s)
  }

  /** The format-specific payload of an instance. */
  function SerializeCore(t: MachineIdSet): seq<nat>
  {
    match t
    case BitSet(bits) => seq(|bits|, i requires 0 <= i < |bits| => if bits[i] then 1 else 0)
    case ArraySet(ids) => ids
  }

  /** `Serialize`: the tag byte is Array exactly when the count is at most 100. */
  function Serialize(s: MachineIdSet): (w: Wire)
    ensures w.tag == (if Count(s) <= BitMachineIdSetThreshold then FormatTag(Array) else FormatTag(Bits))
  {
    var t := SerializableInstance(s);
    Wire(FormatTag(Format(t)), SerializeCore(t))
  }

  /**
   `Deserialize`: one tag byte selects the decoder; the Bits tag selects the
   Bits decoder and every other byte the Array decoder.
   */
  function Deserialize(w: Wire): (s: MachineIdSet)
    ensures Format(s) == (if w.tag == FormatTag(Bits) then Bits else Array)
  {
    if w.tag == FormatTag(Bits) then
      BitSet(seq(|w.payload|, i requires 0 <= i < |w.payload| => w.payload[i] != 0))
    else
      ArraySet(Narrow(w.payload))
  }

  /** Probe of an Array payload for one index, without building the set. */
  function ArrayProbe(payload: seq<nat>, index: nat): (b: bool)
    ensures b <==> index in Narrow(payload)
  {
    if |payload| == 0 then false
    else
      assert Narrow(payload) == [ToUShort(payload[0])] + Narrow(payload[1..]);
      ToUShort(payload[0]) == index || ArrayProbe(payload[1..], index)
  }

  /**
   `HasMachineId`: the fast membership probe straight off the wire. It
   dispatches on the tag byte as `Deserialize` does and answers exactly as the
   decoded set would.
   */
  function HasMachineId(w: Wire, index: nat): (b: bool)
    ensures b == Contains(Deserialize(w), index)
  {
    if w.tag == FormatTag(Bits) then
      index < |w.payload| && w.payload[index] != 0
    else
      ArrayProbe(w.payload, index)
  }

  lemma {:induction false} IndexSetOfIndices(xs: seq<nat>)
    ensures IndexSet(AsMachineIds(xs)) == Elements(xs)
  {
    if |xs| > 0 {
      IndexSetOfIndices(xs[1..]);
      assert AsMachineIds(xs)[1..] == AsMachineIds(xs[1..]);
      assert xs == [xs[0]] + xs[1..];
    }
  }

  /**
   Rebuilding before the write keeps every member, provided the
   Bits-to-Array rebuild, which narrows each index, loses nothing.
   */
  lemma RebuildPreservesMembership(s: MachineIdSet)
    requires NarrowingIsLossless(s)
    ensures Members(SerializableInstance(s)) == Members(s)
  {
    if s.BitSet? && Count(s) <= BitMachineIdSetThreshold {
      BitsToArrayRebuild(s);
    } else if s.ArraySet? && Count(s) > BitMachineIdSetThreshold {
      ArrayToBitsRebuild(s);
    }
  }

  /** Rebuilding before the write keeps a valid set valid when the narrowing loses nothing. */
  lemma RebuildKeepsValid(s: MachineIdSet)
    requires Valid(s) && NarrowingIsLossless(s)
    ensures Valid(SerializableInstance(s))
  {
    if s.BitSet? && Count(s) <= BitMachineIdSetThreshold {
      BitsToArrayRebuild(s);
    }
  }

  /** The Bits-to-Array rebuild lists each member once, unchanged when it fits in 16 bits. */
  lemma BitsToArrayRebuild(s: MachineIdSet)
    requires s.BitSet? && Fits16(s)
    ensures Narrow(Indices(s)) == Indices(s)
    ensures Valid(ArraySet(Indices(s)))
  {
    var p := Positions(s.bits, 0);
    PositionsIncreasing(s.bits, 0);
    forall k | 0 <= k < |p|
      ensures p[k] < UShortRange && ToUShort(p[k]) == p[k]
    {
      assert p[k] in Members(s);
      SmallIsUShort(p[k]);
    }
    assert Narrow(p) == p;
  }

  lemma SmallIsUShort(x: nat)
    requires x < UShortRange
    ensures ToUShort(x) == x
  {
  }

  /** The Array-to-Bits rebuild, adding every member to the empty Bits set, keeps the members. */
  lemma ArrayToBitsRebuild(s: MachineIdSet)
    ensures Members(SetExistence(EmptyBits, EnumerateMachineIds(s), true)) == Members(s)
  {
    var t := SetExistence(EmptyBits, EnumerateMachineIds(s), true);
    IndexSetOfIndices(Indices(s));
    forall index: nat
      ensures index in Members(t) <==> index in Members(s)
    {
      ContainsIsMembership(t, index);
    }
  }

  /** Decoding an encoded valid set gives back exactly the instance that was written. */
  lemma SerializeRoundTrip(s: MachineIdSet)
    requires Valid(s)
    ensures Deserialize(Serialize(s)) == SerializableInstance(s)
  {
    var t := SerializableInstance(s);
    var d := Deserialize(Serialize(s));
    match t
    case BitSet(bits) =>
      assert d.bits == bits;
    case ArraySet(ids) =>
      assert s.ArraySet? ==> t == s;
      forall k | 0 <= k < |ids|
        ensures d.ids[k] == ids[k]
      {
        assert ids[k] in ids;
        SmallIsUShort(ids[k]);
      }
  }

  /**
   Round trip: a valid set whose rebuild loses nothing decodes to a set with
   the same members and the same count, in the format its size selects.
   */
  lemma RoundTripPreservesMembership(s: MachineIdSet)
    requires Valid(s) && NarrowingIsLossless(s)
    ensures Members(Deserialize(Serialize(s))) == Members(s)
    ensures Count(Deserialize(Serialize(s))) == Count(s)
    ensures Format(Deserialize(Serialize(s))) == (if |Members(s)| <= BitMachineIdSetThreshold then Array else Bits)
  {
    SerializeRoundTrip(s);
    RebuildPreservesMembership(s);
    CountIsCardinality(s);
    CountIsCardinality(SerializableInstance(s));
  }

  /**
   Minimal format: whatever the in-memory encoding, a valid set is written
   with the Array tag when it has at most 100 members and with the Bits tag
   otherwise.
   */
  lemma SerializedTagIsMinimal(s: MachineIdSet)
    requires Valid(s)
    ensures Serialize(s).tag == FormatTag(Array) <==> |Members(s)| <= BitMachineIdSetThreshold
    ensures Serialize(s).tag == FormatTag(Bits) <==> |Members(s)| > BitMachineIdSetThreshold
  {
    CountIsCardinality(s);
  }

  /** Probing an encoded set answers the same as the set's own indexer. */
  lemma ProbeAgreesWithSet(s: MachineIdSet, index: nat)
    requires Valid(s) && NarrowingIsLossless(s)
    ensures HasMachineId(Serialize(s), index) == Contains(s, index)
  {
    RoundTripPreservesMembership(s);
    ContainsIsMembership(s, index);
    ContainsIsMembership(Deserialize(Serialize(s)), index);
  }

  /** The set {3, 5, 9}: probes for 3, 4 and 5 answer true, false, true. */
  lemma ProbeExample()
    ensures var w := Serialize(ArraySet([3, 5, 9]));
      w.tag == FormatTag(Array) && HasMachineId(w, 3) && !HasMachineId(w, 4) && HasMachineId(w, 5)
  {
    var w := Serialize(ArraySet([3, 5, 9]));
    assert w == Wire(1, [3, 5, 9]);
    assert Narrow([3, 5, 9]) == [3, 5, 9];
  }

  /**
   The Bits-to-Array rebuild casts each index to 16 bits: a Bits set whose
   only member is 65536 is written as an Array holding 0.
   */
  lemma NarrowingRebuild()
    ensures var s := BitSet(seq(UShortRange + 1, i => i == UShortRange));
      Members(s) == {UShortRange} && Members(Deserialize(Serialize(s))) == {0}
  {
    var s := BitSet(seq(UShortRange + 1, i => i == UShortRange));
    forall x: nat
      ensures x in Members(s) <==> x == UShortRange
    {
      PositionsMembership(s.bits, 0, x);
    }
    assert Members(s) == {UShortRange};
    CountIsCardinality(s);
    assert |Indices(s)| == 1;
    assert Indices(s)[0] in Members(s);
    assert Indices(s) == [UShortRange];
    assert Serialize(s) == Wire(1, [0]);
    assert Deserialize(Serialize(s)) == ArraySet([0]);
  }
}
