/**
 Helpers over bit vectors, written as `seq<bool>`: bit `i` set means that
 index `i` is present. Used by the Bits encoding of a machine id set.
 */
module BitVectors {

  /** Number of set bits. */
  function CountTrue(bits: seq<bool>): nat
  {
    if |bits| == 0 then 0 else (if bits[0] then 1 else 0) + CountTrue(bits[1..])
  }

  /** The indices of the set bits, in ascending order, each shifted by `offset`. */
  function Positions(bits: seq<bool>, offset: nat): seq<nat>
  {
    if |bits| == 0 then [] else (if bits[0] then [offset] else []) + Positions(bits[1..], offset + 1)
  }

  /** No element occurs twice. */
  predicate Distinct(xs: seq<nat>)
  {
    forall i, j :: 0 <= i < j < |xs| ==> xs[i] != xs[j]
  }

  predicate StrictlyIncreasing(xs: seq<nat>)
  {
    forall i, j :: 0 <= i < j < |xs| ==> xs[i] < xs[j]
  }

  /** The elements of a sequence, as a set. */
  function Elements(xs: seq<nat>): set<nat>
  {
    set x | x in xs
  }

  /** An index is listed by `Positions` exactly when its bit is set. */
  lemma {:induction false} PositionsMembership(bits: seq<bool>, offset: nat, x: nat)
    ensures x in Positions(bits, offset) <==> offset <= x < offset + |bits| && bits[x - offset]
  {
    if |bits| > 0 {
      PositionsMembership(bits[1..], offset + 1, x);
      assert Positions(bits, offset) == (if bits[0] then [offset] else []) + Positions(bits[1..], offset + 1);
      if offset + 1 <= x < offset + |bits| {
        assert bits[1..][x - (offset + 1)] == bits[x - offset];
      }
    }
  }

  /** `Positions` lists one index per set bit. */
  lemma {:induction false} PositionsLength(bits: seq<bool>, offset: nat)
    ensures |Positions(bits, offset)| == CountTrue(bits)
  {
    if |bits| > 0 {
      PositionsLength(bits[1..], offset + 1);
    }
  }

  /** `Positions` is ascending and never goes below its offset. */
  lemma {:induction false} PositionsIncreasing(bits: seq<bool>, offset: nat)
    ensures StrictlyIncreasing(Positions(bits, offset))
    ensures forall k :: 0 <= k < |Positions(bits, offset)| ==> offset <= Positions(bits, offset)[k]
  {
    if |bits| > 0 {
      var head: seq<nat> := if bits[0] then [offset] else [];
      var tail := Positions(bits[1..], offset + 1);
      PositionsIncreasing(bits[1..], offset + 1);
      var p := Positions(bits, offset);
      assert p == head + tail;
      forall i, j | 0 <= i < j < |p|
        ensures p[i] < p[j]
      {
        if i < |head| {
          assert p[i] == offset;
          assert p[j] == tail[j - |head|];
        } else {
          assert p[i] == tail[i - |head|] && p[j] == tail[j - |head|];
        }
      }
      forall k | 0 <= k < |p|
        ensures offset <= p[k]
      {
        if k >= |head| {
          assert p[k] == tail[k - |head|];
        }
      }
    }
  }

  /** Counting the set bits of a prefix, one more bit at a time. */
  lemma {:induction false} CountTrueSnoc(bits: seq<bool>, k: nat)
    requires k < |bits|
    ensures CountTrue(bits[..k + 1]) == CountTrue(bits[..k]) + (if bits[k] then 1 else 0)
  {
    if k == 0 {
      assert bits[..1][1..] == [];
    } else {
      CountTrueSnoc(bits[1..], k - 1);
      assert bits[..k + 1][1..] == bits[1..][..k];
      assert bits[..k][1..] == bits[1..][..k - 1];
    }
  }

  /** The position of a set bit `k` among the set bits is the number of set bits before it. */
  lemma {:induction false} PositionsRank(bits: seq<bool>, offset: nat, k: nat)
    requires k < |bits| && bits[k]
    ensures CountTrue(bits[..k]) < |Positions(bits, offset)|
    ensures Positions(bits, offset)[CountTrue(bits[..k])] == offset + k
  {
    var head: seq<nat> := if bits[0] then [offset] else [];
    var tail := Positions(bits[1..], offset + 1);
    assert Positions(bits, offset) == head + tail;
    if k == 0 {
      assert bits[..0] == [];
    } else {
      PositionsRank(bits[1..], offset + 1, k - 1);
      assert bits[..k][1..] == bits[1..][..k - 1];
      assert CountTrue(bits[..k]) == |head| + CountTrue(bits[1..][..k - 1]);
    }
  }

  /** A duplicate-free sequence has as many elements as its set of elements. */
  lemma {:induction false} DistinctCardinality(xs: seq<nat>)
    requires Distinct(xs)
    ensures |Elements(xs)| == |xs|
  {
    if |xs| > 0 {
      var rest := xs[1..];
      assert Distinct(rest) by {
        forall i, j | 0 <= i < j < |rest|
          ensures rest[i] != rest[j]
        {
          assert rest[i] == xs[i + 1] && rest[j] == xs[j + 1];
        }
      }
      DistinctCardinality(rest);
      assert xs[0] !in Elements(rest);
      assert Elements(xs) == {xs[0]} + Elements(rest) by {
        assert xs == [xs[0]] + rest;
      }
    }
  }
}
