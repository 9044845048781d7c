/**
 * The shadow allocator used to cross-check the TLSF allocator in tests: an
 * interval map from addresses to one of three states. It is stored as an
 * ordered map from a start address to the state that holds from there up to
 * the next key; key 0 is always present and every other key marks a real
 * change of state.
 */
module Shadow {
  import opened Common

  /** `SaRegion`: the state of one address. */
  datatype Region = Free | Used | Invalid

  /** Why a shadow operation panicked. Every panic happens before any update. */
  datatype PanicReason =
    | SameRegion                // the old and the new state are the same
    | Discontinuity             // a boundary lies strictly inside the range
    | Mismatch(found: Region)   // the range is uniformly `found`, not the expected state
    | NoBoundary                // append: no boundary into `Invalid` at the start
    | NoPrevious                // append: nothing before the start to append to
    | Misaligned                // allocate/deallocate: start is not a multiple of the alignment

  datatype Outcome = Ok | Panic(reason: PanicReason)

  type Regions = map<nat, Region>

  /** The greatest key of `m` that is at most `a` (`m.range(0..=a).rev().next()`). */
  function LastKeyAtOrBelow(m: Regions, a: nat): (k: nat)
    requires 0 in m
    ensures k in m && k <= a
    ensures forall j :: k < j <= a ==> j !in m
    decreases a
  {
    if a in m then a else LastKeyAtOrBelow(m, a - 1)
  }

  /** The state of address `a`: the state recorded at the last key at or below it. */
  function StateOf(m: Regions, a: nat): Region
    requires 0 in m
  {
    m[LastKeyAtOrBelow(m, a)]
  }

  /** The key `k` marks a real change of state (key 0 always stays). */
  ghost predicate MarksChange(m: Regions, k: nat)
    requires 0 in m && k in m
  {
    k == 0 || m[k] != StateOf(m, k - 1)
  }

  /** Every key marks a real change of state. */
  ghost predicate Canonical(m: Regions)
    requires 0 in m
  {
    forall k {:trigger MarksChange(m, k)} :: k in m ==> MarksChange(m, k)
  }

  /** The representation invariant of the shadow allocator. */
  ghost predicate WellFormed(m: Regions)
  {
    0 in m && Canonical(m)
  }

  /** No two consecutive entries of `m` hold the same state. */
  ghost predicate NeighboursDiffer(m: Regions)
  {
    forall k1, k2 :: k1 in m && k2 in m && k1 < k2 && NoKeyBetween(m, k1, k2) ==> m[k1] != m[k2]
  }

  /** No key of `m` lies in the open interval `(lo, hi)`. */
  ghost predicate NoKeyBetween(m: Regions, lo: nat, hi: nat)
  {
    forall j :: lo < j < hi ==> j !in m
  }

  /** Every address in `[start, end)` is in state `s`. */
  ghost predicate Uniform(m: Regions, start: nat, end: nat, s: Region)
    requires 0 in m
  {
    forall a: nat :: start <= a < end ==> StateOf(m, a) == s
  }

  /** Some key of `m` lies strictly inside `(start, end)`. */
  ghost predicate HasBoundaryWithin(m: Regions, start: nat, end: nat)
  {
    exists k :: k in m && start < k < end
  }

  /** `m1` is `m0` with every address of `[start, end)` set to `s`, and nothing else changed. */
  ghost predicate Converted(m0: Regions, m1: Regions, start: nat, end: nat, s: Region)
    requires 0 in m0 && 0 in m1
  {
    forall a: nat :: StateOf(m1, a) == if start <= a < end then s else StateOf(m0, a)
  }

  /**
   * The panic `convert_range` raises on `[start, end)` when those bytes are not
   * all in the state it expects: a discontinuity when their states differ,
   * otherwise a mismatch naming the state they share.
   */
  ghost function ConflictAt(m: Regions, start: nat, end: nat): PanicReason
    requires 0 in m
  {
    if Uniform(m, start, end, StateOf(m, start)) then Mismatch(StateOf(m, start)) else Discontinuity
  }

  // ---------------------------------------------------------------------------
  // Lemmas about the abstraction

  /** The last key at or below `a` is determined by the three facts its contract states. */
  lemma LastKeyUnique(m: Regions, a: nat, k: nat)
    requires 0 in m && k in m && k <= a
    requires forall j :: k < j <= a ==> j !in m
    ensures LastKeyAtOrBelow(m, a) == k
  {
  }

  /** With no key in `(lo, a]`, address `a` has the state of `lo`. */
  lemma NoKeysKeepState(m: Regions, lo: nat, a: nat)
    requires 0 in m && lo <= a
    requires forall j :: lo < j <= a ==> j !in m
    ensures StateOf(m, a) == StateOf(m, lo)
  {
    LastKeyUnique(m, a, LastKeyAtOrBelow(m, lo));
  }

  /** Two maps with the same keys and values up to `a` give `a` the same state. */
  lemma AgreeUpTo(m1: Regions, m2: Regions, a: nat)
    requires 0 in m1 && 0 in m2
    requires forall k :: k <= a ==> (k in m1 <==> k in m2)
    requires forall k :: k <= a && k in m1 ==> m1[k] == m2[k]
    ensures StateOf(m1, a) == StateOf(m2, a)
  {
    LastKeyUnique(m2, a, LastKeyAtOrBelow(m1, a));
  }

  /** Two maps that agree at `lo` and on every key in `(lo, a]` agree at `a`. */
  lemma AgreeAbove(m1: Regions, m2: Regions, lo: nat, a: nat)
    requires 0 in m1 && 0 in m2 && lo <= a
    requires StateOf(m1, lo) == StateOf(m2, lo)
    requires forall k :: lo < k <= a ==> (k in m1 <==> k in m2)
    requires forall k :: lo < k <= a && k in m1 ==> m1[k] == m2[k]
    ensures StateOf(m1, a) == StateOf(m2, a)
  {
    var k1 := LastKeyAtOrBelow(m1, a);
    if k1 > lo {
      LastKeyUnique(m2, a, k1);
    } else {
      NoKeysKeepState(m1, lo, a);
      NoKeysKeepState(m2, lo, a);
    }
  }

  /** The canonical form says the same as "no two consecutive entries hold the same state". */
  lemma CanonicalIffNeighboursDiffer(m: Regions)
    requires 0 in m
    ensures Canonical(m) <==> NeighboursDiffer(m)
  {
    if Canonical(m) {
      forall k1, k2 | k1 in m && k2 in m && k1 < k2 && NoKeyBetween(m, k1, k2)
        ensures m[k1] != m[k2]
      {
        assert MarksChange(m, k2);
        LastKeyUnique(m, k2 - 1, k1);
      }
    }
    if NeighboursDiffer(m) {
      forall k | k in m
        ensures MarksChange(m, k)
      {
        if k > 0 {
          var k1 := LastKeyAtOrBelow(m, k - 1);
          assert NoKeyBetween(m, k1, k);
        }
      }
    }
  }

  /** A canonical map with a uniform range has no boundary inside that range. */
  lemma UniformHasNoBoundary(m: Regions, start: nat, end: nat, s: Region)
    requires WellFormed(m)
    requires Uniform(m, start, end, s)
    ensures !HasBoundaryWithin(m, start, end)
  {
    forall k | start < k < end
      ensures k !in m
    {
      assert StateOf(m, k - 1) == s && StateOf(m, k) == s;
      assert k in m ==> MarksChange(m, k);
    }
  }

  /** A range with a boundary inside is not uniformly anything. */
  lemma BoundaryBreaksUniform(m: Regions, start: nat, end: nat, s: Region)
    requires WellFormed(m) && HasBoundaryWithin(m, start, end)
    ensures !Uniform(m, start, end, s)
  {
    if Uniform(m, start, end, s) {
      UniformHasNoBoundary(m, start, end, s);
    }
  }

  /** When the last key below `end` is at or below `start`, the whole range has its state. */
  lemma UniformBelowLastKey(m: Regions, start: nat, end: nat)
    requires 0 in m && start < end
    requires LastKeyAtOrBelow(m, end - 1) <= start
    ensures Uniform(m, start, end, m[LastKeyAtOrBelow(m, end - 1)])
  {
    var k := LastKeyAtOrBelow(m, end - 1);
    forall a: nat | start <= a < end
      ensures StateOf(m, a) == m[k]
    {
      LastKeyUnique(m, a, k);
    }
  }

  /** A key of a canonical map is present in any canonical map with the same states, with the same value. */
  lemma SameStatesSameKey(m1: Regions, m2: Regions, k: nat)
    requires WellFormed(m1) && WellFormed(m2)
    requires forall a: nat :: StateOf(m1, a) == StateOf(m2, a)
    requires k in m1
    ensures k in m2 && m2[k] == m1[k]
  {
    assert StateOf(m1, k) == m1[k] && MarksChange(m1, k);
    if k > 0 {
      assert StateOf(m1, k - 1) == StateOf(m2, k - 1);
    }
  }

  /** The representation is canonical: two well-formed maps with the same states are equal. */
  lemma CanonicalUnique(m1: Regions, m2: Regions)
    requires WellFormed(m1) && WellFormed(m2)
    requires forall a: nat :: StateOf(m1, a) == StateOf(m2, a)
    ensures m1 == m2
  {
    forall k | k in m1
      ensures k in m2 && m2[k] == m1[k]
    {
      SameStatesSameKey(m1, m2, k);
    }
    forall k | k in m2
      ensures k in m1
    {
      SameStatesSameKey(m2, m1, k);
    }
  }

  /**
   * Converting a range one way and then back restores the exact map, because
   * the representation is canonical: deallocating what was just allocated
   * leaves the shadow as it was.
   */
  lemma ConvertBackRestores(m0: Regions, m1: Regions, m2: Regions, start: nat, end: nat, from: Region, to: Region)
    requires WellFormed(m0) && WellFormed(m1) && WellFormed(m2)
    requires Uniform(m0, start, end, from)
    requires Converted(m0, m1, start, end, to)
    requires Converted(m1, m2, start, end, from)
    ensures m2 == m0
  {
    forall a: nat
      ensures StateOf(m2, a) == StateOf(m0, a)
    {
      if start <= a < end {
        assert StateOf(m2, a) == from;
      } else {
        assert StateOf(m1, a) == StateOf(m0, a);
      }
    }
    CanonicalUnique(m2, m0);
  }

  /** `m3` has the same keys and values as `m0` below `start` and above `end`. */
  ghost predicate SameOutside(m0: Regions, m3: Regions, start: nat, end: nat)
  {
    && (forall k :: k < start || end < k ==> (k in m3 <==> k in m0))
    && (forall k :: (k < start || end < k) && k in m0 && k in m3 ==> m3[k] == m0[k])
  }

  /** Below `start` the states are those of `m0`. */
  lemma StatesBelow(m0: Regions, m3: Regions, start: nat, end: nat)
    requires 0 in m0 && 0 in m3 && SameOutside(m0, m3, start, end)
    ensures forall a: nat :: a < start ==> StateOf(m3, a) == StateOf(m0, a)
  {
    forall a: nat | a < start
      ensures StateOf(m3, a) == StateOf(m0, a)
    {
      AgreeUpTo(m3, m0, a);
    }
  }

  /** From `end` on the states are those of `m0`, once they agree at `end`. */
  lemma StatesAbove(m0: Regions, m3: Regions, start: nat, end: nat)
    requires 0 in m0 && 0 in m3 && SameOutside(m0, m3, start, end)
    requires StateOf(m3, end) == StateOf(m0, end)
    ensures forall a: nat :: end <= a ==> StateOf(m3, a) == StateOf(m0, a)
  {
    forall a: nat | end <= a
      ensures StateOf(m3, a) == StateOf(m0, a)
    {
      AgreeAbove(m3, m0, end, a);
    }
  }

  /** With no key inside the range and `to` in force at `start`, the whole range is `to`. */
  lemma StatesInside(m3: Regions, start: nat, end: nat, to: Region)
    requires 0 in m3 && start < end
    requires NoKeyBetween(m3, start, end)
    requires StateOf(m3, start) == to
    ensures Uniform(m3, start, end, to)
  {
    forall a: nat | start <= a < end
      ensures StateOf(m3, a) == to
    {
      NoKeysKeepState(m3, start, a);
    }
  }

  /**
   * The effect of the boundary updates of `convert_range`: `m3` is obtained from
   * `m0` (uniformly `from` on `[start, end)`) by setting a boundary into `to` at
   * `start` unless the state below already is `to`, and a boundary back at `end`
   * unless the state from `end` on already is `to`.
   */
  lemma RenormalisedIsConverted(m0: Regions, m3: Regions, start: nat, end: nat, from: Region, to: Region)
    requires WellFormed(m0) && 0 in m3
    requires start < end && from != to
    requires Uniform(m0, start, end, from) && !HasBoundaryWithin(m0, start, end)
    requires SameOutside(m0, m3, start, end)
    requires NoKeyBetween(m3, start, end)
    // the boundary at `start`
    requires start in m3 <==> (start == 0 || StateOf(m0, start - 1) != to)
    requires start in m3 ==> m3[start] == to
    // the boundary at `end`
    requires end in m3 <==> !(end in m0 && m0[end] == to)
    requires end in m3 ==> m3[end] == (if end in m0 then m0[end] else from)
    ensures WellFormed(m3)
    ensures Converted(m0, m3, start, end, to)
  {
    StatesBelow(m0, m3, start, end);
    if start !in m3 {
      NoKeysKeepState(m3, start - 1, start);
    }
    StatesInside(m3, start, end, to);
    if end !in m0 {
      NoKeysKeepState(m0, end - 1, end);
    }
    if end !in m3 {
      NoKeysKeepState(m3, end - 1, end);
    }
    StatesAbove(m0, m3, start, end);
    CanonicalAfterRenormalising(m0, m3, start, end, to);
  }

  /** The boundaries left by `convert_range` all mark a change of state. */
  lemma CanonicalAfterRenormalising(m0: Regions, m3: Regions, start: nat, end: nat, to: Region)
    requires WellFormed(m0) && 0 in m3 && start < end
    requires SameOutside(m0, m3, start, end)
    requires NoKeyBetween(m3, start, end)
    requires forall a: nat :: StateOf(m3, a) == if start <= a < end then to else StateOf(m0, a)
    requires start in m3 ==> m3[start] == to && (start == 0 || StateOf(m0, start - 1) != to)
    requires end in m3 ==> m3[end] != to
    ensures Canonical(m3)
  {
    forall k | k in m3
      ensures MarksChange(m3, k)
    {
      if k == 0 {
      } else if k < start || end < k {
        assert MarksChange(m0, k);
        assert m3[k] == m0[k] && StateOf(m3, k - 1) == StateOf(m0, k - 1);
      } else if k == start {
        assert StateOf(m3, k - 1) == StateOf(m0, k - 1);
      } else {
        assert k == end && StateOf(m3, k - 1) == to;
      }
    }
  }

  /** `start` begins an `Invalid` stretch directly after a stretch that is not `Invalid`. */
  ghost predicate InvalidBoundaryAt(m: Regions, start: nat)
    requires 0 in m
  {
    start > 0 && StateOf(m, start) == Invalid && StateOf(m, start - 1) != Invalid
  }

  /** In a canonical map, a key at `start` holding `Invalid` is exactly such a boundary. */
  lemma InvalidBoundaryIsKey(m: Regions, start: nat)
    requires WellFormed(m) && start > 0
    ensures (start in m && m[start] == Invalid) <==> InvalidBoundaryAt(m, start)
  {
    if start !in m {
      NoKeysKeepState(m, start - 1, start);
    } else {
      assert MarksChange(m, start);
    }
  }

  // ---------------------------------------------------------------------------
  // The shadow allocator

  class ShadowAllocator {
    var regions: Regions

    ghost predicate Valid()
      reads this
    {
      WellFormed(regions)
    }

    /** The state of address `a`. */
    function StateAt(a: nat): Region
      reads this
      requires Valid()
    {
      StateOf(regions, a)
    }

    /** `ShadowAllocator::new`: the single entry `{0 ↦ Invalid}`, so every address is `Invalid`. */
    constructor ()
      ensures Valid()
      ensures regions == map[0 := Invalid]
      ensures forall a: nat :: StateAt(a) == Invalid
    {
      regions := map[0 := Invalid];
    }

    /**
     * `convert_range`: rewrite `[start, end)` from `from` to `to`. An empty range
     * is left alone; otherwise the range must be uniformly `from` and differ
     * from `to`, and afterwards exactly that range has changed.
     */
    method ConvertRange(start: nat, end: nat, from: Region, to: Region) returns (r: Outcome)
      requires Valid()
      modifies this
      ensures Valid()
      ensures r == Ok <==> end <= start || (from != to && Uniform(old(regions), start, end, from))
      ensures r == Panic(SameRegion) <==> start < end && from == to
      ensures r == Panic(Discontinuity) <==> start < end && from != to && HasBoundaryWithin(old(regions), start, end)
      ensures r.Panic? ==> r.reason.SameRegion? || r.reason.Discontinuity? || r.reason.Mismatch?
      ensures r.Panic? && r.reason.Mismatch? ==>
                r.reason.found != from && Uniform(old(regions), start, end, r.reason.found)
      ensures r.Panic? && from != to ==> r == Panic(ConflictAt(old(regions), start, end))
      ensures r == Ok ==> Converted(old(regions), regions, start, end, to)
      ensures r != Ok || end <= start ==> regions == old(regions)
    {
      if end <= start {
        return Ok;
      }
      if from == to {
        return Panic(SameRegion);
      }
      var addr := LastKeyAtOrBelow(regions, end - 1);
      if addr > start {
        assert addr in regions && start < addr < end;
        BoundaryBreaksUniform(regions, start, end, from);
        BoundaryBreaksUniform(regions, start, end, StateOf(regions, start));
        return Panic(Discontinuity);
      }
      UniformBelowLastKey(regions, start, end);
      if regions[addr] != from {
        assert StateOf(regions, start) == regions[addr];
        return Panic(Mismatch(regions[addr]));
      }
      UniformHasNoBoundary(regions, start, end, from);
      SetBoundaries(start, end, from, to);
      return Ok;
    }

    /**
     * The update half of `convert_range`, once the range is known to be uniformly
     * `from`: a boundary into `to` at `start` and one back at `end`, each dropped
     * again when it would not mark a change of state.
     */
    method SetBoundaries(start: nat, end: nat, from: Region, to: Region)
      requires Valid() && start < end && from != to
      requires Uniform(regions, start, end, from) && !HasBoundaryWithin(regions, start, end)
      modifies this
      ensures Valid()
      ensures Converted(old(regions), regions, start, end, to)
    {
      ghost var m0 := regions;
      // A boundary into `to` at `start`, overwriting a key already there.
      regions := regions[start := to];
      // Dropped again if the state just below is already `to`.
      if start > 0 {
        var prev := LastKeyAtOrBelow(regions, start - 1);
        AgreeUpTo(regions, m0, start - 1);
        if regions[prev] == to {
          regions := regions - {start};
        }
      }
      // A boundary back to `from` at `end`, unless the state from `end` on is already `to`.
      if end in regions {
        if regions[end] == to {
          regions := regions - {end};
        }
      } else {
        regions := regions[end := from];
      }
      assert 0 in regions by {
        if start > 0 { assert 0 in m0 && 0 != start && 0 != end; }
      }
      RenormalisedIsConverted(m0, regions, start, end, from, to);
    }

    /** `insert_free_block`: a new pool `[start, start + len)` goes from `Invalid` to `Free`. */
    method InsertFreeBlock(start: nat, len: nat) returns (r: Outcome)
      requires Valid()
      modifies this
      ensures Valid()
      ensures r == Ok <==> len == 0 || Uniform(old(regions), start, start + len, Invalid)
      ensures r.Panic? ==> r.reason.Discontinuity? || r.reason.Mismatch?
      ensures r == Ok ==> Converted(old(regions), regions, start, start + len, Free)
      ensures r != Ok || len == 0 ==> regions == old(regions)
    {
      r := ConvertRange(start, start + len, Invalid, Free);
    }

    /**
     * `append_free_block`: grow a pool in place by `[start, start + len)`. There must
     * be a boundary into `Invalid` exactly at `start`, preceded by a state that is
     * not `Invalid`; then the block is inserted as by `insert_free_block`.
     */
    method AppendFreeBlock(start: nat, len: nat) returns (r: Outcome)
      requires Valid()
      modifies this
      ensures Valid()
      ensures r == Ok <==>
                InvalidBoundaryAt(old(regions), start) &&
                (len == 0 || Uniform(old(regions), start, start + len, Invalid))
      ensures r == Panic(NoBoundary) <==> !(start in old(regions) && old(regions)[start] == Invalid)
      ensures r == Panic(NoPrevious) <==> start == 0 && old(regions)[0] == Invalid
      ensures r == Ok ==> Converted(old(regions), regions, start, start + len, Free)
      ensures r != Ok ==> regions == old(regions)
    {
      // The first entry at or below `start` must be `(start, Invalid)`.
      var k := LastKeyAtOrBelow(regions, start);
      if k != start || regions[k] != Invalid {
        if start > 0 { InvalidBoundaryIsKey(regions, start); }
        return Panic(NoBoundary);
      }
      // The entry before it must exist and not be `Invalid`.
      if start == 0 || StateOf(regions, start - 1) == Invalid {
        if start > 0 { InvalidBoundaryIsKey(regions, start); }
        return Panic(NoPrevious);
      }
      InvalidBoundaryIsKey(regions, start);
      r := InsertFreeBlock(start, len);
    }

    /** `allocate`: after an alignment check, `[start, start + size)` goes from `Free` to `Used`. */
    method Allocate(layout: Layout, start: nat) returns (r: Outcome)
      requires Valid() && IsPowerOfTwo(layout.align)
      modifies this
      ensures Valid()
      ensures r == Ok <==>
                start % layout.align == 0 &&
                (layout.size == 0 || Uniform(old(regions), start, start + layout.size, Free))
      ensures r == Panic(Misaligned) <==> start % layout.align != 0
      ensures r.Panic? && start % layout.align == 0 ==> r == Panic(ConflictAt(old(regions), start, start + layout.size))
      ensures r == Ok ==> Converted(old(regions), regions, start, start + layout.size, Used)
      ensures r != Ok || layout.size == 0 ==> regions == old(regions)
    {
      if start % layout.align != 0 {
        return Panic(Misaligned);
      }
      r := ConvertRange(start, start + layout.size, Free, Used);
    }

    /** `deallocate`: after an alignment check, `[start, start + size)` goes from `Used` to `Free`. */
    method Deallocate(layout: Layout, start: nat) returns (r: Outcome)
      requires Valid() && IsPowerOfTwo(layout.align)
      modifies this
      ensures Valid()
      ensures r == Ok <==>
                start % layout.align == 0 &&
                (layout.size == 0 || Uniform(old(regions), start, start + layout.size, Used))
      ensures r == Panic(Misaligned) <==> start % layout.align != 0
      ensures r.Panic? && start % layout.align == 0 ==> r == Panic(ConflictAt(old(regions), start, start + layout.size))
      ensures r == Ok ==> Converted(old(regions), regions, start, start + layout.size, Free)
      ensures r != Ok || layout.size == 0 ==> regions == old(regions)
    {
      if start % layout.align != 0 {
        return Panic(Misaligned);
      }
      r := ConvertRange(start, start + layout.size, Used, Free);
    }
  }
}
