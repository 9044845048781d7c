/**
 * The memory sources the flexible allocator is tested with: a bump-pointer
 * source over a fixed 32 KiB buffer that can always grow its last range in
 * place, and a wrapper that mirrors every successful call of its inner source
 * into a shadow allocator.
 */
module FlexSources {
  import opened Common
  import opened Shadow

  /** A range of memory handed out by a source (`NonNull<[u8]>`): start address and length. */
  datatype Slice = Slice(start: nat, len: nat)

  /** One past the last byte of `s` (`nonnull_slice_end`). */
  function End(s: Slice): nat
  {
    s.start + s.len
  }

  /** Size of the buffer behind `CgFlexSource`. */
  const POOL_LEN: nat := 1024 * 32

  /** `pieces` lie end to end, the first starting at `lo` and the last ending at `hi`. */
  ghost predicate Tiles(pieces: seq<Slice>, lo: nat, hi: nat)
    decreases |pieces|
  {
    if pieces == [] then lo == hi
    else pieces[0].start == lo && Tiles(pieces[1..], End(pieces[0]), hi)
  }

  /** A piece starting where a tiling ends extends the tiling. */
  lemma {:induction false} TilesAppend(pieces: seq<Slice>, lo: nat, hi: nat, s: Slice)
    requires Tiles(pieces, lo, hi) && s.start == hi
    ensures Tiles(pieces + [s], lo, End(s))
    decreases |pieces|
  {
    if pieces != [] {
      TilesAppend(pieces[1..], End(pieces[0]), hi, s);
      assert (pieces + [s])[1..] == pieces[1..] + [s];
    }
  }

  /**
   * The pieces of a tiling lie inside `[lo, hi)` in increasing address order and
   * do not overlap.
   */
  lemma {:induction false} TilesInOrder(pieces: seq<Slice>, lo: nat, hi: nat)
    requires Tiles(pieces, lo, hi)
    ensures lo <= hi
    ensures forall i :: 0 <= i < |pieces| ==> lo <= pieces[i].start && End(pieces[i]) <= hi
    ensures forall i, j :: 0 <= i < j < |pieces| ==> End(pieces[i]) <= pieces[j].start
    decreases |pieces|
  {
    if pieces != [] {
      var rest := pieces[1..];
      TilesInOrder(rest, End(pieces[0]), hi);
      forall i | 0 < i < |pieces|
        ensures pieces[i] == rest[i - 1]
      {
      }
    }
  }

  /** The bump-pointer source (`CgFlexSource`). */
  class CgFlexSource {
    /** Address of the first byte of `pool`. */
    const base: nat
    const pool: array<bv8>
    /** Number of bytes of `pool` handed out so far (`allocated`). */
    var allocatedLen: nat
    /** Every range handed out so far, in order. */
    ghost var handedOut: seq<Slice>

    ghost predicate Valid()
      reads this
    {
      pool.Length == POOL_LEN && allocatedLen <= pool.Length &&
      Tiles(handedOut, base, base + allocatedLen)
    }

    /** `CgFlexSource::default`: a zeroed 32 KiB buffer at `base`, nothing handed out. */
    constructor (base: nat)
      ensures Valid()
      ensures this.base == base && allocatedLen == 0 && handedOut == []
    {
      this.base := base;
      pool := new bv8[POOL_LEN];
      allocatedLen := 0;
      handedOut := [];
    }

    /**
     * `alloc`: hand out the next `minSize` bytes of the buffer, or `None` when
     * `allocated + minSize` overflows or runs past the buffer.
     */
    method Alloc(minSize: usize) returns (r: Option<Slice>)
      requires Valid()
      modifies this
      ensures Valid()
      ensures r.None? <==> old(allocatedLen) + minSize > POOL_LEN
      ensures r.None? ==> allocatedLen == old(allocatedLen) && handedOut == old(handedOut)
      ensures r.Some? ==>
                r.value == Slice(base + old(allocatedLen), minSize) &&
                allocatedLen == old(allocatedLen) + minSize &&
                handedOut == old(handedOut) + [r.value]
    {
      var allocated0 := allocatedLen;
      // `checked_add`
      if allocated0 + minSize > USIZE_MAX {
        return None;
      }
      var newAllocated := allocated0 + minSize;
      // `filter(|&x| x <= self.pool.len())`
      if newAllocated > pool.Length {
        return None;
      }
      allocatedLen := newAllocated;
      r := Some(Slice(base + allocated0, minSize));
      TilesAppend(handedOut, base, base + allocated0, r.value);
      handedOut := handedOut + [r.value];
    }

    /**
     * `realloc_inplace_grow`: obtain `minNewLen - len(ptr)` more bytes by `alloc`
     * and report the grown length. The new bytes start where the buffer's used
     * part ended, so the growth is contiguous exactly when `ptr` is the range
     * handed out last.
     */
    method ReallocInplaceGrow(ptr: Slice, minNewLen: usize) returns (r: Option<usize>)
      requires Valid() && ptr.len <= minNewLen
      modifies this
      ensures Valid()
      ensures r.None? <==> old(allocatedLen) + (minNewLen - ptr.len) > POOL_LEN
      ensures r.None? ==> allocatedLen == old(allocatedLen) && handedOut == old(handedOut)
      ensures r.Some? ==>
                r.value == minNewLen &&
                allocatedLen == old(allocatedLen) + (minNewLen - ptr.len) &&
                handedOut == old(handedOut) + [Slice(base + old(allocatedLen), minNewLen - ptr.len)]
      ensures r.Some? && End(ptr) == base + old(allocatedLen) ==>
                End(Slice(ptr.start, minNewLen)) == base + allocatedLen
    {
      var s := Alloc(minNewLen - ptr.len);
      if s.None? {
        return None;
      }
      return Some(s.value.len + ptr.len);
    }

    /** `is_contiguous_growable`: a grown range always stays one contiguous range. */
    function IsContiguousGrowable(): bool
    {
      true
    }

    /** `supports_realloc_inplace_grow`. */
    function SupportsReallocInplaceGrow(): bool
    {
      true
    }

    /** `min_align`: ranges are only guaranteed byte alignment. */
    function MinAlign(): nat
    {
      1
    }
  }

  /**
   * The shadow state mirrors a source that has handed out `[lo, hi)`: exactly
   * the addresses outside that range are `Invalid`.
   */
  ghost predicate Mirrors(m: Regions, lo: nat, hi: nat)
    requires 0 in m
  {
    forall a: nat :: StateOf(m, a) == Invalid <==> !(lo <= a < hi)
  }

  /**
   * `TrackingFlexSource<CgFlexSource>`: every successful call of the inner
   * source is recorded in the shadow allocator `sa` as new `Free` memory.
   */
  class TrackingFlexSource {
    const sa: ShadowAllocator
    const inner: CgFlexSource

    ghost predicate Valid()
      reads this, sa, inner
    {
      sa.Valid() && inner.Valid() &&
      Mirrors(sa.regions, inner.base, inner.base + inner.allocatedLen)
    }

    /** `TrackingFlexSource::default`: a fresh shadow and a fresh inner source at `base`. */
    constructor (base: nat)
      ensures Valid() && fresh(sa) && fresh(inner)
      ensures inner.base == base && inner.allocatedLen == 0 && inner.handedOut == []
      ensures sa.regions == map[0 := Invalid]
    {
      sa := new ShadowAllocator();
      inner := new CgFlexSource(base);
    }

    /**
     * `alloc`: forward to the inner source and, on success, insert the returned
     * range into the shadow as `Free`. The shadow never rejects it.
     */
    method Alloc(minSize: usize) returns (r: Option<Slice>)
      requires Valid()
      modifies sa, inner
      ensures Valid()
      ensures r.None? <==> old(inner.allocatedLen) + minSize > POOL_LEN
      ensures r.None? ==>
                inner.allocatedLen == old(inner.allocatedLen) && inner.handedOut == old(inner.handedOut) &&
                sa.regions == old(sa.regions)
      ensures r.Some? ==>
                r.value == Slice(inner.base + old(inner.allocatedLen), minSize) &&
                inner.allocatedLen == old(inner.allocatedLen) + minSize &&
                inner.handedOut == old(inner.handedOut) + [r.value]
      ensures r.Some? ==> Uniform(old(sa.regions), r.value.start, End(r.value), Invalid)
      ensures r.Some? ==> Converted(old(sa.regions), sa.regions, r.value.start, End(r.value), Free)
    {
      r := inner.Alloc(minSize);
      if r.Some? {
        var o := sa.InsertFreeBlock(r.value.start, r.value.len);
        assert o == Ok;
      }
    }

    /**
     * `realloc_inplace_grow`: forward to the inner source and, on success, append
     * the new tail `[End(ptr), End(ptr) + newLen - len(ptr))` to the shadow as
     * `Free`. The shadow accepts the tail exactly when `ptr` ends where the inner
     * source's used part ended and something had been handed out; otherwise the
     * outcome is its panic and the shadow is unchanged: no previous block when
     * the tail starts at an `Invalid` address 0, a missing boundary otherwise.
     */
    method ReallocInplaceGrow(ptr: Slice, minNewLen: usize) returns (r: Option<usize>, o: Outcome)
      requires Valid() && ptr.len <= minNewLen
      modifies sa, inner
      ensures r.None? <==> old(inner.allocatedLen) + (minNewLen - ptr.len) > POOL_LEN
      ensures r.None? ==>
                o == Ok && Valid() && sa.regions == old(sa.regions) &&
                inner.allocatedLen == old(inner.allocatedLen) && inner.handedOut == old(inner.handedOut)
      ensures r.Some? ==>
                r.value == minNewLen &&
                inner.allocatedLen == old(inner.allocatedLen) + (minNewLen - ptr.len) &&
                inner.handedOut == old(inner.handedOut) + [Slice(inner.base + old(inner.allocatedLen), minNewLen - ptr.len)]
      ensures r.Some? ==>
                (o == Ok <==> End(ptr) == inner.base + old(inner.allocatedLen) && old(inner.allocatedLen) > 0)
      ensures o == Ok && r.Some? ==>
                Valid() &&
                Uniform(old(sa.regions), End(ptr), End(ptr) + (minNewLen - ptr.len), Invalid) &&
                Converted(old(sa.regions), sa.regions, End(ptr), End(ptr) + (minNewLen - ptr.len), Free)
      ensures r.Some? && o != Ok ==>
                o == Panic(if End(ptr) == 0 && (inner.base > 0 || old(inner.allocatedLen) == 0) then NoPrevious
                           else NoBoundary)
      ensures o != Ok ==> sa.regions == old(sa.regions)
    {
      ghost var m0 := sa.regions;
      ghost var top := inner.base + inner.allocatedLen;
      r := inner.ReallocInplaceGrow(ptr, minNewLen);
      if r.None? {
        return None, Ok;
      }
      var newLen := r.value;
      o := sa.AppendFreeBlock(End(ptr), newLen - ptr.len);
      assert o == Ok <==> End(ptr) == top && top > inner.base by {
        AppendAcceptedAtTop(m0, inner.base, top, End(ptr), newLen - ptr.len);
      }
      if End(ptr) > 0 {
        InvalidBoundaryIsKey(m0, End(ptr));
      }
      assert StateOf(m0, 0) == m0[0];
    }
  }

  /**
   * Against a shadow that mirrors `[lo, hi)`, a block appended at `e` is accepted
   * exactly when `e` is `hi` and `[lo, hi)` is not empty.
   */
  lemma AppendAcceptedAtTop(m: Regions, lo: nat, hi: nat, e: nat, len: nat)
    requires WellFormed(m) && Mirrors(m, lo, hi)
    ensures (InvalidBoundaryAt(m, e) && (len == 0 || Uniform(m, e, e + len, Invalid))) <==>
            (e == hi && lo < hi)
  {
    if e == hi && lo < hi {
      assert StateOf(m, e - 1) != Invalid;
      assert Uniform(m, e, e + len, Invalid);
    }
    if InvalidBoundaryAt(m, e) {
      assert StateOf(m, e - 1) != Invalid && StateOf(m, e) == Invalid;
    }
  }
}
