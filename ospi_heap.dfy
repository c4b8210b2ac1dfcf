/** The bitmap block allocator for the 8 MiB OSPI RAM of the RA6M5 port
    (ports/renesas-ra/ospi_heap.c). One bit per 32-byte block, packed eight
    blocks to a byte, bit set = block used. Allocation is a first-fit scan for
    a run of free blocks; release clears used blocks from the pointer's block
    up to the next free one. */
module OspiHeap {
  import opened Base
  import opened Runs

  const OspiStartAddr: int := 0x6800_0000
  const OspiSizeBytes: int := 8 * 1024 * 1024
  const OspiBlockSize: int := 32
  /** `OSPI_TOTAL_BLOCKS`, `OSPI_SIZE_BYTES / OSPI_BLOCK_SIZE`. */
  const TotalBlocks: int := 262144
  /** `OSPI_BITMAP_BYTES`, `(OSPI_TOTAL_BLOCKS + 7) / 8`. */
  const BitmapBytes: int := 32768

  /** `1 << k` for the eight bit positions of a bitmap byte. */
  const Masks: seq<bv8> := [1, 2, 4, 8, 16, 32, 64, 128]

  predicate BitSet(b: bv8, k: nat)
    requires k < 8
  {
    b & Masks[k] != 0
  }

  predicate SingleBit(m: bv8) {
    m != 0 && m & (m - 1) == 0
  }

  lemma SingleBitOps(b: bv8, m: bv8, n: bv8)
    requires SingleBit(m) && SingleBit(n)
    ensures ((b | m) & n != 0) == (m == n || b & n != 0)
    ensures ((b & !m) & n != 0) == (m != n && b & n != 0)
  {
  }

  /** Setting or clearing bit `k` of a byte leaves its other seven bits alone. */
  lemma SetBitEffect(b: bv8, k: nat, j: nat)
    requires k < 8 && j < 8
    ensures BitSet(b | Masks[k], j) == (j == k || BitSet(b, j))
    ensures BitSet(b & !Masks[k], j) == (j != k && BitSet(b, j))
  {
    assert SingleBit(Masks[k]) && SingleBit(Masks[j]);
    assert j != k ==> Masks[j] != Masks[k];
    SingleBitOps(b, Masks[k], Masks[j]);
  }

  /** The block map a bitmap encodes: entry `i` is `is_free(i)`. */
  function FreeMapOf(bytes: seq<bv8>): (m: seq<bool>)
    requires |bytes| == BitmapBytes
    ensures |m| == TotalBlocks
  {
    seq(TotalBlocks, i requires 0 <= i < TotalBlocks => !BitSet(bytes[i / 8], i % 8))
  }

  /** Block `i` lives in bit `i % 8` of byte `i / 8`, and no other block does. */
  lemma SameByteSameBit(i: nat, blk: nat)
    requires i / 8 == blk / 8 && i % 8 == blk % 8
    ensures i == blk
  {
    assert i == 8 * (i / 8) + i % 8;
    assert blk == 8 * (blk / 8) + blk % 8;
  }

  /** The new byte holding block `blk` after marking it used or free. */
  function WriteBit(b: bv8, k: nat, used: bool): bv8
    requires k < 8
  {
    if used then b | Masks[k] else b & !Masks[k]
  }

  /** Block `j` of a byte after marking bit `k`: bit `k` is as written, the
      others unchanged. */
  lemma WriteBitEffect(b: bv8, k: nat, used: bool, j: nat)
    requires k < 8 && j < 8
    ensures BitSet(WriteBit(b, k, used), j) == if j == k then used else BitSet(b, j)
  {
    SetBitEffect(b, k, j);
  }

  /** The new state of block `i` after a write to the bit of block `blk`. */
  lemma BitWriteAt(bytes: seq<bv8>, blk: nat, used: bool, i: nat)
    requires |bytes| == BitmapBytes && blk < TotalBlocks && i < TotalBlocks
    ensures var q := blk / 8;
            var w := bytes[q := WriteBit(bytes[q], blk % 8, used)];
            BitSet(w[i / 8], i % 8) == if i == blk then used else BitSet(bytes[i / 8], i % 8)
  {
    var q := blk / 8;
    var w := bytes[q := WriteBit(bytes[q], blk % 8, used)];
    if i / 8 == q {
      assert w[i / 8] == WriteBit(bytes[q], blk % 8, used);
      WriteBitEffect(bytes[q], blk % 8, used, i % 8);
      if i % 8 == blk % 8 {
        SameByteSameBit(i, blk);
      }
    } else {
      assert w[i / 8] == bytes[i / 8];
    }
  }

  /** Writing one bit of the bitmap changes exactly one block of the map. */
  lemma FreeMapOfBitWrite(bytes: seq<bv8>, blk: nat, used: bool)
    requires |bytes| == BitmapBytes && blk < TotalBlocks
    ensures var q := blk / 8;
            FreeMapOf(bytes[q := WriteBit(bytes[q], blk % 8, used)]) == FreeMapOf(bytes)[blk := !used]
  {
    var q := blk / 8;
    var b := WriteBit(bytes[q], blk % 8, used);
    var after, before := FreeMapOf(bytes[q := b]), FreeMapOf(bytes)[blk := !used];
    forall i | 0 <= i < TotalBlocks
      ensures after[i] == before[i]
    {
      BitWriteAt(bytes, blk, used, i);
    }
  }

  /** One step of the marking loop: having set blocks `[blk, b)`, writing the
      bit of block `b` extends the set range by one. */
  lemma MarkStep(orig: seq<bool>, blk: nat, b: nat, used: bool, before: seq<bv8>, after: seq<bv8>)
    requires |orig| == TotalBlocks && |before| == BitmapBytes && blk <= b < TotalBlocks
    requires FreeMapOf(before) == SetRange(orig, blk, b - blk, !used)
    requires after == before[b / 8 := WriteBit(before[b / 8], b % 8, used)]
    ensures FreeMapOf(after) == SetRange(orig, blk, b + 1 - blk, !used)
  {
    FreeMapOfBitWrite(before, b, used);
    SetRangeExtend(orig, blk, b - blk, !used);
  }

  /** Blocks needed for a request: `ceil(n / 32)`. */
  function BlocksFor(nBytes: nat): (k: nat)
    ensures k * OspiBlockSize >= nBytes
    ensures k == 0 || (k - 1) * OspiBlockSize < nBytes
  {
    (nBytes + OspiBlockSize - 1) / OspiBlockSize
  }

  /** What `ospi_malloc(nBytes)` returns and the block map it leaves. */
  function MallocSpec(free: seq<bool>, nBytes: nat): (pair: (Addr, seq<bool>))
    requires |free| == TotalBlocks
    ensures |pair.1| == TotalBlocks
  {
    if nBytes == 0 || nBytes > OspiSizeBytes then (0, free)
    else
      var req := BlocksFor(nBytes);
      match FirstFit(free, req)
      case None => (0, free)
      case Some(s) => (OspiStartAddr + s * OspiBlockSize, SetRange(free, s, req, false))
  }

  /** The scan found the lowest run long enough for the request. */
  lemma MallocFoundSpec(free: seq<bool>, nBytes: nat, start: nat)
    requires |free| == TotalBlocks && 0 < nBytes <= OspiSizeBytes
    requires FreeRun(free, start, BlocksFor(nBytes))
    requires forall k: nat :: k < start ==> !FreeRun(free, k, BlocksFor(nBytes))
    ensures MallocSpec(free, nBytes)
            == (OspiStartAddr + start * OspiBlockSize, SetRange(free, start, BlocksFor(nBytes), false))
  {
    FirstFitIsLeast(free, BlocksFor(nBytes), start);
  }

  /** The scan reached the end without finding a run long enough. */
  lemma MallocNoFitSpec(free: seq<bool>, nBytes: nat)
    requires |free| == TotalBlocks && 0 < nBytes <= OspiSizeBytes
    requires forall k: nat :: k + BlocksFor(nBytes) <= TotalBlocks ==> !FreeRun(free, k, BlocksFor(nBytes))
    ensures MallocSpec(free, nBytes) == (0, free)
  {
  }

  /** `(uint8_t *)ptr - g_base` as the `uintptr_t` the source stores it in. */
  function OffsetOf(ptr: Addr): SizeT {
    Wrap(ptr - OspiStartAddr)
  }

  /** The block map `ospi_free(ptr)` leaves. */
  function FreeSpec(free: seq<bool>, ptr: Addr): (r: seq<bool>)
    requires |free| == TotalBlocks
    ensures |r| == TotalBlocks
  {
    if ptr == 0 || OffsetOf(ptr) >= OspiSizeBytes then free
    else
      var blk := OffsetOf(ptr) / OspiBlockSize;
      SetRange(free, blk, UsedRunEnd(free, blk) - blk, true)
  }

  class Heap {
    var bitmap: array<bv8>

    ghost predicate Valid()
      reads this
    {
      bitmap.Length == BitmapBytes
    }

    /** Entry `i` says whether block `i` is free. */
    ghost function FreeMap(): (m: seq<bool>)
      reads this, bitmap
      requires Valid()
      ensures |m| == TotalBlocks
    {
      FreeMapOf(bitmap[..])
    }

    /** `ospi_heap_init`: a zeroed bitmap, every block free. */
    constructor Init()
      ensures Valid() && fresh(bitmap)
      ensures forall i :: 0 <= i < TotalBlocks ==> FreeMap()[i]
    {
      bitmap := new bv8[BitmapBytes](_ => 0);
    }

    /** `is_free(blk)`: the block's bit is clear. */
    function IsFree(blk: nat): (r: bool)
      reads this, bitmap
      requires Valid() && blk < TotalBlocks
      ensures r == FreeMap()[blk]
    {
      bitmap[blk / 8] & Masks[blk % 8] == 0
    }

    /** `mark_used(blk, cnt, used)`: sets the bits of `cnt` blocks from `blk`
        (used) or clears them, one bit per step of the countdown loop. */
    method MarkUsed(blk: nat, cnt: nat, used: bool)
      requires Valid() && blk + cnt <= TotalBlocks
      modifies bitmap
      ensures Valid()
      ensures FreeMap() == SetRange(old(FreeMap()), blk, cnt, !used)
    {
      var b: nat, c: nat := blk, cnt;
      ghost var orig := FreeMap();
      while c > 0
        invariant blk <= b && b + c == blk + cnt
        invariant FreeMap() == SetRange(orig, blk, b - blk, !used)
      {
        ghost var before := bitmap[..];
        var q := b / 8;
        bitmap[q] := WriteBit(bitmap[q], b % 8, used);
        assert bitmap[..] == before[q := WriteBit(before[q], b % 8, used)];
        MarkStep(orig, blk, b, used, before, bitmap[..]);
        b := b + 1;
        c := c - 1;
      }
    }

    /** `ospi_malloc(nBytes)`: 0 (NULL) for an empty or oversized request or
        when no run is long enough, otherwise the address of the first-fit
        run, whose blocks become used. */
    method Malloc(nBytes: SizeT) returns (p: Addr)
      requires Valid()
      modifies bitmap
      ensures Valid()
      ensures (p, FreeMap()) == MallocSpec(old(FreeMap()), nBytes)
    {
      if nBytes == 0 || nBytes > OspiSizeBytes {
        return 0;
      }
      var req := (nBytes + OspiBlockSize - 1) / OspiBlockSize;
      assert req == BlocksFor(nBytes);
      ghost var free := FreeMap();
      var run, start := 0, 0;
      var i := 0;
      while i < TotalBlocks
        invariant 0 <= i <= TotalBlocks && run <= i && run < req
        invariant FreeMap() == free
        invariant forall j :: i - run <= j < i ==> free[j]
        invariant run > 0 ==> start == i - run
        invariant forall k: nat :: k < i - run ==> !FreeRun(free, k, req)
      {
        if IsFree(i) {
          if run == 0 {
            start := i;
          }
          run := run + 1;
          if run == req {
            MallocFoundSpec(free, nBytes, start);
            MarkUsed(start, req, true);
            return OspiStartAddr + start * OspiBlockSize;
          }
        } else {
          run := 0;
        }
        i := i + 1;
      }
      MallocNoFitSpec(free, nBytes);
      return 0;
    }

    /** `ospi_free(ptr)`: ignores NULL and pointers whose unsigned offset from
        the base is at least the heap size; otherwise clears used blocks from
        the pointer's block until the next free block or the end. */
    method Free(ptr: Addr)
      requires Valid()
      modifies bitmap
      ensures Valid()
      ensures FreeMap() == FreeSpec(old(FreeMap()), ptr)
    {
      if ptr == 0 {
        return;
      }
      var off := Wrap(ptr - OspiStartAddr);
      if off >= OspiSizeBytes {
        return;
      }
      var blk := off / OspiBlockSize;
      ghost var first := blk;
      ghost var free := FreeMap();
      while blk < TotalBlocks && !IsFree(blk)
        invariant first <= blk <= TotalBlocks
        invariant UsedRunEnd(free, first) >= blk
        invariant FreeMap() == SetRange(free, first, blk - first, true)
      {
        assert !free[blk];
        MarkUsed(blk, 1, false);
        SetRangeGrow(free, first, blk - first, true);
        blk := blk + 1;
      }
      assert blk < TotalBlocks ==> free[blk];
      assert UsedRunEnd(free, first) == blk;
    }

    /** `ospi_available()`: free blocks times the block size. */
    method Available() returns (r: SizeT)
      requires Valid()
      ensures r == CountFree(FreeMap()) * OspiBlockSize
    {
      var freeCnt := 0;
      var i := 0;
      while i < TotalBlocks
        invariant 0 <= i <= TotalBlocks
        invariant freeCnt == CountFree(FreeMap()[..i])
      {
        assert FreeMap()[..i + 1][..i] == FreeMap()[..i];
        if IsFree(i) {
          freeCnt := freeCnt + 1;
        }
        i := i + 1;
      }
      assert FreeMap()[..TotalBlocks] == FreeMap();
      return freeCnt * OspiBlockSize;
    }
  }

  // ---------------------------------------------------------------------
  // Properties of the allocator, stated on the block map.
  // ---------------------------------------------------------------------

  /** After `ospi_heap_init` all 262144 blocks are free, so
      `ospi_available()` reports the whole 8 MiB. */
  lemma InitAvailableIsWholeHeap(free: seq<bool>)
    requires |free| == TotalBlocks
    requires forall i :: 0 <= i < TotalBlocks ==> free[i]
    ensures TotalBlocks == 262144
    ensures CountFree(free) * OspiBlockSize == OspiSizeBytes
  {
    CountFreeUniform(free, true);
  }

  /** A zero-byte or larger-than-heap request is refused without any change. */
  lemma MallocRejectsEmptyAndOversized(free: seq<bool>, nBytes: nat)
    requires |free| == TotalBlocks
    requires nBytes == 0 || nBytes > OspiSizeBytes
    ensures MallocSpec(free, nBytes) == (0, free)
  {
  }

  /** A successful request returns the lowest block that begins a free run of
      `ceil(n/32)` blocks; exactly those blocks go from free to used, every
      other block keeps its state, and the available size drops by the
      reserved bytes. */
  lemma MallocFirstFitExact(free: seq<bool>, nBytes: nat)
    requires |free| == TotalBlocks
    requires MallocSpec(free, nBytes).0 != 0
    ensures 0 < nBytes <= OspiSizeBytes
    ensures var req := BlocksFor(nBytes);
            var (p, after) := MallocSpec(free, nBytes);
            var s := (p - OspiStartAddr) / OspiBlockSize;
            && p == OspiStartAddr + s * OspiBlockSize
            && FreeRun(free, s, req)
            && (forall k: nat :: k < s ==> !FreeRun(free, k, req))
            && (forall j :: 0 <= j < TotalBlocks ==> after[j] == (free[j] && !(s <= j < s + req)))
            && CountFree(after) * OspiBlockSize == CountFree(free) * OspiBlockSize - req * OspiBlockSize
  {
    var req := BlocksFor(nBytes);
    var s := FirstFit(free, req).value;
    CountFreeSetRange(free, s, req, false);
  }

  /** NULL comes back, with no change, exactly when no run of `ceil(n/32)`
      consecutive free blocks exists. */
  lemma MallocFailsIffNoRun(free: seq<bool>, nBytes: nat)
    requires |free| == TotalBlocks
    requires 0 < nBytes <= OspiSizeBytes
    ensures MallocSpec(free, nBytes).0 == 0 <==> forall k: nat :: !FreeRun(free, k, BlocksFor(nBytes))
    ensures MallocSpec(free, nBytes).0 == 0 ==> MallocSpec(free, nBytes).1 == free
  {
  }

  /** `ospi_free` ignores NULL and every pointer outside the heap window,
      including pointers below the base, whose offset wraps around. */
  lemma FreeIgnoresForeignPointers(free: seq<bool>, ptr: Addr)
    requires |free| == TotalBlocks
    requires ptr == 0 || ptr < OspiStartAddr || ptr >= OspiStartAddr + OspiSizeBytes
    ensures FreeSpec(free, ptr) == free
  {
  }

  /** `ospi_free` clears the maximal run of used blocks starting at the
      pointer's block and nothing else: blocks before it and from the first
      free block on keep their state. */
  lemma FreeClearsMaximalUsedRun(free: seq<bool>, ptr: Addr)
    requires |free| == TotalBlocks
    requires OspiStartAddr <= ptr < OspiStartAddr + OspiSizeBytes
    ensures var blk := (ptr - OspiStartAddr) / OspiBlockSize;
            var after := FreeSpec(free, ptr);
            exists e :: blk <= e <= TotalBlocks
              && (e < TotalBlocks ==> free[e])
              && (forall j :: blk <= j < e ==> !free[j] && after[j])
              && (forall j :: 0 <= j < TotalBlocks && !(blk <= j < e) ==> after[j] == free[j])
  {
    var blk := (ptr - OspiStartAddr) / OspiBlockSize;
    assert OffsetOf(ptr) == ptr - OspiStartAddr;
    assert FreeSpec(free, ptr) == SetRange(free, blk, UsedRunEnd(free, blk) - blk, true);
    ClearRunShape(free, blk);
  }

  lemma ClearRunShape(free: seq<bool>, blk: nat)
    requires blk <= |free|
    ensures var after := SetRange(free, blk, UsedRunEnd(free, blk) - blk, true);
            exists e :: blk <= e <= |free|
              && (e < |free| ==> free[e])
              && (forall j :: blk <= j < e ==> !free[j] && after[j])
              && (forall j :: 0 <= j < |free| && !(blk <= j < e) ==> after[j] == free[j])
  {
    var e := UsedRunEnd(free, blk);
    assert blk <= e <= |free|;
  }

  /** Freeing an allocation whose next block is free (or which ends the heap)
      gives back exactly the blocks `ospi_malloc` took: the block map is as
      before the allocation. */
  lemma MallocThenFreeRestores(free: seq<bool>, nBytes: nat)
    requires |free| == TotalBlocks
    requires MallocSpec(free, nBytes).0 != 0
    requires var s := FirstFit(free, BlocksFor(nBytes)).value;
             s + BlocksFor(nBytes) == TotalBlocks || free[s + BlocksFor(nBytes)]
    ensures var (p, after) := MallocSpec(free, nBytes);
            FreeSpec(after, p) == free
  {
    var req := BlocksFor(nBytes);
    var s := FirstFit(free, req).value;
    var (p, after) := MallocSpec(free, nBytes);
    assert OffsetOf(p) == s * OspiBlockSize;
    assert OffsetOf(p) / OspiBlockSize == s;
    assert after == SetRange(free, s, req, false);
    assert s + req < TotalBlocks ==> after[s + req];
    UsedRunEndCovers(after, s, s + req);
    assert UsedRunEnd(after, s) == s + req;
    assert SetRange(after, s, req, true) == free;
  }

  /** The naive release rule frees an adjacent later allocation too: after two
      back-to-back allocations, freeing the first one also releases every
      block of the second. */
  lemma FreeReleasesAdjacentAllocation(free: seq<bool>, n1: nat, n2: nat)
    requires |free| == TotalBlocks
    requires MallocSpec(free, n1).0 != 0
    requires var (p1, mid) := MallocSpec(free, n1);
             var (p2, _) := MallocSpec(mid, n2);
             p2 == p1 + BlocksFor(n1) * OspiBlockSize
    ensures var (p1, mid) := MallocSpec(free, n1);
            var (p2, after) := MallocSpec(mid, n2);
            var released := FreeSpec(after, p1);
            forall j :: (p2 - OspiStartAddr) / OspiBlockSize <= j < (p2 - OspiStartAddr) / OspiBlockSize + BlocksFor(n2)
              ==> !after[j] && released[j]
  {
    var (p1, mid) := MallocSpec(free, n1);
    var (p2, after) := MallocSpec(mid, n2);
    var r1, r2 := BlocksFor(n1), BlocksFor(n2);
    var s1 := FirstFit(free, r1).value;
    var s2 := FirstFit(mid, r2).value;
    assert s2 == s1 + r1;
    assert OffsetOf(p1) / OspiBlockSize == s1;
    assert forall j :: s1 <= j < s1 + r1 + r2 ==> !after[j];
    UsedRunEndCovers(after, s1, s1 + r1 + r2);
  }
}
