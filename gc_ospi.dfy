/** The OSPI additions to the MicroPython garbage collector (py/gc_ospi.c):
    the live free-byte counter, the allocation statistics, the OSPI-area
    predicate and block alignment, and the first-fit allocator that claims a
    HEAD block followed by TAIL blocks in an area's block-kind table.

    The callees `gc_init_original`, `gc_alloc_original`, `gc_free_original`,
    `gc_realloc_original` and `gc_nbytes` are not shown; their results enter
    the model as parameters. All counters are 32-bit `size_t`, and every
    addition wraps as on the target. */
module GcOspi {
  import opened Base
  import opened Runs

  /** `BYTES_PER_BLOCK` (`MICROPY_BYTES_PER_GC_BLOCK`, default 16). */
  const BytesPerBlock: int := 16
  /** `MICROPY_GC_MAX_BLOCKS_PER_ALLOC` (default 255). */
  const MaxBlocksPerAlloc: int := 255
  /** `OSPI_EMERGENCY_RESERVE`. */
  const EmergencyReserve: int := 8 * 1024
  /** `ospi_threshold` in `gc_alloc`. */
  const OspiThreshold: int := 32 * 1024
  /** Lowest pool start that `is_ospi_area` accepts. */
  const OspiAreaBase: int := 0x9000_0000

  // ---------------------------------------------------------------------
  // Helper predicates and arithmetic
  // ---------------------------------------------------------------------

  /** `is_ospi_area`: the pool starts at or above 0x90000000. */
  predicate IsOspiArea(poolStart: Addr) {
    poolStart >= OspiAreaBase
  }

  /** None of the board's memory windows counts as an OSPI area: internal
      SRAM [0x20000000, 0x20080000), the mapped OSPI window
      [0x20080000, 0x30000000) and the direct OSPI window
      [0x68000000, 0x70000000) all lie below the threshold. */
  lemma NoKnownWindowIsOspiArea(poolStart: Addr)
    requires 0x2000_0000 <= poolStart < 0x3000_0000 || 0x6800_0000 <= poolStart < 0x7000_0000
    ensures !IsOspiArea(poolStart)
  {
  }

  /** `x & ~(m - 1)` for a power of two `m`: the low bits cleared. */
  function ClearLow(x: SizeT, m: int): (r: SizeT)
    requires m == 8 || m == 16
    ensures r % m == 0 && r <= x < r + m
  {
    x - x % m
  }

  /** `ospi_align_blocks`: `(blocks + 7) & ~7` in `size_t`. */
  function AlignBlocks(blocks: SizeT): (r: SizeT)
    ensures r % 8 == 0
    ensures blocks <= WordLimit - 8 ==> blocks <= r < blocks + 8
    ensures blocks > WordLimit - 8 ==> r == 0
  {
    ClearLow(Wrap(blocks + 7), 8)
  }

  /** Below the wrap-around, the aligned count is the least multiple of 8
      that is at least `blocks`. */
  lemma AlignBlocksIsLeastMultiple(blocks: SizeT, m: nat)
    requires blocks <= WordLimit - 8
    requires m % 8 == 0 && m >= blocks
    ensures AlignBlocks(blocks) <= m
  {
  }

  /** The block count `ospi_alloc_from_area` asks for:
      `ospi_align_blocks((n_bytes + 15) / 16)` in `size_t`. */
  function BlocksForArea(nBytes: SizeT): (r: SizeT)
    ensures r % 8 == 0
    ensures nBytes <= WordLimit - BytesPerBlock ==>
              r * BytesPerBlock >= nBytes && (r == 0 || (r - 8) * BytesPerBlock < nBytes)
    ensures nBytes > WordLimit - BytesPerBlock ==> r == 0
  {
    AlignBlocks(Wrap(nBytes + BytesPerBlock - 1) / BytesPerBlock)
  }

  /** `(n_bytes + 15) & ~15` in `size_t`: the request rounded up to whole
      blocks, as `gc_alloc` charges it. */
  function RoundUp16(nBytes: SizeT): (r: SizeT)
    ensures r % 16 == 0
    ensures nBytes <= WordLimit - 16 ==> nBytes <= r < nBytes + 16
    ensures nBytes > WordLimit - 16 ==> r == 0
  {
    ClearLow(Wrap(nBytes + 15), 16)
  }

  /** The `ssize_t` delta `gc_alloc` applies: `-(ssize_t)RoundUp16(n)`. */
  function AllocDelta(nBytes: SizeT): (d: SSizeT)
    ensures RoundUp16(nBytes) < SignedLimit ==> d + RoundUp16(nBytes) == 0
  {
    WrapSigned(-(ToSigned(RoundUp16(nBytes)) as int))
  }

  // ---------------------------------------------------------------------
  // Counters
  // ---------------------------------------------------------------------

  /** `ospi_gc_stats_t`. */
  datatype OspiGcStats = OspiGcStats(
    allocCount: SizeT,
    freeCount: SizeT,
    totalAllocated: SizeT,
    currentAllocated: SizeT,
    maxFreeBlock: SizeT)

  /** `gc_pressure_stats_t`. */
  datatype PressureStats = PressureStats(allocFailFast: SizeT, allocFailFull: SizeT)

  const ZeroStats: OspiGcStats := OspiGcStats(0, 0, 0, 0, 0)
  const ZeroPressure: PressureStats := PressureStats(0, 0)

  /** The statistics after `ospi_update_stats(bytes, is_alloc)`. */
  function StatsAfter(s: OspiGcStats, bytes: SizeT, isAlloc: bool): (r: OspiGcStats)
    ensures r.maxFreeBlock == s.maxFreeBlock
    ensures isAlloc ==> r.freeCount == s.freeCount
    ensures !isAlloc ==> r.allocCount == s.allocCount && r.totalAllocated == s.totalAllocated
  {
    if isAlloc then
      s.(allocCount := Wrap(s.allocCount + 1),
         currentAllocated := Wrap(s.currentAllocated + bytes),
         totalAllocated := Wrap(s.totalAllocated + bytes))
    else
      s.(freeCount := Wrap(s.freeCount + 1),
         currentAllocated := if bytes > s.currentAllocated then 0 else s.currentAllocated - bytes)
  }

  /** An allocation counts once and adds its size to the live and the total
      figures (modulo 2^32, as the `size_t` fields wrap). */
  lemma AllocCountsAndAdds(s: OspiGcStats, bytes: SizeT)
    ensures var r := StatsAfter(s, bytes, true);
            && (r.allocCount - s.allocCount - 1) % WordLimit == 0
            && (r.currentAllocated - s.currentAllocated - bytes) % WordLimit == 0
            && (r.totalAllocated - s.totalAllocated - bytes) % WordLimit == 0
            && (s.currentAllocated + bytes < WordLimit ==> r.currentAllocated == s.currentAllocated + bytes)
  {
  }

  /** A release counts once and takes its size off the live figure, which
      saturates at zero instead of wrapping. */
  lemma FreeSaturatesAtZero(s: OspiGcStats, bytes: SizeT)
    ensures var r := StatsAfter(s, bytes, false);
            && (r.freeCount - s.freeCount - 1) % WordLimit == 0
            && r.currentAllocated == Max(0, s.currentAllocated - bytes)
            && r.currentAllocated <= s.currentAllocated
  {
  }

  /** Releasing what was just allocated restores the live figure, unless the
      allocation wrapped it around. */
  lemma AllocThenFreeRestoresCurrent(s: OspiGcStats, bytes: SizeT)
    ensures var r := StatsAfter(StatsAfter(s, bytes, true), bytes, false);
            r.currentAllocated == if s.currentAllocated + bytes < WordLimit then s.currentAllocated else 0
  {
  }

  /** `ospi_update_free_stats(size)`: the largest size seen. */
  function MaxFreeAfter(s: OspiGcStats, size: SizeT): (r: OspiGcStats)
    ensures r.maxFreeBlock == Max(s.maxFreeBlock, size)
    ensures r == s.(maxFreeBlock := r.maxFreeBlock)
  {
    if size > s.maxFreeBlock then s.(maxFreeBlock := size) else s
  }

  /** The free-byte counter after `gc_update_free_bytes(delta)`: a negative
      delta larger than the counter clamps it to zero; otherwise `delta` is
      added in `size_t` arithmetic. */
  function FreeBytesAfter(free: SizeT, delta: SSizeT): (r: SizeT)
    ensures delta < 0 ==> r == Max(0, free + delta)
    ensures delta >= 0 ==> r == Wrap(free + delta)
  {
    if delta < 0 && Wrap(-(delta as int)) > free then 0 else Wrap(free + delta)
  }

  /** A successful `gc_alloc` of a request whose rounded size fits `ssize_t`
      takes that rounded size off the counter, stopping at zero. */
  lemma AllocChargesRoundedSize(free: SizeT, nBytes: SizeT)
    requires nBytes <= SignedLimit - 16
    ensures FreeBytesAfter(free, AllocDelta(nBytes)) == Max(0, free - RoundUp16(nBytes))
    ensures RoundUp16(nBytes) >= nBytes
  {
  }

  /** The fast critical-memory test: fewer than 8 KiB free while emergency
      mode is off. */
  predicate Critical(free: SizeT, emergency: bool) {
    free < EmergencyReserve && !emergency
  }

  /** After a successful `gc_alloc` of a request whose rounded size fits
      `ssize_t`, memory is critical exactly when the counter held less than
      that size plus the 8 KiB reserve; in particular a charge never clears
      the critical state. */
  lemma CriticalAfterAlloc(free: SizeT, emergency: bool, nBytes: SizeT)
    requires nBytes <= SignedLimit - 16
    ensures var after := FreeBytesAfter(free, AllocDelta(nBytes));
            Critical(after, emergency) <==> !emergency && free < RoundUp16(nBytes) + EmergencyReserve
    ensures Critical(free, emergency) ==> Critical(FreeBytesAfter(free, AllocDelta(nBytes)), emergency)
  {
    AllocChargesRoundedSize(free, nBytes);
  }

  /** After `gc_free` gives back a block of `nBytes` (below the `ssize_t`
      limit, without wrapping the counter), memory is critical exactly when
      the counter plus that size is still below the reserve. */
  lemma CriticalAfterFree(free: SizeT, emergency: bool, nBytes: SizeT)
    requires nBytes < SignedLimit && free + nBytes < WordLimit
    ensures var after := FreeBytesAfter(free, ToSigned(nBytes));
            Critical(after, emergency) <==> !emergency && free + nBytes < EmergencyReserve
  {
  }

  /** The `ssize_t` delta `gc_realloc` applies: `(ssize_t)old - (ssize_t)new_sz`. */
  function ReallocDelta(oldSize: SizeT, newSize: SizeT): SSizeT {
    WrapSigned(ToSigned(oldSize) - ToSigned(newSize))
  }

  /** For sizes that fit `ssize_t`, a shrinking `gc_realloc` gives the
      difference back and a growing one charges it, clamped at zero. */
  lemma ReallocChargesGrowth(free: SizeT, oldSize: SizeT, newSize: SizeT)
    requires oldSize < SignedLimit && newSize < SignedLimit
    ensures FreeBytesAfter(free, ReallocDelta(oldSize, newSize))
              == if oldSize >= newSize then Wrap(free + (oldSize - newSize))
                 else Max(0, free - (newSize - oldSize))
  {
  }

  // ---------------------------------------------------------------------
  // The area allocator, on the block-kind table
  // ---------------------------------------------------------------------

  /** The kind of a block in an area's allocation table (`AT_FREE`,
      `AT_HEAD`, `AT_TAIL`, `AT_MARK`). */
  datatype BlockKind = Free | Head | Tail | Mark

  /** The table as "is free" flags. */
  function FreeOf(kinds: seq<BlockKind>): (m: seq<bool>)
    ensures |m| == |kinds|
    ensures forall i :: 0 <= i < |kinds| ==> (m[i] <==> kinds[i] == Free)
  {
    seq(|kinds|, i requires 0 <= i < |kinds| => kinds[i] == Free)
  }

  /** Blocks `[s, s + m)` claimed: `s` becomes HEAD, the rest TAIL. */
  function Claim(kinds: seq<BlockKind>, s: nat, m: nat): (r: seq<BlockKind>)
    requires s + m <= |kinds|
    ensures |r| == |kinds|
  {
    seq(|kinds|, i requires 0 <= i < |kinds| =>
      if i == s && m > 0 then Head else if s < i < s + m then Tail else kinds[i])
  }

  /** The run length the scan actually looks for: `consecutive >= n_blocks`
      is compared only after the increment, so a count of 0 still takes one block. */
  function RunNeeded(nBytes: SizeT): nat {
    Max(BlocksForArea(nBytes), 1)
  }

  /** Where `ospi_alloc_from_area` places a request, if anywhere: nowhere
      when the aligned count exceeds the cap, else the first fit. */
  function AreaPick(kinds: seq<BlockKind>, nBytes: SizeT): (r: Option<nat>)
    ensures r.Some? ==> r.value + RunNeeded(nBytes) <= |kinds|
  {
    if BlocksForArea(nBytes) > MaxBlocksPerAlloc then None
    else FirstFit(FreeOf(kinds), RunNeeded(nBytes))
  }

  /** A placement is the lowest start of a long enough run of free blocks;
      there is none exactly when the count exceeds the cap or no such run
      exists. */
  lemma AreaPickIsFirstFit(kinds: seq<BlockKind>, nBytes: SizeT)
    ensures AreaPick(kinds, nBytes).None? <==>
              BlocksForArea(nBytes) > MaxBlocksPerAlloc
              || forall k: nat :: !FreeRun(FreeOf(kinds), k, RunNeeded(nBytes))
    ensures AreaPick(kinds, nBytes).Some? ==>
              var s := AreaPick(kinds, nBytes).value;
              && (forall j :: s <= j < s + RunNeeded(nBytes) ==> kinds[j] == Free)
              && (forall k: nat :: k < s ==> !FreeRun(FreeOf(kinds), k, RunNeeded(nBytes)))
  {
    var p := AreaPick(kinds, nBytes);
    if p.Some? {
      var s := p.value;
      assert FreeRun(FreeOf(kinds), s, RunNeeded(nBytes));
    }
  }

  /** The scan found the lowest run long enough for the request. */
  lemma AreaFoundSpec(kinds: seq<BlockKind>, nBytes: SizeT, start: nat)
    requires BlocksForArea(nBytes) <= MaxBlocksPerAlloc
    requires FreeRun(FreeOf(kinds), start, RunNeeded(nBytes))
    requires forall k: nat :: k < start ==> !FreeRun(FreeOf(kinds), k, RunNeeded(nBytes))
    ensures AreaPick(kinds, nBytes) == Some(start)
  {
    FirstFitIsLeast(FreeOf(kinds), RunNeeded(nBytes), start);
  }

  /** The scan reached the end with a trailing run too short. */
  lemma AreaNoFitSpec(kinds: seq<BlockKind>, nBytes: SizeT, c: nat)
    requires c < RunNeeded(nBytes) && c <= |kinds|
    requires forall k: nat :: k < |kinds| - c ==> !FreeRun(FreeOf(kinds), k, RunNeeded(nBytes))
    ensures AreaPick(kinds, nBytes) == None
  {
  }

  /** Claiming changes exactly the run, from free blocks into one HEAD and
      TAIL blocks, and no other entry. */
  lemma ClaimChangesOnlyTheRun(kinds: seq<BlockKind>, s: nat, m: nat)
    requires 1 <= m && s + m <= |kinds|
    requires forall j :: s <= j < s + m ==> kinds[j] == Free
    ensures var r := Claim(kinds, s, m);
            && r[s] == Head
            && (forall j :: s < j < s + m ==> r[j] == Tail)
            && (forall j :: 0 <= j < |kinds| && !(s <= j < s + m) ==> r[j] == kinds[j])
            && FreeOf(r) == SetRange(FreeOf(kinds), s, m, false)
  {
  }

  /** With the default 16-byte blocks and the 255-block cap no request from
      32 KiB up to the wrap-around can be placed in any area: it needs at
      least 2048 blocks. */
  lemma LargeRequestsExceedCap(kinds: seq<BlockKind>, nBytes: SizeT)
    requires OspiThreshold <= nBytes <= WordLimit - BytesPerBlock
    ensures BlocksForArea(nBytes) >= 2048
    ensures AreaPick(kinds, nBytes) == None
  {
  }

  /** A request within 15 bytes of 4 GiB wraps to zero blocks, and the scan
      then hands out a single HEAD block, the first free one. */
  lemma HugeRequestTakesOneBlock(kinds: seq<BlockKind>, nBytes: SizeT)
    requires nBytes > WordLimit - BytesPerBlock
    ensures BlocksForArea(nBytes) == 0 && RunNeeded(nBytes) == 1
    ensures AreaPick(kinds, nBytes) == FirstFit(FreeOf(kinds), 1)
  {
  }

  /** A GC memory area: its pool start and its block-kind table (one entry per
      block; the packing of four entries per table byte is abstracted). */
  class MemArea {
    const poolStart: Addr
    const table: array<BlockKind>

    /** The pool lies inside the 32-bit address space and does not start at
        NULL. */
    predicate Valid() {
      0 < poolStart && poolStart + table.Length * BytesPerBlock <= WordLimit
    }

    constructor (start: Addr, kinds: seq<BlockKind>)
      requires 0 < start && start + |kinds| * BytesPerBlock <= WordLimit
      ensures Valid() && poolStart == start && table[..] == kinds && fresh(table)
    {
      poolStart := start;
      table := new BlockKind[|kinds|](i requires 0 <= i < |kinds| => kinds[i]);
    }

    /** The marking step of `ospi_alloc_from_area`: one HEAD block at
        `start`, then TAIL blocks up to `n` blocks in all. */
    method ClaimRun(start: nat, n: nat)
      requires start + Max(n, 1) <= table.Length
      modifies table
      ensures table[..] == Claim(old(table[..]), start, Max(n, 1))
    {
      ghost var kinds := table[..];
      table[start] := Head;
      var i := 1;
      while i < n
        invariant 1 <= i <= Max(n, 1)
        invariant table[..] == Claim(kinds, start, i)
      {
        table[start + i] := Tail;
        i := i + 1;
      }
    }
  }

  /** The state of an area as the allocator sees it. */
  datatype AreaView = AreaView(poolStart: Addr, kinds: seq<BlockKind>)

  ghost function Views(areas: seq<MemArea>): (v: seq<AreaView>)
    reads set a | a in areas :: a.table
    ensures |v| == |areas|
  {
    seq(|areas|, i requires 0 <= i < |areas| reads set a | a in areas :: a.table =>
      AreaView(areas[i].poolStart, areas[i].table[..]))
  }

  /** The first OSPI area, from index `i` on, in which the request can be
      placed, with the placement. */
  function OspiHitFrom(views: seq<AreaView>, nBytes: SizeT, i: nat): (r: Option<(nat, nat)>)
    decreases |views| - i
    ensures r.Some? ==> i <= r.value.0 < |views| && IsOspiArea(views[r.value.0].poolStart)
                        && AreaPick(views[r.value.0].kinds, nBytes) == Some(r.value.1)
  {
    if i >= |views| then None
    else if IsOspiArea(views[i].poolStart) && AreaPick(views[i].kinds, nBytes).Some? then
      Some((i, AreaPick(views[i].kinds, nBytes).value))
    else OspiHitFrom(views, nBytes, i + 1)
  }

  /** The placement found is in the first OSPI area with room; no placement
      means no OSPI area from `i` on has room. */
  lemma {:induction false} OspiHitFromFirst(views: seq<AreaView>, nBytes: SizeT, i: nat)
    decreases |views| - i
    ensures var r := OspiHitFrom(views, nBytes, i);
            r.Some? ==> forall j :: i <= j < r.value.0 && IsOspiArea(views[j].poolStart) ==>
                          AreaPick(views[j].kinds, nBytes).None?
    ensures var r := OspiHitFrom(views, nBytes, i);
            r.None? ==> forall j :: i <= j < |views| && IsOspiArea(views[j].poolStart) ==>
                          AreaPick(views[j].kinds, nBytes).None?
  {
    if i < |views| && !(IsOspiArea(views[i].poolStart) && AreaPick(views[i].kinds, nBytes).Some?) {
      OspiHitFromFirst(views, nBytes, i + 1);
    }
  }

  /** The scan over the areas takes area `i` when it is an OSPI area with
      room. */
  lemma OspiHitAt(views: seq<AreaView>, nBytes: SizeT, i: nat)
    requires i < |views| && IsOspiArea(views[i].poolStart) && AreaPick(views[i].kinds, nBytes).Some?
    ensures OspiHitFrom(views, nBytes, i) == Some((i, AreaPick(views[i].kinds, nBytes).value))
  {
  }

  /** The scan passes over area `i` when it is not an OSPI area or has no
      room. */
  lemma OspiMissAt(views: seq<AreaView>, nBytes: SizeT, i: nat)
    requires i < |views|
    requires !IsOspiArea(views[i].poolStart) || AreaPick(views[i].kinds, nBytes).None?
    ensures OspiHitFrom(views, nBytes, i) == OspiHitFrom(views, nBytes, i + 1)
  {
  }

  /** The OSPI placement `gc_alloc` makes, if any: only requests of at least
      32 KiB try the OSPI areas, in list order. */
  function OspiHit(views: seq<AreaView>, nBytes: SizeT): Option<(nat, nat)> {
    if nBytes < OspiThreshold then None else OspiHitFrom(views, nBytes, 0)
  }

  /** Between 32 KiB and the wrap-around no OSPI placement is ever made. */
  lemma OspiPathNeverTaken(views: seq<AreaView>, nBytes: SizeT)
    requires nBytes <= WordLimit - BytesPerBlock
    ensures OspiHit(views, nBytes) == None
  {
    if nBytes >= OspiThreshold {
      forall j | 0 <= j < |views|
        ensures AreaPick(views[j].kinds, nBytes) == None
      {
        LargeRequestsExceedCap(views[j].kinds, nBytes);
      }
    }
  }

  /** The module's static state: `gc_free_bytes`, `last_validate_ms`,
      `ospi_emergency_mode`, `ospi_gc_stats` and `gc_pressure_stats`. */
  class GcState {
    var freeBytes: SizeT
    var lastValidateMs: SizeT
    var emergencyMode: bool
    var stats: OspiGcStats
    var pressure: PressureStats

    /** The zero-initialised statics. */
    constructor ()
      ensures freeBytes == 0 && lastValidateMs == 0 && !emergencyMode
      ensures stats == ZeroStats && pressure == ZeroPressure
    {
      freeBytes, lastValidateMs, emergencyMode := 0, 0, false;
      stats, pressure := ZeroStats, ZeroPressure;
    }

    /** `ospi_check_critical_memory_fast`. */
    predicate CriticalFast()
      reads this
    {
      Critical(freeBytes, emergencyMode)
    }

    /** `ospi_update_stats(bytes, is_alloc)`. */
    method UpdateStats(bytes: SizeT, isAlloc: bool)
      modifies this`stats
      ensures stats == StatsAfter(old(stats), bytes, isAlloc)
    {
      if isAlloc {
        stats := stats.(allocCount := Wrap(stats.allocCount + 1));
        stats := stats.(currentAllocated := Wrap(stats.currentAllocated + bytes));
        stats := stats.(totalAllocated := Wrap(stats.totalAllocated + bytes));
      } else {
        stats := stats.(freeCount := Wrap(stats.freeCount + 1));
        if bytes > stats.currentAllocated {
          stats := stats.(currentAllocated := 0);
        } else {
          stats := stats.(currentAllocated := stats.currentAllocated - bytes);
        }
      }
    }

    /** `ospi_update_free_stats(size)`. */
    method UpdateFreeStats(size: SizeT)
      modifies this`stats
      ensures stats == MaxFreeAfter(old(stats), size)
    {
      if size > stats.maxFreeBlock {
        stats := stats.(maxFreeBlock := size);
      }
    }

    /** `gc_update_free_bytes(delta)`. */
    method UpdateFreeBytes(delta: SSizeT)
      modifies this`freeBytes
      ensures freeBytes == FreeBytesAfter(old(freeBytes), delta)
    {
      if delta < 0 && Wrap(-(delta as int)) > freeBytes {
        freeBytes := 0;
      } else {
        freeBytes := Wrap(freeBytes + delta);
      }
    }

    /** `gc_init(start, end)`, after the default initialisation: the counter
        holds the heap size (0 for an empty or inverted range), the timestamp
        is the current tick count, and both statistics blocks are zeroed. */
    method Init(start: Addr, end: Addr, nowMs: SizeT)
      modifies this
      ensures freeBytes == (if end > start then end - start else 0)
      ensures lastValidateMs == nowMs && !emergencyMode
      ensures stats == ZeroStats && pressure == ZeroPressure
      ensures CriticalFast() <==> end <= start || end - start < EmergencyReserve
    {
      freeBytes := if end > start then end - start else 0;
      lastValidateMs := nowMs;
      emergencyMode := false;
      stats := ZeroStats;
      pressure := ZeroPressure;
    }

    /** `ospi_alloc_from_area(area, n_bytes, flags)`: a first-fit scan over
        the table counting consecutive free blocks; at the first long enough
        run, one HEAD and then TAIL blocks are marked and the statistics
        record the aligned size. */
    method AllocFromArea(area: MemArea, nBytes: SizeT) returns (p: Addr)
      requires area.Valid()
      modifies this`stats, area.table
      ensures match AreaPick(old(area.table[..]), nBytes)
        case None =>
          p == 0 && area.table[..] == old(area.table[..]) && stats == old(stats)
        case Some(s) =>
          && p == area.poolStart + s * BytesPerBlock && p != 0
          && area.table[..] == Claim(old(area.table[..]), s, RunNeeded(nBytes))
          && stats == StatsAfter(old(stats), BlocksForArea(nBytes) * BytesPerBlock, true)
    {
      var nBlocks := Wrap(nBytes + BytesPerBlock - 1) / BytesPerBlock;
      nBlocks := AlignBlocks(nBlocks);
      assert nBlocks == BlocksForArea(nBytes);
      if nBlocks > MaxBlocksPerAlloc {
        return 0;
      }
      ghost var kinds := area.table[..];
      ghost var free := FreeOf(kinds);
      ghost var need := RunNeeded(nBytes);
      var consecutive, startBlock := 0, 0;
      var block := 0;
      while block < area.table.Length
        invariant 0 <= block <= area.table.Length && consecutive <= block && consecutive < need
        invariant area.table[..] == kinds && stats == old(stats)
        invariant forall j :: block - consecutive <= j < block ==> free[j]
        invariant consecutive > 0 ==> startBlock == block - consecutive
        invariant forall k: nat :: k < block - consecutive ==> !FreeRun(free, k, need)
      {
        if area.table[block] == Free {
          if consecutive == 0 {
            startBlock := block;
          }
          consecutive := consecutive + 1;
          if consecutive >= nBlocks {
            AreaFoundSpec(kinds, nBytes, startBlock);
            area.ClaimRun(startBlock, nBlocks);
            p := area.poolStart + startBlock * BytesPerBlock;
            UpdateStats(nBlocks * BytesPerBlock, true);
            return;
          }
        } else {
          consecutive := 0;
        }
        block := block + 1;
      }
      AreaNoFitSpec(kinds, nBytes, consecutive);
      return 0;
    }

    /** `gc_alloc(n_bytes, alloc_flags)`. Requests of at least 32 KiB first
        try every OSPI area in list order; `fallback` is what
        `gc_alloc_original` returns. Any success charges the rounded size to
        the free counter; a failure leaves it alone. When no OSPI area takes
        the request, only the OSPI areas are promised to be untouched:
        `gc_alloc_original` allocates (and may collect) in the others. */
    method GcAlloc(nBytes: SizeT, areas: seq<MemArea>, fallback: Addr) returns (p: Addr)
      requires forall a :: a in areas ==> a.Valid()
      requires forall i, j :: 0 <= i < |areas| && 0 <= j < |areas| && i != j ==> areas[i].table != areas[j].table
      modifies this`stats, this`freeBytes, set a | a in areas :: a.table
      ensures match OspiHit(old(Views(areas)), nBytes)
        case Some((i, s)) =>
          && p == areas[i].poolStart + s * BytesPerBlock
          && areas[i].table[..] == Claim(old(areas[i].table[..]), s, RunNeeded(nBytes))
          && (forall j :: 0 <= j < |areas| && j != i ==> areas[j].table[..] == old(areas[j].table[..]))
          && stats == StatsAfter(old(stats), BlocksForArea(nBytes) * BytesPerBlock, true)
          && freeBytes == FreeBytesAfter(old(freeBytes), AllocDelta(nBytes))
        case None =>
          && p == fallback
          && (forall j :: 0 <= j < |areas| && IsOspiArea(areas[j].poolStart) ==> areas[j].table[..] == old(areas[j].table[..]))
          && stats == old(stats)
          && freeBytes == (if fallback != 0 then FreeBytesAfter(old(freeBytes), AllocDelta(nBytes)) else old(freeBytes))
          && (fallback != 0 && nBytes <= SignedLimit - 16 ==>
                (CriticalFast() <==> !emergencyMode && old(freeBytes) < RoundUp16(nBytes) + EmergencyReserve))
      ensures emergencyMode == old(emergencyMode)
      ensures nBytes <= SignedLimit - 16 && old(CriticalFast()) ==> CriticalFast()
    {
      ghost var views := Views(areas);
      if nBytes >= OspiThreshold {
        var i := 0;
        while i < |areas|
          invariant 0 <= i <= |areas|
          invariant OspiHitFrom(views, nBytes, 0) == OspiHitFrom(views, nBytes, i)
          invariant forall j :: 0 <= j < |areas| ==> areas[j].table[..] == views[j].kinds
          invariant stats == old(stats) && freeBytes == old(freeBytes)
        {
          if IsOspiArea(areas[i].poolStart) {
            var q := AllocFromArea(areas[i], nBytes);
            if q != 0 {
              OspiHitAt(views, nBytes, i);
              UpdateFreeBytes(AllocDelta(nBytes));
              return q;
            }
          }
          OspiMissAt(views, nBytes, i);
          i := i + 1;
        }
      }
      p := fallback;
      if p != 0 {
        UpdateFreeBytes(AllocDelta(nBytes));
        if nBytes <= SignedLimit - 16 {
          CriticalAfterAlloc(old(freeBytes), emergencyMode, nBytes);
        }
      }
    }

    /** `gc_free(ptr)`: NULL is ignored; otherwise the block's size, as
        `gc_nbytes` reports it before `gc_free_original` runs, is given back
        to the counter. */
    method GcFree(ptr: Addr, nBytes: SizeT)
      modifies this`freeBytes
      ensures freeBytes == if ptr == 0 then old(freeBytes) else FreeBytesAfter(old(freeBytes), ToSigned(nBytes))
      ensures ptr != 0 && nBytes < SignedLimit && old(freeBytes) + nBytes < WordLimit ==>
                (CriticalFast() <==> !emergencyMode && old(freeBytes) + nBytes < EmergencyReserve)
    {
      if ptr == 0 {
        return;
      }
      UpdateFreeBytes(ToSigned(nBytes));
      if nBytes < SignedLimit && old(freeBytes) + nBytes < WordLimit {
        CriticalAfterFree(old(freeBytes), emergencyMode, nBytes);
      }
    }

    /** `gc_realloc(ptr, n_bytes, allow_move)`: `result` is what
        `gc_realloc_original` returns, `oldSize` and `newSize` what
        `gc_nbytes` reports for the old and the new block. The old size of
        NULL is 0; only a non-NULL result changes the counter, by the size
        difference. */
    method GcRealloc(ptr: Addr, result: Addr, oldSize: SizeT, newSize: SizeT) returns (p: Addr)
      modifies this`freeBytes
      ensures p == result
      ensures freeBytes == if result == 0 then old(freeBytes)
                           else FreeBytesAfter(old(freeBytes), ReallocDelta(if ptr != 0 then oldSize else 0, newSize))
    {
      var oldBytes := if ptr != 0 then oldSize else 0;
      if result != 0 {
        UpdateFreeBytes(ReallocDelta(oldBytes, newSize));
      }
      return result;
    }
  }
}
