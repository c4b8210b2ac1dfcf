# OSPI memory and network test core of the VK-RA6M5 MicroPython port, in Dafny

This project models the parts of the VK-RA6M5 MicroPython port that do the
bookkeeping for the board's 8 MiB OSPI RAM, register external interrupts,
and run the on-board file-transfer tests. It proves properties of each part:

- **OSPI bitmap heap** (`ports/renesas-ra/ospi_heap.c`). Module
  `OspiHeap`: a class holding the bitmap as an `array<bv8>`, one bit per
  32-byte block. Each operation is proved against a function on the block
  map (`seq<bool>`, true = free) that it encodes. The properties are first
  fit, the exact frame of an allocation, conservation of the free count, and
  the naive release rule together with its consequence: freeing one
  allocation also frees an adjacent later one.
- **OSPI additions to the garbage collector** (`py/gc_ospi.c`). Module
  `GcOspi`:
  - the 32-bit `size_t` counters, with wrap-around and the saturating guards
    written out;
  - the statistics records;
  - block alignment;
  - the first-fit HEAD/TAIL allocator over an area's block-kind table;
  - the counter bookkeeping of `gc_init`, `gc_alloc`, `gc_free` and
    `gc_realloc`.
- **External-interrupt table** (`extint_modified.c`). Module `ExtInt`: the
  trigger-condition encoding, the per-line tables as arrays, the two
  registration paths with their "vector busy" rules, the range guards, boot
  initialisation and the slot-clearing path of the interrupt shim. The
  interrupt controller is two ghost sequences: line enabled, and the last
  condition code.
- **Two minimal HTTP file servers**:
  - `network_test_main.py`, module `NetworkTester`: a catalogue of test
    files in insertion order, with 404/405 answers;
  - `simple_web_server.py`, module `SimpleWebServer`: routing on the path
    alone, a DHCP wait and files created on demand.

  Both share four modules:
  - `Text`: Python's `split`, `split(sep, maxsplit)`, `strip`, `str()`,
    `f"{n:,}"` and UTF-8 length;
  - `Http`: response rendering, with round trips of the status and the body;
  - `Wire`: the client socket as an append-only log, the file store as a
    map, the chunked transfer loop and the byte pattern of the test files;
  - `Runs`: block maps, first fit and free counts.
- **Small encoders and classifiers**:
  - `ButtonImage`: the RGB565 button bitmap;
  - `CrashTest`: the word-index buffer fill and the stop rules of the
    allocation loop;
  - `ObjectSpans`: the span classifier of `check_object_spans.py`;
  - `RegionCompare`: the region labels and the proceed and faster decisions
    of `proper_memory_comparison.py`.

Machine integers are 32 bits wide, as on the Cortex-M33 target (`Base.SizeT`,
`Base.SSizeT`, `Base.Wrap`).

The model follows the code as written, including these details:

- `serve_405` (`network_test_main.py:325-332`) sends no `Allow` header,
  although section 15.5.6 of RFC 9110 requires a 405 response to carry one.
  It does send an HTML body.
- A request without a line terminator is not rejected: `split('\n')[0]` is
  then the whole request text.
- `network_test_main.py` serves as files only paths that start with
  `/test_` and end with `.bin`; any other GET path is 404, even for a file
  that exists.
- The in-source comment of `ospi_free` says "free until next used block",
  but the loop frees used blocks until the next free one. The model does
  what the loop does.

## Model

| member | source | states |
|---|---|---|
| OspiHeap.Heap.Init | ports/renesas-ra/ospi_heap.c:10-14 | a fresh bitmap of 32768 zero bytes: every one of the 262144 blocks is free |
| OspiHeap.Heap.IsFree | ports/renesas-ra/ospi_heap.c:16-18 | true exactly when bit `blk & 7` of byte `blk >> 3` is clear, i.e. the block map says the block is free |
| OspiHeap.FreeMapOfBitWrite | ports/renesas-ra/ospi_heap.c:22-25 | setting or clearing one block's bit changes that block's entry in the block map and no other entry |
| OspiHeap.Heap.MarkUsed | ports/renesas-ra/ospi_heap.c:20-28 | after the countdown loop the `cnt` blocks from `blk` are used (or free) and every other block keeps its state |
| OspiHeap.BlocksFor | ports/renesas-ra/ospi_heap.c:34 | the block count is the least `k` with `32k >= n`, i.e. ceil(n/32) |
| OspiHeap.MallocSpec | ports/renesas-ra/ospi_heap.c:30-48 | the reference allocation on the block map: NULL and no change for 0, more than 8 MiB or no fit; otherwise the first-fit run, marked used; the map keeps its 262144 entries |
| OspiHeap.Heap.Malloc | ports/renesas-ra/ospi_heap.c:30-48 | result and new block map are those of the first-fit specification: NULL and no change for 0, oversized, or no fit; otherwise the run's address, with the run now used |
| OspiHeap.MallocRejectsEmptyAndOversized | ports/renesas-ra/ospi_heap.c:31-33 | a request of 0 bytes or of more than 8 MiB returns NULL and leaves every block as it was |
| OspiHeap.MallocFirstFitExact | ports/renesas-ra/ospi_heap.c:34-41 | on success the address is base + 32·s, where s is the lowest start of a free run of ceil(n/32) blocks; exactly those blocks become used; available space drops by 32·ceil(n/32) |
| OspiHeap.MallocFailsIffNoRun | ports/renesas-ra/ospi_heap.c:36-47 | for a valid size, NULL comes back exactly when no run of ceil(n/32) free blocks exists, and then nothing changes |
| OspiHeap.Heap.Free | ports/renesas-ra/ospi_heap.c:50-60 | the new block map is the release specification: no change for NULL or a foreign pointer; otherwise the used run from the pointer's block is cleared |
| OspiHeap.FreeIgnoresForeignPointers | ports/renesas-ra/ospi_heap.c:51-53 | NULL, pointers past the heap and pointers below the base (whose unsigned offset wraps) change nothing |
| OspiHeap.FreeSpec | ports/renesas-ra/ospi_heap.c:50-60 | the reference release on the block map, with the offset wrapped to 32 bits as `uintptr_t` does; the map keeps its 262144 entries |
| OspiHeap.FreeClearsMaximalUsedRun | ports/renesas-ra/ospi_heap.c:54-59 | the blocks from the pointer's block up to the first free block (or the end) go from used to free; every other block keeps its state |
| OspiHeap.MallocThenFreeRestores | ports/renesas-ra/ospi_heap.c:30-60 | freeing an allocation that is followed by a free block (or ends the heap) restores the block map from before the allocation |
| OspiHeap.FreeReleasesAdjacentAllocation | ports/renesas-ra/ospi_heap.c:55-59 | after two back-to-back allocations, freeing the first also releases every block of the second |
| OspiHeap.Heap.Available | ports/renesas-ra/ospi_heap.c:62-68 | the counting loop returns the number of free blocks times 32 |
| OspiHeap.InitAvailableIsWholeHeap | ports/renesas-ra/ospi_heap.c:10-14 | with all 262144 blocks free, the available size is exactly 8 MiB |
| Runs.FirstFitFrom | ports/renesas-ra/ospi_heap.c:36-47 | reference first fit: the start found begins a free run and no earlier start does; None means no start does |
| Runs.FirstFitIsLeast | ports/renesas-ra/ospi_heap.c:36-47 | the lowest start of a long-enough free run is what first fit returns |
| Runs.CountFreeSetRange | ports/renesas-ra/ospi_heap.c:62-68 | marking n free blocks used lowers the free count by n, and releasing n used blocks raises it by n |
| Runs.UsedRunEnd | ports/renesas-ra/ospi_heap.c:56-59 | the end of the release loop: every block before it (from the start) is used, and the block at it is free unless it is the end |
| Runs.UsedRunEndCovers | ports/renesas-ra/ospi_heap.c:56-59 | the release loop runs at least to the end of every used stretch that starts at its first block |
| GcOspi.IsOspiArea | py/gc_ospi.c:56-58 | the OSPI-area test on a pool's start address (at or above 0x90000000); its consequence for the board is NoKnownWindowIsOspiArea |
| GcOspi.NoKnownWindowIsOspiArea | py/gc_ospi.c:56-58 | a pool in internal SRAM, the mapped OSPI window or the direct OSPI window never counts as an OSPI area (threshold 0x90000000) |
| GcOspi.AlignBlocks | py/gc_ospi.c:60-62 | `(b + 7) & ~7` in 32 bits is a multiple of 8 in `[b, b + 8)`, and 0 when `b + 7` wraps |
| GcOspi.AlignBlocksIsLeastMultiple | py/gc_ospi.c:60-62 | below the wrap-around, no multiple of 8 that is at least `b` is smaller than the aligned count |
| GcOspi.BlocksForArea | py/gc_ospi.c:169-170 | the area allocator's count is align8(ceil(n/16)): it covers n bytes and is the least such multiple of 8; it is 0 when `n + 15` wraps |
| GcOspi.RoundUp16 | py/gc_ospi.c:132 | the size `gc_alloc` charges is n rounded up to a multiple of 16, and 0 when `n + 15` wraps |
| GcOspi.AllocDelta | py/gc_ospi.c:132 | the `ssize_t` delta is the negated rounded size whenever that size fits `ssize_t` |
| GcOspi.StatsAfter | py/gc_ospi.c:64-77 | an alloc touches only `alloc_count`, `current_allocated` and `total_allocated`; a free touches only `free_count` and `current_allocated`; `max_free_block` is never touched |
| GcOspi.AllocCountsAndAdds | py/gc_ospi.c:65-68 | an alloc adds one to `alloc_count` and adds `bytes` to `current_allocated` and `total_allocated`, modulo 2^32 |
| GcOspi.FreeSaturatesAtZero | py/gc_ospi.c:69-76 | a free adds one to `free_count` and sets `current_allocated` to max(0, current − bytes) |
| GcOspi.AllocThenFreeRestoresCurrent | py/gc_ospi.c:64-77 | an alloc then a free of the same size restores `current_allocated`, unless the alloc wrapped it |
| GcOspi.MaxFreeAfter | py/gc_ospi.c:79-83 | `max_free_block` becomes max(old, size) and no other field changes |
| GcOspi.FreeBytesAfter | py/gc_ospi.c:86-92 | a negative delta larger than the counter clamps it to 0, a smaller one subtracts it, and a positive delta adds it modulo 2^32 |
| GcOspi.AllocChargesRoundedSize | py/gc_ospi.c:139-142 | a successful allocation takes the rounded-up size off the counter, stopping at 0 |
| GcOspi.ReallocChargesGrowth | py/gc_ospi.c:155-163 | a shrinking realloc gives the difference back; a growing one charges it, clamped at 0 |
| GcOspi.AreaPick | py/gc_ospi.c:168-195 | a placement, when there is one, leaves room for the whole run inside the table |
| GcOspi.AreaPickIsFirstFit | py/gc_ospi.c:171-194 | no placement exactly when the count exceeds the 255-block cap or no free run is long enough; otherwise the lowest start of a long-enough free run |
| GcOspi.ClaimChangesOnlyTheRun | py/gc_ospi.c:182-185 | claiming a free run makes its first block HEAD and the rest TAIL, and leaves every other entry alone |
| GcOspi.LargeRequestsExceedCap | py/gc_ospi.c:169-173 | with 16-byte blocks and the 255 cap, every request from 32 KiB up to the wrap-around needs at least 2048 blocks and is never placed |
| GcOspi.HugeRequestTakesOneBlock | py/gc_ospi.c:169-180 | a request within 15 bytes of 4 GiB wraps to 0 blocks, and the scan then hands out the first free block alone |
| GcOspi.MemArea.ClaimRun | py/gc_ospi.c:182-185 | marks one HEAD block at the start, then TAIL blocks up to the count, and nothing else |
| GcOspi.OspiHitFrom | py/gc_ospi.c:128-135 | a hit is an OSPI area whose allocator can place the request, at the placement it makes |
| GcOspi.OspiHitFromFirst | py/gc_ospi.c:128-135 | the hit is the first OSPI area in list order with room; no hit means no OSPI area has room |
| GcOspi.OspiPathNeverTaken | py/gc_ospi.c:127-130 | below the wrap-around, a request never gets an OSPI placement |
| GcOspi.GcState.constructor | py/gc_ospi.c:35-53 | the zero-initialised statics |
| GcOspi.GcState.UpdateStats | py/gc_ospi.c:64-77 | the statistics after the call are `StatsAfter` of the old ones |
| GcOspi.GcState.UpdateFreeStats | py/gc_ospi.c:79-83 | the statistics after the call are `MaxFreeAfter` of the old ones |
| GcOspi.GcState.UpdateFreeBytes | py/gc_ospi.c:86-92 | the counter after the call is `FreeBytesAfter` of the old counter |
| GcOspi.GcState.CriticalFast | py/gc_ospi.c:94-96 | critical exactly when the free-byte counter is below 8 KiB and emergency mode is off |
| GcOspi.CriticalAfterAlloc | py/gc_ospi.c:86-96 | after a charge of a rounded size that fits `ssize_t`, memory is critical exactly when the counter held less than that size plus 8 KiB (emergency mode off); a charge never clears the critical state |
| GcOspi.CriticalAfterFree | py/gc_ospi.c:86-96 | after a block is given back without wrapping the counter, memory is critical exactly when the counter plus its size is below 8 KiB (emergency mode off) |
| GcOspi.GcState.Init | py/gc_ospi.c:111-121 | counter = end − start (0 when end <= start); timestamp = current ticks; emergency mode off; both statistics records zeroed; critical exactly when fewer than 8 KiB |
| GcOspi.GcState.AllocFromArea | py/gc_ospi.c:168-195 | NULL with table and statistics unchanged when nothing fits; otherwise pool start + 16·s, the run claimed HEAD/TAIL, the aligned size recorded |
| GcOspi.GcState.GcAlloc | py/gc_ospi.c:124-144 | the first OSPI area with room takes requests of at least 32 KiB, and no other table changes; otherwise the fallback result is returned and no OSPI area's table changes; only a success charges the counter; emergency mode is unchanged, a request that fits `ssize_t` never clears the critical state, and after a fallback success memory is critical exactly when the old counter was below the rounded size plus 8 KiB |
| GcOspi.GcState.GcFree | py/gc_ospi.c:147-152 | NULL changes nothing; otherwise the block's size is given back to the counter, and memory is then critical exactly when the counter plus that size is below 8 KiB (when neither wraps) |
| GcOspi.GcState.GcRealloc | py/gc_ospi.c:155-163 | returns the reallocated pointer; only a non-NULL result changes the counter, by old size (0 for NULL) minus new size |
| ExtInt.TriggerCondition | extint_modified.c:67-79 | the selected condition code is one of 0..3 |
| ExtInt.TriggerConditionMeaning | extint_modified.c:67-79 | low level wins over the edge bits; otherwise the line reacts to rising edges exactly when RISING is set, and to falling edges when FALLING is set or neither edge bit is |
| ExtInt.TriggerConditionCases | extint_modified.c:69-77 | code 0 iff LOWLEVEL; 3 iff RISING and FALLING without LOWLEVEL; 2 iff RISING alone; 1 iff neither LOWLEVEL nor RISING |
| ExtInt.StoredMode | extint_modified.c:122 | the stored `uint8_t` mode is the low byte of the requested mode |
| ExtInt.RegisterOutcome | extint_modified.c:101-118 | success returns the line of a pin object that has one |
| ExtInt.RegisterRejections | extint_modified.c:103-118 | "pin must be Pin", "pin has no EXTINT", "invalid pull" and "vector busy" are each raised exactly in their case, in the source's order; busy means no override, an occupied slot and a callback other than None |
| ExtInt.RegisterNoneOrOverrideNeverBusy | extint_modified.c:115-118 | unregistering (callback None) or overriding a valid pin always succeeds |
| ExtInt.RegisterPinOutcome | extint_modified.c:139-149 | success returns the pin's line |
| ExtInt.RegisterPinBusyRule | extint_modified.c:145-149 | EBUSY exactly when the slot is occupied, the callback is not None and the slot's argument is another object; the same pin may always re-register |
| ExtInt.ExtIntTable.constructor | extint_modified.c:29-33 | the per-line tables, all lines disabled |
| ExtInt.ExtIntTable.Enable | extint_modified.c:82-89 | enables the line; a line out of range changes nothing |
| ExtInt.ExtIntTable.Disable | extint_modified.c:91-98 | disables the line; a line out of range changes nothing |
| ExtInt.ExtIntTable.TriggerMode | extint_modified.c:169-176 | gives the line the mode's condition code; a line out of range changes nothing |
| ExtInt.ExtIntTable.Register | extint_modified.c:101-136 | a rejected request changes no table; an accepted one sets slot = cb, the mode's low byte, soft IRQ, arg = pin object and IRQ number = line; the line is enabled, with the trigger set, exactly when cb is not None |
| ExtInt.ExtIntTable.RegisterPin | extint_modified.c:139-166 | as Register, with the caller's hard flag stored and EBUSY as the only busy rule |
| ExtInt.ExtIntTable.Init0 | extint_modified.c:179-184 | every callback slot is None |
| ExtInt.ExtIntTable.Callback | extint_modified.c:36-64 | an empty slot is ignored; a soft IRQ is scheduled with its argument; a hard IRQ is called, and when that raises, the slot becomes None and the line is disabled; nothing else changes |
| NetworkTester.Lookup | network_test_main.py:275-280 | a name is found exactly when some catalogue entry has it |
| NetworkTester.AssignLookup | network_test_main.py:112 | after `test_files[name] = size`, the name maps to size and every other name maps to what it did before |
| NetworkTester.AssignOrder | network_test_main.py:112 | re-assigning a key keeps the key order, and a new key goes last (dict insertion order) |
| NetworkTester.AssignUnique | network_test_main.py:112 | assigning never duplicates a key |
| NetworkTester.RouteOf | network_test_main.py:206-219 | a test-file route names the path without its leading `/` |
| NetworkTester.RequestFields | network_test_main.py:187-202 | method and path of a request, or None for an empty request or a stripped first line with fewer than two fields; proved against concrete requests by RequestLineFields and SilentOnUnparsableRequest |
| NetworkTester.ListingPage | network_test_main.py:231-262 | the listing page text; its shape is ListingShowsEveryFile |
| NetworkTester.RouteReply | network_test_main.py:206-219 | the buffers sent for each route; characterised by NonGetIsNotAllowed, GetOfTestFile and GetOfIndex |
| NetworkTester.Reply | network_test_main.py:183-219 | the buffers sent for a received request: nothing for a failed receive or an unparsable request, else the route's reply; characterised by ReplyOfRequestLine |
| NetworkTester.ListingShowsEveryFile | network_test_main.py:248-255 | the page is head, address, every entry's block in catalogue order, then tail; each entry appears at its own position |
| NetworkTester.RequestLineFields | network_test_main.py:192-202 | a request whose first line is `method path version` CR LF yields exactly that method and path |
| NetworkTester.SilentOnUnparsableRequest | network_test_main.py:187-199 | nothing is sent when receiving failed, the request is empty, or its stripped first line has fewer than two space-separated fields |
| NetworkTester.ReplyOfRequestLine | network_test_main.py:196-219 | a well-formed request line is answered by the route of its method and path |
| NetworkTester.NonGetIsNotAllowed | network_test_main.py:217-219 | every method other than GET gets the 405 page, whatever the path |
| NetworkTester.GetOfTestFile | network_test_main.py:210-213 | GET `/test_*.bin` of an uncatalogued name is 404; a catalogued one gets the file head, then exactly the file's bytes when the stored length matches the catalogue |
| NetworkTester.FileReplyStreams | network_test_main.py:273-303 | `serve_file` sends 404 for an unknown name; otherwise the head with the catalogued size, then the file whole when its length matches |
| NetworkTester.GetOfIndex | network_test_main.py:264-271 | GET `/` sends the listing page with `Content-Length` equal to its character count, which equals the sent byte count exactly for ASCII pages; without an address nothing is sent |
| NetworkTester.PatternFilePassesIntegrity | network_test_main.py:129-139 | a pattern file passes the integrity check exactly when it holds at least 1024 bytes |
| NetworkTester.Tester.constructor | network_test_main.py:28-32 | no address and an empty catalogue |
| NetworkTester.Tester.SetupNetwork | network_test_main.py:34-78 | a raising LAN driver fails and keeps the address; otherwise the reported address is stored, and the setup succeeds exactly when it is not `0.0.0.0` |
| NetworkTester.Tester.CreateTestFile | network_test_main.py:80-118 | the given name, or `test_<n>mb.bin` by default, holds the pattern up to the failing chunk (all n MiB when none fails); an open that raises changes no file; only the named file can change; the catalogue gains the entry only when the open and every write succeeded |
| NetworkTester.Tester.VerifyFileIntegrity | network_test_main.py:120-154 | true exactly when the file exists, holds at least 1024 bytes, and byte i is `i & 0xFF` for i < 1024 |
| NetworkTester.Tester.CleanupTestFiles | network_test_main.py:383-392 | exactly the catalogued files are removed, and the catalogue is emptied |
| NetworkTester.Tester.Serve404 | network_test_main.py:316-323 | sends the 404 page once |
| NetworkTester.Tester.Serve405 | network_test_main.py:325-332 | sends the 405 page once |
| NetworkTester.Tester.BuildListing | network_test_main.py:231-262 | the `+=` loop builds the listing page for the whole catalogue |
| NetworkTester.Tester.ServeFileList | network_test_main.py:229-271 | sends the listing page once, or nothing without an address |
| NetworkTester.Tester.ServeFile | network_test_main.py:273-314 | sends exactly `FileReply`: 404, or the head followed by the chunked transfer |
| NetworkTester.Tester.Respond | network_test_main.py:206-219 | sends exactly the reply of the route of method and path |
| NetworkTester.Tester.RespondGet | network_test_main.py:207-216 | a GET sends the listing, the test file or the 404 page, as its route says |
| NetworkTester.Tester.HandleHttpRequest | network_test_main.py:183-227 | sends exactly the reply to the received request and closes the socket on every path |
| SimpleWebServer.FirstAssigned | simple_web_server.py:31-39 | the first of the 15 polls that reports an address other than `0.0.0.0`; None when all 15 report `0.0.0.0` |
| SimpleWebServer.RouteOf | simple_web_server.py:117-132 | a download route is `/download/` + name, and a create route is `/create/` + number + `mb` |
| SimpleWebServer.RequestPath | simple_web_server.py:104-113 | the path of a request, or None for an empty request or a first line that does not unpack into three fields; characterised by SilentUnlessThreeFields and RequestPathOfLine |
| SimpleWebServer.CreateOutcome | simple_web_server.py:203-208 | what `create_and_serve` sends and leaves; no file other than the created one changes |
| SimpleWebServer.RouteOutcome | simple_web_server.py:117-132 | what each route sends and leaves; characterised by CreateWritesPattern, CreateRejects and FileReplySendsWholeFile |
| SimpleWebServer.RequestOutcome | simple_web_server.py:104-137 | what a received request sends and leaves; characterised by OutcomeOfRequestLine and MethodIgnored |
| SimpleWebServer.Target | simple_web_server.py:57-64 | the writer aims at max(size, 0) bytes |
| SimpleWebServer.SilentUnlessThreeFields | simple_web_server.py:111-113 | the three-way unpack succeeds exactly when the stripped first line holds at least two spaces; otherwise nothing is sent and no file changes |
| SimpleWebServer.RequestPathOfLine | simple_web_server.py:111-113 | a first line `method path version` yields that path |
| SimpleWebServer.OutcomeOfRequestLine | simple_web_server.py:111-132 | a well-formed request line is answered by the route of its path |
| SimpleWebServer.MethodIgnored | simple_web_server.py:117-132 | two requests that differ only in the method get the same answer and leave the same files |
| SimpleWebServer.FileReplySendsWholeFile | simple_web_server.py:210-239 | a missing file is 404; a stored one gets a head whose `Content-Length` is its size, followed by exactly its bytes |
| SimpleWebServer.CreateWritesPattern | simple_web_server.py:122-128 | `/create/<n>mb` writes the pattern file `test_<n>mb.bin` and sends it back whole; a failed write leaves the partial file and an open that raises leaves every file as it was, both answered 500; no other file changes |
| SimpleWebServer.CreateRejects | simple_web_server.py:122-130 | `/create/` without the `mb` suffix is 404; a size that does not convert gets no answer; neither touches a file |
| SimpleWebServer.Server.constructor | simple_web_server.py:15-19 | no address yet |
| SimpleWebServer.Server.SetupNetwork | simple_web_server.py:22-51 | keeps the first address reported within 15 polls; succeeds exactly when a non-empty address is held; fails without change when the interface raised |
| SimpleWebServer.Server.CreateLargeFile | simple_web_server.py:53-87 | the file holds the pattern to the target size, or up to the failing chunk; an open that raises changes no file; returns true exactly when neither the open nor a write failed |
| SimpleWebServer.Server.Serve404 | simple_web_server.py:254-257 | sends the 404 page once |
| SimpleWebServer.Server.ServeError | simple_web_server.py:259-262 | sends the 500 page with the message once |
| SimpleWebServer.Server.ServeIndex | simple_web_server.py:200-201 | sends the index page under a 200 head once |
| SimpleWebServer.Server.ServeFile | simple_web_server.py:210-252 | sends exactly `FileReply`: 404, or head and chunked file |
| SimpleWebServer.Server.CreateAndServe | simple_web_server.py:203-208 | writes the file, then sends it, or the 500 page when creation failed |
| SimpleWebServer.Server.Respond | simple_web_server.py:117-132 | sends and leaves exactly the outcome of the path's route |
| SimpleWebServer.Server.RespondCreate | simple_web_server.py:122-132 | for paths other than `/` and `/download/…`: the create outcome, or 404 |
| SimpleWebServer.Server.HandleRequest | simple_web_server.py:104-137 | sends and leaves exactly the outcome of the received request, and closes the socket on every path |
| ButtonImage.PixelColor | image_button_example.py:40-56 | every pixel colour fits 16 bits |
| ButtonImage.LittleEndian16 | image_button_example.py:54 | two bytes, low byte first, whose value is the word |
| ButtonImage.RowsAt | image_button_example.py:49-56 | the pixel at column x, row y sits at offset 2(y·width + x) as its colour's little-endian word |
| ButtonImage.ImageLayout | image_button_example.py:49-56 | the picture holds 2·width·height bytes; pixel (x, y) is 0xFFFF/0x8410 (released/pressed) within three pixels of an edge and 0x3D7F/0x001F elsewhere |
| ButtonImage.ExampleSizes | image_button_example.py:61-64 | both 80×80 pictures hold 12800 bytes |
| ButtonImage.CreateSimpleButtonData | image_button_example.py:37-58 | the nested loops build exactly the specified picture |
| CrashTest.WordFill | memory_only_crash_test.py:21-27 | the buffer holds `size_kb · 1024` bytes |
| CrashTest.FillHoldsWordIndices | memory_only_crash_test.py:26-27 | bytes 4w..4w+3 read back little-endian give the word index w |
| CrashTest.CreateMemoryObject | memory_only_crash_test.py:19-31 | None exactly when the allocation raises; otherwise a fresh buffer filled with its word indices |
| CrashTest.Kept | memory_only_crash_test.py:44-70 | the number of buffers kept lies between the current test and the fifteen tests |
| CrashTest.KeptAtFirstHalt | memory_only_crash_test.py:52-70 | the run stops at the first test whose allocation fails (that buffer is not kept) or after which free memory is below twice the next size (that buffer is kept); if no test halts, all fifteen are kept |
| CrashTest.SizesIncrease | memory_only_crash_test.py:66-67 | the sizes strictly increase, so `test_sizes.index(size)` is the loop position |
| CrashTest.MemoryCrashTest | memory_only_crash_test.py:40-75 | keeps exactly the buffers before the first halt, in allocation order, each filled; the total is the sum of their lengths |
| CrashTest.SumLengths | memory_only_crash_test.py:74 | the sum of the kept buffers' lengths is the bytes of their test sizes |
| ObjectSpans.Classify | check_object_spans.py:57-68 | the four-way verdict on start and end; characterised by ClassifyCases |
| ObjectSpans.ClassifyCases | check_object_spans.py:57-68 | each of the four verdicts exactly in its case; a spanning object's two parts are positive and add up to its size |
| ObjectSpans.SpanningBelowSram | check_object_spans.py:61-66 | a spanning object's internal part exceeds the SRAM size exactly when it starts below SRAM |
| ObjectSpans.ReportedObject | check_object_spans.py:50-52 | a reported object's end is its start plus its size, and its verdict classifies those numbers |
| ObjectSpans.CheckObject | check_object_spans.py:50-68 | an object is skipped exactly when either reply is missing or empty |
| ObjectSpans.CheckObjects | check_object_spans.py:44-94 | at most one step per object, the first being the first object's check |
| ObjectSpans.CheckObjectsUniform | check_object_spans.py:76-94 | all three objects get the same check, in order, until a conversion raises |
| RegionCompare.RegionOf | proper_memory_comparison.py:66-73 | an unknown region carries the address itself |
| RegionCompare.Hex08RoundTrip | proper_memory_comparison.py:73 | reading back `f"{n:08x}"` gives n |
| RegionCompare.AddressOf | proper_memory_comparison.py:65 | `int(reply)` for a digit reply, 0 for any other; its effect on the region is ProceedIffDifferentRegions |
| RegionCompare.RegionLabel | proper_memory_comparison.py:64-86 | a label exists exactly when the board gave a non-empty reply |
| RegionCompare.Proceed | proper_memory_comparison.py:88-99 | the proceed decision; characterised by ProceedIffDifferentRegions |
| RegionCompare.LabelInjective | proper_memory_comparison.py:64-86 | two different regions, including two different unknown addresses, have different labels |
| RegionCompare.ProceedIffDifferentRegions | proper_memory_comparison.py:64-99 | the test proceeds exactly when both replies are non-empty and name different regions; a non-digit reply reads as address 0, which is unknown |
| RegionCompare.FasterDecision | proper_memory_comparison.py:145-168 | the strictly smaller time wins; a tie goes to the large object; a zero divisor raises |
| RegionCompare.Faster | proper_memory_comparison.py:145-168 | the verdict for one pair of reported times; characterised by FasterDecision |
| RegionCompare.Verdicts | proper_memory_comparison.py:145-168 | the write verdict, then the read verdict unless the write comparison raised |
| Text.Split | network_test_main.py:192 | at least one piece, and no piece holds the separator |
| Text.JoinSplit | network_test_main.py:192 | joining the pieces with the separator gives back the string |
| Text.SplitJoin | network_test_main.py:197 | splitting a join of separator-free pieces gives back the pieces |
| Text.SplitN | simple_web_server.py:113 | at most maxsplit + 1 pieces, and none but the last holds the separator |
| Text.JoinSplitN | simple_web_server.py:113 | the pieces of a bounded split join back to the string |
| Text.SplitNLength | simple_web_server.py:113 | a bounded split yields min(maxsplit, occurrences) + 1 pieces |
| Text.SplitNIsSplit | simple_web_server.py:113 | when no separator is left over, the bounded split is the full split |
| Text.SplitThreeFields | simple_web_server.py:113 | three space-free fields joined by single spaces split back into exactly those fields, bounded or not |
| Text.Strip | network_test_main.py:196 | a slice of the input with no whitespace at either end, and only whitespace cut off |
| Text.StripExact | network_test_main.py:196 | stripping removes exactly the surrounding whitespace |
| Text.StripIdempotent | network_test_main.py:196 | stripping twice is stripping once |
| Text.FirstLineStripped | network_test_main.py:192-196 | the first line of a CR LF terminated request, stripped, is the text before CR LF |
| Text.RequestLineSplit | network_test_main.py:192-197 | the stripped first line of `method path version` CR LF … splits into exactly those three fields |
| Text.NatToDecimal | network_test_main.py:285 | `str(n)` is nonempty, all digits, without a leading zero |
| Text.DecimalRoundTrip | proper_memory_comparison.py:148-149 | `int(str(n)) == n` |
| Text.DecimalInjective | network_test_main.py:285 | different numbers have different decimal texts |
| Text.Thousands | network_test_main.py:252 | `f"{n:,}"`: never empty; its digits are those of `str(n)` by ThousandsDigits |
| Text.ThousandsDigits | network_test_main.py:252 | `f"{n:,}"` with the commas removed is `str(n)` |
| Text.Utf8 | network_test_main.py:271 | `s.encode('utf-8')`: at least one byte per character |
| Text.Utf8Append | network_test_main.py:271 | the encoding of a concatenation is the concatenation of the encodings |
| Text.Utf8LengthIsCharCountIffAscii | network_test_main.py:266 | the encoding has one byte per character exactly when the text is ASCII |
| Http.Render | network_test_main.py:264-269 | the response text: head lines, the empty line, the body; recovered by StatusRoundTrip and BodyRoundTrip |
| Http.StatusRoundTrip | network_test_main.py:264-269 | a client reading the status line gets back the status code |
| Http.BodyRoundTrip | network_test_main.py:264-269 | for a well-formed response, a client taking what follows the first empty line gets exactly the body |
| Http.HtmlOkHeaders | network_test_main.py:264-268 | the page answer declares the page's character count as `Content-Length`, and `Connection: close` |
| Http.FileOkHeaders | network_test_main.py:283-289 | the file head declares the size as `Content-Length` and names the file as an attachment |
| Http.ErrorPage | network_test_main.py:316-332 | an error page has neither `Content-Length` nor `Allow`; its body ends when the connection closes |
| Http.FixedResponsesWellFormed | network_test_main.py:316-332 | the page answer and the error pages are well formed, so their bodies read back |
| Http.FileOkWellFormed | network_test_main.py:283-289 | the file head is well formed when the file name holds no line break |
| Http.FileHeadersPlain | network_test_main.py:283-289 | every header line of the file head is free of line breaks when the file name and the length are |
| Wire.ClientSocket.Send | network_test_main.py:302 | appends the buffer to the socket log |
| Wire.ClientSocket.Close | network_test_main.py:223-227 | marks the socket closed; the log is unchanged |
| Wire.Stream | network_test_main.py:297-303 | every buffer the loop sends holds between 1 and `chunk` bytes |
| Wire.StreamSendsPrefix | network_test_main.py:297-303 | from any offset, the bytes sent are the next stretch of the file, ending at its end or at the declared size, and overshooting the size by less than one chunk |
| Wire.StreamSendsWholeFile | network_test_main.py:293-303 | a file no longer than the declared size is sent whole, whatever the chunk size |
| Wire.StreamShortFile | network_test_main.py:297-300 | a file that ends before the declared size leaves the transfer short |
| Wire.StreamFile | simple_web_server.py:229-239 | the `sent < size` loop sends exactly the specified chunks, and `sent` ends as their total length |
| Wire.Pattern | simple_web_server.py:69-72 | n bytes, byte p being `p & 0xFF` |
| Wire.PatternPrefix | network_test_main.py:95-105 | a shorter pattern file is a prefix of a longer one |
| Wire.PatternExtend | simple_web_server.py:64-75 | appending the next chunk's bytes extends the pattern |
| Wire.BytesWritten | network_test_main.py:95-105 | the bytes on flash never exceed the size, and are fewer exactly when a chunk write raised; shared by both writers with their own chunk sizes (8 KiB and 4 KiB) |
| Wire.FilesAfterCreate | simple_web_server.py:60-75 | an open that raises leaves every file; otherwise the named file holds the written bytes and no other file changes |

## Left out

- I/O is not modelled: printing, progress messages, timing, `time.sleep`, and throughput figures.
- The socket is an append-only log. Send errors and partial sends are not modelled; every `send` hands over its whole buffer.
- `recv(1024).decode('utf-8')` is not modelled. The request text is a parameter, and None stands for a failed receive or decode.
- `open()` and `f.write` failures while creating a test file are one parameter (`Wire.Fault`): the open raises, or a numbered chunk write raises. A file that cannot be opened for sending is a name missing from the file store.
- `os.path.exists` and `os.stat(...)[6]` are membership in, and length in, the file-store map.
- Floats are not modelled, because MicroPython's float formatting is not part of this model:
  - the MiB text of the listing pages is a function parameter (`mbText`);
  - `int(float(s) * 1024 * 1024)` in `/create/` is a parameter (`bytesOf`), with None when `float()` raises;
  - non-integral sizes such as 0.1 MB are not modelled.
- NetworkTester.Tester.CreateTestFile: sizes are whole MiB, so the default file name uses `str(n)` of a natural number.
- `int()` on the REPL replies accepts only ASCII digits. Signs, spaces and underscores, which Python also accepts, are not modelled.
- SimpleWebServer.Server.ServeIndex: the index text is a parameter. `os.listdir`, the per-file `os.stat` and `gc.mem_free()` inside it are not modelled.
- The link-wait loop and the printed configuration of `setup_network` (network_test_main.py:38-58); only the address it stores and its verdict are modelled.
- `start_web_server`, `run_server`, `test_progressive_file_sizes` and `main` of `network_test_main.py` drive the LAN driver and the accept loop, and are left out.
- `start_server` and `run` of `simple_web_server.py` are left out for the same reason.
- SimpleWebServer.Server.SetupNetwork: the `ifconfig()` results are a function of the poll number. `lanOk` stands for a raising `network.LAN()`.
- Interrupt context is not modelled:
  - `nlr_push`, `mp_call_function_1` and `mp_sched_schedule`;
  - the `disable_irq`/`enable_irq` critical sections;
  - the ICU register writes (`ra_icu_set_pin`, `ra_icu_set_callback`, `ra_icu_priority_irq_no`).

  Their effect on the tables is what is modelled: the line-enabled flag and the condition code. ExtInt.ExtIntTable.Callback: whether the hard callback raises is a parameter.
- The pin-trigger and pull constants come from the port's `mphalport.h`, which is not part of this model. ExtInt uses the values 1/2/4 and 0/1, and its lemmas are stated over the named constants.
- ExtInt.ExtIntTable.constructor: the callback and argument slots start as None. In C they are `MP_OBJ_NULL` until `extint_init0` runs; the model does not tell those apart.
- `gc_init_original`, `gc_alloc_original`, `gc_free_original`, `gc_realloc_original` and `gc_nbytes` are not shown. Their results are parameters.
- GcOspi.GcState.GcAlloc: when no OSPI area takes the request it promises nothing about the tables of the other areas. `gc_alloc_original` allocates in them, and may collect, and that allocator is not modelled.
- GcOspi.MemArea: the allocation table is one entry per block. The packing of four two-bit entries per table byte (`ATB_GET_KIND`) is abstracted.
- The build gating of `py/gc_ospi.c` is not modelled: `#error`, the weak-symbol override, and the unmatched `#endif`.
- `ospi_heap_init` allocates the bitmap with `m_new`. Its allocation failure is not modelled; the constructor always gets a fresh array.
- CrashTest.FillHoldsWordIndices: stated for word indices below 2^32. Python's `to_bytes(4)` would raise for larger ones, but no test size comes near that.
- CrashTest.MemoryCrashTest: `gc.mem_free()` after each test and the allocation failures are parameters. The interpreter's heap is not modelled.
- The serial-port handling of `check_object_spans.py` and `proper_memory_comparison.py` is left out: writes, waits and REPL echo scraping. The replies are parameters.
- The speed-test commands of `proper_memory_comparison.py` that run on the board are left out.
- The LVGL and display parts of `image_button_example.py` are left out, as are `has_module` and the event callbacks.
