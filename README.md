# Espruino variable store, SSD1306 pixel buffer and software serial, in Dafny

This project models three parts of the Espruino JavaScript interpreter and
proves properties of the model.

**The JsVar pool (`src/jsvarcache.c`).** Every JavaScript value lives in
fixed-size records (JsVars), addressed by 1-based references; 0 means "no
reference". The model covers:

- the resizable build: a table of 4096-record blocks, modelled as a `Pool`
  class over a sequence of arrays;
- the flat build's addressing, as pure functions;
- the 128-line variable cache build, as a `Cache` class over arrays.

On these it models:

- the free list threaded through the next-sibling field of UNUSED records,
  built by `jsvInitJsVars` and `jsvCreateEmptyVarList` and cleared by
  `jsvClearEmptyVarList`;
- soft init and soft kill;
- the usage and free-space queries;
- growth of the pool with `jsvSetMemoryTotal`;
- the mark-and-sweep garbage collector `jsvGarbageCollect`. Its roots are
  the locked records, and its mark phase is `jsvGarbageCollectMarkUsed`.

Records are a datatype `Slot`, either `Unused(next)` or an occupied record
with its kind, lock count, child and sibling links, flat-string block count
and GC candidate bit. The record layer's predicates (`jsvHasCharacterData`,
`jsvHasSingleChild`, `jsvHasChildren`, `jsvIsFlatString`, `jsvGetLocks`) are
functions of the kind. `jsvUnRef` belongs to the record layer: the model
records the references it is called on and nothing else.

The collector is specified on pool values. The `Graph`/`Marking` modules
state what the mark phase achieves: only candidate bits are cleared, and a
record keeps its bit exactly when no locked record reaches it. The `Sweep`
module gives the pool after the sweep (`Released`), the jsvUnRef calls
(`UnrefTargets`) and the rebuilt free list. The imperative methods of
`VarPool.Pool` are proved against these functions. The `Rerun` module proves that a
second collection straight after the first frees nothing.

**The SSD1306 back end (`libs/graphics/lcd_ssd1306.c`).** A 64x32
monochrome buffer of 256 bytes. Each byte is a column of 8 pixels, and pixel
(x, y) is bit y%8 of byte x + (y/8)*64. The model proves:

- a written pixel reads back as written;
- every other pixel is unchanged;
- with the display's geometry, pixels never collide and never leave the
  buffer.

**Software serial (`src/jsserial.c`).** `jsserialSoftwareFunc` packs a
start bit, the data bits and the stop bits into one word. It then shifts
the word out one bit per bit time, and in the model each bit becomes a
recorded pin event. This is proved equal to an independent definition of
the frame and of its timing. `jsserialPopulateSerialInfo` checks the baud
rate, parity and flow options; its stored fields, `ok` result and raised
errors are stated exactly.

Modules: `Wrappers` (Option), `Slots` (records), `Scan` (the scan over the
pool, free refs, usage, tag and clear), `Threading` (threading a free list
behind a temporary record), `Graph` (walks, edges, reachability, mark
results), `Marking` (one call of the mark phase), `Collect` (the tag and
root loops), `Sweep` (the sweep), `VarPool` (the resizable pool),
`Rerun` (a second collection), `FlatPool` (flat addressing), `VarCache`
(the cache build), `Ssd1306`, `SoftSerial`.

## Model

| member | source | states |
|---|---|---|
| FlatPool.GetAddressOf | src/jsvarcache.c:109 | reference r is record r-1, and it lies inside a pool of n records exactly when r <= n |
| FlatPool.GetRef | src/jsvarcache.c:301-317 | the null pointer gives 0 and only it; a record's reference maps back to that record |
| FlatPool.RefRoundTrip | src/jsvarcache.c:104-111 | jsvGetRef(jsvGetAddressOf(r)) == r for every reference 1..n |
| VarPool.FullBlocks | src/jsvarcache.c:307 | size >> 12 is the number of whole 4096-record blocks in the size |
| VarPool.BlocksInUse | src/jsvarcache.c:251 | (size+4095) >> 12 is the least number of blocks holding size records |
| VarPool.TiedPrefix | src/jsvarcache.c:105-107 | the first k blocks of the table hold the first 4096*k records |
| VarPool.TiedAppend | src/jsvarcache.c:257-258 | appending a fresh block appends its 4096 records |
| VarPool.BlocksInUseMonotone | src/jsvarcache.c:251 | a larger size never needs fewer blocks |
| VarPool.Pool.AddrInRange | src/jsvarcache.c:105-107 | block (r-1)>>12, offset (r-1)&4095 exists for every reference of the table |
| VarPool.Pool.GetAddressOf | src/jsvarcache.c:105-107 | the pointer to block (r-1)/4096, offset (r-1)%4096, which holds record r |
| VarPool.Pool.Get | src/jsvarcache.c:105-107 | reading through jsvGetAddressOf(r) gives record r |
| VarPool.Pool.Set | src/jsvarcache.c:105-107 | writing through jsvGetAddressOf(r) changes record r and no other |
| VarPool.Pool.GetRef | src/jsvarcache.c:301-319 | null gives 0; a pointer into the blocks in use gives the unique reference whose address it is; anything else 0 (RefIn is the block scan of lines 307-313) |
| VarPool.Pool.RefInFound | src/jsvarcache.c:307-313 | the block scan finds the reference of a pointer into a scanned block |
| VarPool.Pool.FullBlocksMissRefs | src/jsvarcache.c:307 | as written, with a size below one block, jsvGetRef of record 1 is 0, though record 1 is in use |
| VarPool.Pool.SetMaxVarsUsed | src/jsvarcache.c:119-126 | the size becomes n, below one block |
| VarPool.Pool.InitJsVars | src/jsvarcache.c:185-195 | records start..start+count-1 become UNUSED and form the list start, start+1, …, ending in 0; nothing else changes; start is returned |
| VarPool.Pool.LinkRun | src/jsvarcache.c:187-192 | each record of the run becomes UNUSED linked to the next reference; nothing else changes |
| VarPool.Pool.AllocFirstBlock | src/jsvarcache.c:199-203 | the table becomes one fresh block of 4096 records and the size 4096 |
| VarPool.Pool.Init | src/jsvarcache.c:197-206 | one fresh block of 4096 records, all UNUSED, the free list exactly 1, 2, …, 4096, usage 0 |
| VarPool.Pool.InitList | src/jsvarcache.c:204-205 | every record UNUSED, free list 1..size in ascending order, usage 0, pool not busy |
| VarPool.Pool.RelistAll | src/jsvarcache.c:205 | jsvSoftInit on an all-free pool keeps the list 1..size |
| VarPool.Pool.Kill | src/jsvarcache.c:208-217 | the block table is released and the size is 0 |
| VarPool.Pool.SetMemoryTotal | src/jsvarcache.c:243-269 | as written: a smaller count returns early with the busy flag still set; a larger one rounds the size up to whole blocks, keeps only the whole leading blocks (the same arrays, so their records keep their addresses), and lists the new references oldSize+1..size in order as the free list |
| VarPool.Pool.SetMemoryTotalCorrected | src/jsvarcache.c:243-269 | as intended: the pool is never left busy, every record in use survives in the same block array at the same address, and the new references are the free list in order |
| VarPool.Pool.GrowInUse | src/jsvarcache.c:249-262 | growth keeping every block that holds a record: the same arrays, so every record in use keeps its value and its address, and the new references are the free list in order |
| VarPool.Pool.Grow | src/jsvarcache.c:249-262 | the size is a whole number of blocks covering the request; kept blocks and their records are unchanged; new records are the free list in order |
| VarPool.Pool.ListNew | src/jsvarcache.c:259-262 | references oldSize+1..size become the free list in order; records below oldSize are unchanged |
| VarPool.Pool.ReplaceTail | src/jsvarcache.c:254-258 | the first entries of the block table stay, the others are fresh blocks |
| VarPool.Pool.FullBlocksMissSlots | src/jsvarcache.c:250 | when the size is not a multiple of 4096, the last record in use lies in the block the growth replaces |
| VarPool.Pool.GetMemoryUsage | src/jsvarcache.c:220-235 | the count of occupied records the scan visits, a flat string counting 1 + its blocks |
| VarPool.Pool.UsagePlusFreeIsTotal | src/jsvarcache.c:220-240 | usage plus the free-list length is jsvGetMemoryTotal() (GetMemoryTotal, lines 238-240, the size) |
| VarPool.Pool.MoreFreeVariablesThan | src/jsvarcache.c:271-282 | true exactly when vars > 0 and the free list has more than vars entries |
| VarPool.Pool.IsMemoryFullIff | src/jsvarcache.c:285-287 | jsvIsMemoryFull (IsMemoryFull) holds exactly when the free list is empty |
| VarPool.Pool.LinkAfter | src/jsvarcache.c:141 | jsvSetNextSibling(lastEmpty, x), the temporary record's link when lastEmpty is it |
| VarPool.Pool.ListSlot | src/jsvarcache.c:140-142 | appending an UNUSED record above all listed ones keeps the threaded list in order |
| VarPool.Pool.CreateEmptyVarList | src/jsvarcache.c:129-151 | the free list is exactly the UNUSED records the scan visits, in ascending order, ending in 0; records not listed are unchanged; the pool is not busy afterwards |
| VarPool.Pool.ThreadFree | src/jsvarcache.c:137-147 | the loop threads exactly the scan's free references after the temporary record |
| VarPool.Pool.ThreadAt | src/jsvarcache.c:139-146 | one turn: an UNUSED record is listed; a flat string's continuation blocks are skipped |
| VarPool.Pool.CloseList | src/jsvarcache.c:148-149 | the threaded references become the free list ending in 0 |
| VarPool.Pool.ClearEmptyVarList | src/jsvarcache.c:156-172 | every UNUSED record the scan visits becomes all-zero; occupied records and flat-string bodies are untouched; the free list is empty |
| VarPool.Pool.ClearFree | src/jsvarcache.c:160-170 | the loop leaves exactly Cleared(old pool) |
| VarPool.Pool.SoftInit | src/jsvarcache.c:174-176 | the free list is rebuilt from the UNUSED records the scan visits |
| VarPool.Pool.SoftKill | src/jsvarcache.c:178-180 | free records are zeroed and the free list emptied |
| VarPool.Pool.MarkString | src/jsvarcache.c:327-336 | the string loop clears the bit of every record of the last-child chain, and of nothing else |
| VarPool.Pool.MarkStringStep | src/jsvarcache.c:331-334 | one turn clears one chain record and moves to its last child |
| VarPool.Pool.UnmarkAt | src/jsvarcache.c:325 | returns record r and clears its candidate bit; no other record changes |
| VarPool.Pool.MarkUsed | src/jsvarcache.c:324-354 | clears r and everything reachable below it that was still marked; every record it clears is reachable from r; no link changes |
| VarPool.Pool.MarkStringOf | src/jsvarcache.c:327-336 | a record with character data has its string chain cleared; the chain is closed and reached from it |
| VarPool.Pool.MarkLinks | src/jsvarcache.c:338-353 | after the child part, no child link of r leads to a record still marked |
| VarPool.Pool.MarkChildren | src/jsvarcache.c:344-353 | every record of the children list ends unmarked |
| VarPool.Pool.MarkChild | src/jsvarcache.c:346-352 | one child: recurse when its bit is set, then move to its next sibling; the marked count never grows |
| VarPool.Pool.TagAll | src/jsvarcache.c:361-370 | every occupied record the scan visits gets the candidate bit, and nothing else changes |
| VarPool.Pool.MarkRoots | src/jsvarcache.c:371-380 | the pool left is a mark result: every root and everything it reaches is cleared, nothing else |
| VarPool.Pool.RootAt | src/jsvarcache.c:373-379 | one turn of the root loop keeps the root-loop invariant |
| VarPool.Pool.MarkPhase | src/jsvarcache.c:361-380 | the first two loops leave a mark result of the pool on entry |
| VarPool.Pool.SweepAll | src/jsvarcache.c:390-456 | the pool becomes Released(m) plus the threaded list of all its UNUSED records; the flag says whether anything was marked; jsvUnRef calls are UnrefTargets(m) |
| VarPool.Pool.SweepStep | src/jsvarcache.c:390-456 | one sweep turn keeps the threading, flag and jsvUnRef-call invariants |
| VarPool.Pool.SweepAt | src/jsvarcache.c:391-455 | a marked record is released, an UNUSED one relisted, an unmarked record kept |
| VarPool.Pool.Release | src/jsvarcache.c:392-447 | a marked flat string is released with its blocks, any other record alone |
| VarPool.Pool.KeepOrRelist | src/jsvarcache.c:448-455 | an unmarked flat string or record is kept, an UNUSED record relisted, and jsvUnRef is not called |
| VarPool.Pool.ListSwept | src/jsvarcache.c:398-401 | a released or UNUSED record is listed after lastEmpty |
| VarPool.Pool.FreeFlat | src/jsvarcache.c:394-410 | a marked flat string's head and its count blocks become UNUSED and are listed in order |
| VarPool.Pool.FreeRecord | src/jsvarcache.c:411-447 | jsvUnRef on a live single child, then the record becomes UNUSED and is listed |
| VarPool.Pool.UnrefChild | src/jsvarcache.c:413-426 | jsvUnRef is called exactly on a single child that is occupied and unmarked |
| VarPool.Pool.SweepPhase | src/jsvarcache.c:385-460 | the free list is the UNUSED records of Released(m) in ascending order; other records are Released(m)'s; the result says whether anything was freed |
| VarPool.Pool.GarbageCollect | src/jsvarcache.c:357-463 | busy: false and nothing changes; otherwise the mark result, the released pool, its free list in order, the exact jsvUnRef calls, and true exactly when something was freed |
| VarPool.Pool.UnRef | src/jsvarcache.c:424 | the call is recorded |
| Rerun.SecondCollectFreesNothing | src/jsvarcache.c:357-463 | after a collection, and with no allocation in between, a second mark phase leaves no visited record marked, so the second jsvGarbageCollect returns false |
| Rerun.KeptReachable | src/jsvarcache.c:361-456 | every occupied record the scan visits after a collection is reachable from a locked record |
| Rerun.PathKept | src/jsvarcache.c:324-354 | a path the mark phase follows from a locked record is still a path after the sweep |
| Rerun.EdgeKept | src/jsvarcache.c:327-353 | a string, single-child or children link out of a reachable record is kept by the sweep, and so is the whole children list |
| Rerun.RootKept | src/jsvarcache.c:373-379 | a locked record the scan visits is still a locked record the scan visits after the sweep |
| Rerun.KeptRecord | src/jsvarcache.c:390-456 | a reachable record is visited, not released, and kept up to its candidate bit |
| Rerun.ReleasedScanAt | src/jsvarcache.c:390-410 | the scan after the sweep visits every kept record the first scan visited, and visits no occupied record the first scan skipped |
| Rerun.AfterSweepShape | src/jsvarcache.c:398-401 | threading the free list changes only UNUSED records: the skips and occupied records are the released pool's |
| VarCache.StoreIndexAsWrittenOutOfRange | src/jsvarcache.c:93-99 | as written, a reference 1..n indexes a store of n entries in range exactly when it is not n (jsVarsSize), and entry 0 is never used |
| VarCache.StoreIndex | src/jsvarcache.c:106 | the corrected index r-1 |
| VarCache.StoreIndexInRange | src/jsvarcache.c:106 | every reference 1..n has its own entry of a store of n records |
| VarCache.VictimUnique | src/jsvarcache.c:75-83 | the scan's victim is unique |
| VarCache.LockedNeverVictim | src/jsvarcache.c:79 | a line holding a locked record is never evicted |
| VarCache.IndexOfDistinct | src/jsvarcache.c:77 | without duplicates, the line holding a reference is where the hit test finds it |
| VarCache.EvictKeepsView | src/jsvarcache.c:90-100 | write-back then load keeps the lines free of duplicates and changes no reference's record as the program sees it |
| VarCache.Cache.FindLine | src/jsvarcache.c:75-84 | a hit is the first line holding ref; on a miss, the earliest candidate of least age, or -1 when no empty or unlocked line is younger than 0x7FFFFFFF |
| VarCache.Cache.GetRef | src/jsvarcache.c:302-304 | null gives 0; a line gives the reference it holds |
| VarCache.Cache.GetAddressOf | src/jsvarcache.c:69-101 | a hit changes nothing; no candidate fails and changes nothing; otherwise the victim is written back, loaded with ref and given age counter+1; the view of every reference is unchanged |
| VarCache.Cache.Evict | src/jsvarcache.c:90-100 | write-back of the old record, counter increment, new age, load of ref |
| Slots.Mark | src/jsvarcache.c:365 | an occupied record gets the candidate bit; an UNUSED one is unchanged |
| Slots.Unmark | src/jsvarcache.c:325 | the candidate bit is cleared; an UNUSED one is unchanged |
| Slots.SetNext | src/jsvarcache.c:141 | jsvSetNextSibling sets the link the free list and sibling walks follow |
| Scan.NextPos | src/jsvarcache.c:143-146 | the scan jumps over a flat string's continuation blocks |
| Scan.InScanGap | src/jsvarcache.c:143-146 | the continuation blocks of a visited flat string are never visited |
| Scan.FreeRefsFromSpec | src/jsvarcache.c:138-147 | the scan's free references are exactly the UNUSED records it visits, in strictly ascending order |
| Scan.UsagePlusFreeFrom | src/jsvarcache.c:220-235 | usage plus the number of free records the scan visits is the size |
| Scan.UsagePlusFree | src/jsvarcache.c:220-240 | the same for the whole pool |
| Scan.AllUnusedFrom | src/jsvarcache.c:185-195 | in an all-UNUSED pool the scan lists every reference and usage is 0 |
| Scan.RunListed | src/jsvarcache.c:187-193 | a run each linked to the next and the last to 0 is the list start..start+count-1 |
| Scan.FullListAllUnused | src/jsvarcache.c:204-205 | after jsvInitJsVars and jsvSoftInit every record is UNUSED, listed 1..size, usage 0 |
| Scan.ClearStep | src/jsvarcache.c:162-169 | one turn of the clear loop zeroes an UNUSED record and skips flat-string bodies |
| Scan.ListIsUnique | src/jsvarcache.c:273-280 | the list reachable from a head is determined by the records |
| Scan.ListIsDistinct | src/jsvarcache.c:273-280 | a list ending in 0 never repeats a reference |
| Scan.FreeListLength | src/jsvarcache.c:220-240 | any list of exactly the scan's free records has its length |
| Scan.ClearedKeepsFreeRefs | src/jsvarcache.c:156-180 | soft kill keeps the free references, so soft init afterwards rebuilds a free list of the same length |
| Graph.Walk | src/jsvarcache.c:330-352 | a walk that ends is a chain of links inside the pool |
| Graph.WalkMoreFuel | src/jsvarcache.c:330-352 | more steps never change a walk that ended |
| Graph.ChainStep | src/jsvarcache.c:346-351 | a walk that ends is its first record followed by the walk from its link, which ends too |
| Graph.FlatBodyUnconstrained | src/jsvarcache.c:361-370 | a flat string's body, which the scan skips, may hold any bytes, even a self-looping string record, and the pool is still one the collector accepts |
| Graph.UnfollowedLinksUnconstrained | src/jsvarcache.c:324-353 | fields the mark phase never reads, such as a string record's nextSibling and firstChild, may hold any value, and the pool is still one the collector accepts |
| Graph.TagMarks | src/jsvarcache.c:361-370 | tagging marks exactly the occupied records the scan visits |
| Graph.EdgeUnmarked | src/jsvarcache.c:324-353 | after marking, an edge out of a cleared visited record leads to a cleared visited record |
| Graph.PathUnmarked | src/jsvarcache.c:371-380 | every record on a path from a locked record ends cleared |
| Graph.ReachableUnmarked | src/jsvarcache.c:371-380 | locked records and all they reach stay unmarked |
| Graph.MarkedIffUnreachable | src/jsvarcache.c:361-380 | an occupied visited record is still marked exactly when no locked record reaches it |
| Graph.MarkedCountClears | src/jsvarcache.c:325 | clearing bits never raises the marked count, and clearing one lowers it |
| Graph.ClosedAtMonotone | src/jsvarcache.c:324-353 | closure of a record survives further clearing |
| Marking.MarkedBelowTrans | src/jsvarcache.c:342 | marking below a child is marking below its parent |
| Marking.StringChainFacts | src/jsvarcache.c:327-336 | the last-child chain of a record with characters is closed and reached from it |
| Marking.MarkUsedDone | src/jsvarcache.c:324-354 | clearing r, its string chain and its children leaves r closed |
| Marking.StringLoopStep | src/jsvarcache.c:331-334 | one step of the string loop clears the next chain record |
| Marking.StringLoopEnd | src/jsvarcache.c:330-335 | after the string loop exactly the chain is cleared |
| Marking.ChildLoopStep | src/jsvarcache.c:347-351 | one step of the children loop keeps its invariant |
| Marking.ChildEdges | src/jsvarcache.c:345-351 | the children list of a record is a walk of edges inside the scan |
| Collect.TagStep | src/jsvarcache.c:362-369 | one step of the tag loop |
| Collect.RootStep | src/jsvarcache.c:372-379 | one step of the root loop keeps the mark-result invariant |
| Sweep.FlatRunReleased | src/jsvarcache.c:394-410 | a marked flat string's head and blocks are all released, each becoming an UNUSED record (the model's UNUSED record holds only its list link) |
| Sweep.FreedVisited | src/jsvarcache.c:392 | a visited record is released exactly when its bit is set |
| Sweep.FreedOnlyIfAnyMarked | src/jsvarcache.c:393 | a record is released only when something is marked |
| Sweep.FlatBodyFollowsHead | src/jsvarcache.c:394-410 | a flat string's blocks are released with their head and kept with it |
| Sweep.UnrefTargetsFrom | src/jsvarcache.c:413-426 | jsvUnRef is only called on occupied, unmarked records |
| Sweep.UnrefTargetsKept | src/jsvarcache.c:413-426 | a record jsvUnRef is called on is kept |
| Sweep.FreeListOfReleased | src/jsvarcache.c:448-455 | a kept record is never put on the free list |
| Sweep.LockedNeverFreed | src/jsvarcache.c:371-456 | a locked record the scan visits is never freed |
| Sweep.FreedIffUnreachable | src/jsvarcache.c:357-463 | an occupied visited record is freed exactly when no locked record reaches it |
| Sweep.FreedSomethingIff | src/jsvarcache.c:385-462 | the collector returns true exactly when some occupied visited record was unreachable |
| Sweep.SweptEnd | src/jsvarcache.c:390-456 | at the end of the sweep the threaded list is the released pool's free references |
| Sweep.TallyEnd | src/jsvarcache.c:393-424 | at the end of the sweep the flag and the jsvUnRef calls are exact |
| Threading.ThreadedAppend | src/jsvarcache.c:141-142 | listing one more record above the others keeps the list threaded in order |
| Threading.FreeRefsStep | src/jsvarcache.c:138-147 | one scan step adds the record to the list exactly when it is UNUSED |
| Threading.ScannedList | src/jsvarcache.c:140-142 | listing the UNUSED record the scan is at |
| Threading.ScannedKeep | src/jsvarcache.c:143-146 | passing an occupied record and its flat-string blocks |
| Ssd1306.SetCallbacks | libs/graphics/lcd_ssd1306.c:135-141 | width 64, height 32, 1 bit per pixel, and this back end's pixel callbacks |
| Ssd1306.Bit | libs/graphics/lcd_ssd1306.c:59 | y&7 is the non-negative remainder of y by 8 |
| Ssd1306.BitOf | libs/graphics/lcd_ssd1306.c:58-62 | the extracted bit is 0 or 1, and 1 exactly when the bit of the mask is set |
| Ssd1306.WithBitSpec | libs/graphics/lcd_ssd1306.c:65-70 | setting or clearing bit k makes it read as written and keeps every other bit |
| Ssd1306.AddrInBuffer | libs/graphics/lcd_ssd1306.c:24-25 | with the 64x32 geometry every on-screen pixel's byte is below 256 |
| Ssd1306.PixelsDistinct | libs/graphics/lcd_ssd1306.c:59-68 | two on-screen pixels never share a byte and a bit |
| Ssd1306.WriteReadBack | libs/graphics/lcd_ssd1306.c:58-70 | after writing pixel (x, y) it reads as written and every other pixel as before |
| Ssd1306.GetPixel | libs/graphics/lcd_ssd1306.c:58-62 | the pixel is 0 or 1 |
| Ssd1306.SetPixel | libs/graphics/lcd_ssd1306.c:65-70 | one bit of one byte changes: the pixel reads back as col != 0, and every other on-screen pixel is unchanged |
| SoftSerial.DivModDouble | src/jsserial.c:63-64 | bit & 1 and >> 1 split a number into its low bit and the rest |
| SoftSerial.FrameShape | src/jsserial.c:38-46 | the frame has 1 + bytesize + stopbits bits: a low start bit, the data bits, then high stop bits |
| SoftSerial.DataBitsAt | src/jsserial.c:42 | data bit i of the frame is bit i of the byte |
| SoftSerial.DataBitsMasked | src/jsserial.c:42 | bits of the byte above bytesize never reach the frame |
| SoftSerial.ValueAppend | src/jsserial.c:42-45 | putting bits above others is multiplying by a power of two and adding |
| SoftSerial.ValueData | src/jsserial.c:42 | data & ((1<<bytesize)-1) is the byte modulo 2^bytesize |
| SoftSerial.ValueStop | src/jsserial.c:38 | (1<<stopbits)-1 is stopbits high bits |
| SoftSerial.FrameWordValue | src/jsserial.c:38-46 | the word the source builds, shifted out low bit first, is the frame |
| SoftSerial.BuildFrame | src/jsserial.c:38-46 | bitData encodes the frame and bitCnt is its length |
| SoftSerial.ScheduleAt | src/jsserial.c:58-82 | bit k is driven at start + k·bitTime, and the final high level at start + length·bitTime |
| SoftSerial.DrainStep | src/jsserial.c:61-79 | one loop turn sends the next frame bit as the next event |
| SoftSerial.SendByte | src/jsserial.c:28-84 | an invalid TX pin sends nothing; otherwise exactly the frame's schedule is sent |
| SoftSerial.ParityOf | src/jsserial.c:116-124 | "o"/"odd" 1, "e"/"even" 2, an integer truncated to an unsigned char, anything else 0 |
| SoftSerial.FlowOf | src/jsserial.c:131-138 | undefined, null or "none" is no flow control; "xon" is XON/XOFF; anything else invalid |
| SoftSerial.IntParityAccepted | src/jsserial.c:123-125 | an integer parity passes exactly when its low byte is 0, 1 or 2 |
| SoftSerial.OptionErrors | src/jsserial.c:125-138 | no error exactly when parity and flow are valid; at most one error; a bad parity is the error then |
| SoftSerial.ApplyOptions | src/jsserial.c:114-140 | fields stored, parity set, flow set only when parity passed; the result and errors exact |
| SoftSerial.PopulateSerialInfo | src/jsserial.c:86-145 | a defined baud in 100 < b <= 10000000 is stored, else an error and the default stays; the result is true when the options were not read, else exactly when parity and flow are valid; errors in order |

## Left out

- I/O: jsiConsolePrintf calls and the jsvShowAllocated debug output are not modelled.
- malloc, realloc and free: blocks are modelled as fresh Dafny arrays. Allocation failure is not modelled.
- `volatile` and interrupts: the pool is modelled as single-threaded.
- The assert() calls in the source become preconditions: a non-zero reference, a size below one block in jsvSetMaxVarsUsed, an idle pool, and an empty free list before growth.
- VarPool.Pool.GarbageCollect: requires `GcGraphOk` and `Fits` of the pool on entry. `GcGraphOk` constrains only the records the scan visits, and only the links the mark phase follows (firstChild of a record with a single child or with children, lastChild of a record with character data, nextSibling along a children list):
  - from each visited record, the children list and the string chain end and stay in the pool;
  - a string chain passes only through occupied records that hold characters and have no children, so it never reaches an UNUSED record, whose stale lastChild the loop at src/jsvarcache.c:330-335 would follow;
  - no followed link of a visited record points into a flat string's body;
  - flat strings fit in the pool.

  The source relies on these properties of the record layer without checking them. Flat-string bodies and unfollowed fields are left free, as `Graph.FlatBodyUnconstrained` and `Graph.UnfollowedLinksUnconstrained` show.
- The debug assertions of the sweep (src/jsvarcache.c:430-441) are not modelled. They hold only in pools where no freed record shares a child with a kept record; the model does not require that, so in the pools it admits such an assertion can fail (a freed record's firstChild can be occupied and unmarked). The prevSibling test is not stated.
- Freed records: the sweep writes only the flags and the free-list link of a freed record (src/jsvarcache.c:398, 406, 443-444), and the other fields keep stale values. The model's UNUSED record carries only the link, so `Released` writes `Unused(0)`. The collector's requirements keep every walk away from those stale fields.
- jsvUnRef: only its call is recorded. Its effect on reference counts and any follow-up freeing belong to the record layer, which is not part of this model.
- Rerun.SecondCollectFreesNothing: requires `ListsOccupied` of the first call's pool: no children list of a visited record runs through an UNUSED record. The sweep rewrites the links of UNUSED records when it rebuilds the free list, so without this a children list through one could change, and the second call could free what the first kept. The second call's own requirement, `GcGraphOk` of the pool it starts from, is also taken as given.
- Integer width: references, sizes and counters are unbounded. The 16-bit JsVarRef and the 32-bit jsVarAgeCounter can wrap around after 2^31 loads, and that is not modelled.
- VarCache: the cache is modelled over the corrected store index, and only its jsvGetAddressOf / jsvGetRef. The other pool operations of the cache build are not modelled.
- The SSD1306 flush and initialisation are not modelled: lcdFlip_SSD1306, lcdInit_SSD1306 and SSD1306_flip_fn are SPI and pin I/O. Its inner loop at libs/graphics/lcd_ssd1306.c:90 increments `i` instead of `x`; this is outside the modelled core.
- Ssd1306.GetPixel / Ssd1306.SetPixel: the address is required to be inside the buffer. The source does not check it, and its callers clip to the screen first.
- SoftSerial.SendByte: the bit time and the start time are inputs.
  - The bit time comes from floating-point arithmetic on the baud rate, `1000.0 / baudRate`.
  - The start time comes from the pin's timer queue (jstGetLastPinTimerTask) or from the clock plus one millisecond.
  - Each jstPinOutputAtTime call is a recorded event.
- SoftSerial.SendByte / SoftSerial.BuildFrame: the frame word is a C `int`. A frame wider than 31 bits overflows it in the source. The model uses unbounded integers, with shifts as multiplications by powers of two.
- SoftSerial.PopulateSerialInfo: jshUSARTInitInfo's defaults are the fields on entry. baudInt is jsvGetInteger(baud) after the cast to int. What jsvReadConfigObject stores is an input; it is None when that call returns false, and partial stores before a failure are not modelled.
- The pins read from the options (rx, tx, ck) are not modelled.
- The other functions of src/jsserial.c (jsserialHardwareFunc, jsserialGetSendFunction, the event handling) are not modelled.

## Findings

| source | as written | input that shows it | evidently intended | confidence | as-written member | corrected member |
|---|---|---|---|---|---|---|
| src/jsvarcache.c:307 | jsvGetRef scans `jsVarsSize >> 12` blocks, the whole blocks only | jsvSetMaxVarsUsed(100), then jsvGetRef(jsvGetAddressOf(1)) gives 0 | scan every block that holds a record, `(jsVarsSize + 4095) >> 12` | not executed | VarPool.Pool.FullBlocksMissRefs | VarPool.Pool.GetRef |
| src/jsvarcache.c:250 | jsvSetMemoryTotal keeps `jsVarsSize >> 12` blocks and allocates fresh ones after them | size 100 (after jsvSetMaxVarsUsed), then jsvSetMemoryTotal(5000): block 0, which holds records 1..100, is replaced by a fresh block | keep every block that holds a record | not executed | VarPool.Pool.SetMemoryTotal | VarPool.Pool.SetMemoryTotalCorrected |
| src/jsvarcache.c:247 | the early return when the count does not grow leaves isMemoryBusy set | jsvSetMemoryTotal(0) on an idle pool; every later jsvGarbageCollect returns false and does nothing | clear the flag, or test before setting it | not executed | VarPool.Pool.SetMemoryTotal | VarPool.Pool.SetMemoryTotalCorrected |
| src/jsvarcache.c:93 | the cache writes back and loads `variables[ref]` | reference jsVarsSize indexes one past the end of `variables` | `variables[ref-1]`, as the other builds place references | not executed | VarCache.StoreIndexAsWrittenOutOfRange | VarCache.StoreIndexInRange |
