# The storage-allocation engine of the NTFS driver, modelled and verified

This project models how the driver hands out and takes back disk space, how it writes a stream's
run list to disk and reads it back, and a few protocols around that: protection of multi-sector
structures, planning of compressed transfers, reserved buffers, reservations, deferred closes and
in-place updates of mapped streams.  Statements are about all inputs, all reachable states and all runs
of the modelled operations, under the conditions named below; what they do not cover is under "Left out".
`dafny verify dfyconfig.toml` checks it.

| file | what it models |
|---|---|
| `Options.dfy`, `Units.dfy` | an optional value; arithmetic of compression units |
| `Bits.dfy`, `BitSearch.dfy` | bit maps; the two word-stepping searches for clear runs, proved equal to bit-by-bit searches |
| `Mcb.dfy`, `Rtl.dfy` | the run lists and bitmap routines the system provides, as simple functions |
| `Volume.dfy` | the allocation state as a value, its transitions, and the invariant they keep |
| `Allocator.dfy` | the volume control block as a class; search, cache, allocate, deallocate, rescan, checkpoint, and whole runs of these |
| `Codec.dfy`, `MappingPairs.dfy` | mapping pairs: one writer and three readers |
| `MappingRecords.dfy` | the size predictor, and maps spread over several attribute records |
| `Usa.dfy` | update sequence arrays and torn writes |
| `IoRuns.dfy` | planning of compressed reads and writes |
| `ReservedBuffers.dfy` | the arbiter of the three reserved buffers |
| `Reservation.dfy` | clusters reserved for compressed streams |
| `CloseQueue.dfy` | the queues of deferred closes and their worker |
| `PagedCopy.dfy` | the page-by-page put into a mapped stream |

## How it is put together

Imperative code stays imperative: the control block, the arbiter, the close data and the reservation
totals are classes whose methods change fields, and loops are loops.  Where a property spans many
steps, the state is also a value (`Volume.State`, `ReservedBuffers.Pool`, `CloseQueue.World`), each
method is tied to a transition on that value, and lemmas about the transitions carry the invariant.

The central invariant is `Volume.Inv`.  It says that every stream's map is in order, that every mapped
cluster's bit is set and no cluster is mapped twice, that the free count is the number of clear bits,
that every cached free cluster is clear, outside the first 8K and in neither recently deallocated
list, and that these lists hold no more clusters than they are counted for.  While the reload flag is
set, which a volume purge does, nothing is said of the count and the cache until the next scan.  The
undo of an aborted transaction is not among the operations.

Conditions assumed throughout: cluster numbers fit in 32 bits, and the volume geometry is sound
(`Volume.Geometry.Sound`): the MFT zone starts on a multiple of 32 and, rounded up, ends on the volume.
Where readers are given arbitrary bytes, their sums of VCNs and of LCNs are taken not to wrap at 64 bits;
for VCNs that is so whenever the array ends below 2^63 (`MappingPairs.SumsFit`).

## Where the code does not do what one would expect

- Mounting rounds the end of the MFT zone up and does not clamp it.  The walk from the start of the
  disk to the end of the zone ends if and only if the zone lies on the volume
  (`Allocator.ZoneWalkEnds`; `Allocator.ZoneMayOverrun` is a volume on which it does not).
- The attribute check accepts arrays that the lookup rejects: with a run of no length, and with a run that
  ends beyond 32 bits (`MappingPairs.CheckerIsLaxer`).  An array it accepts is accepted by the lookup if and
  only if each of its pairs has a VCN change and each of its runs on disk ends within 32 bits
  (`MappingPairs.CheckedIsLoadable`); the other way round, an array the lookup accepts is accepted by the
  check if and only if its runs lie on the volume (`MappingPairs.CheckAgrees`).
- A size byte that says eight LCN bytes or more, which only LCNs beyond 32 bits can need, is read as a negative
  character.  The lookup and the check refuse it.  NtfsGetHighestVcn tests neither count; it adds them as
  unsigned longs, so it goes on short of the pair's end (`MappingPairs.EightByteDistance`).  On bytes it does
  not read past, what it accepts is well-shaped if and only if it goes by no such size byte
  (`MappingPairs.HighestAccepts`); `MappingPairs.ShortStepAccepts` is an array that it accepts and the other two
  refuse, and `MappingPairs.ShortStepRaises` one for which it raises although the first change is not negative.
- Before an allocation the volume's reserved clusters are reduced by the stream's reserved bytes.  The test never
  refuses more than the one in clusters, and is the same for every request if and only if the stream has
  nothing reserved or a cluster is a byte (`Reservation.ReservedElsewhere`; `Reservation.LetInTooMuch` is a
  request that is let in and should not be).
- The size predictor answers a stop below its start with "no stop", although the comment speaks of the
  VCN to resume on (second `ensures` of `MappingRecords.GetSizeForMappingPairs`).
- The comments on the reserved buffers promise that no other thread has a buffer for a file that the thread
  with two has a buffer for.  A request keeps this if and only if neither the owner turns to the file of
  buffer 3, nor is buffer 3 given out for a file the owner still holds but did not ask with last
  (`ReservedBuffers.GetSeparates`, and over runs `ReservedBuffers.RunsSeparate`; the two runs that break it
  are `ReservedBuffers.OwnerTurnsToHeldFile` and `ReservedBuffers.HeldFileIsAdmitted`).
- A put that starts beyond the valid data zeroes the gap before it moves the data.  The range gets the
  bytes its source had if and only if no byte other than zero of the source lies in the gap
  (`PagedCopy.PutIsMemmove`; `PagedCopy.GapLosesSource` is a put where one does).  A put that extends the
  stream and was made backwards records the start of the range as the length on disk, not its end (last
  `ensures` of `PagedCopy.Stream.PutData`; `PagedCopy.BackwardsLosesLength`).
- The backward search leaves its word pointer before the map, where it then reads, if and only if the index
  is in the first word and no bit at or below it is clear (`BitSearch.LastClear`;
  `BitSearch.SearchLeavesMap` is such a map).

## Model

| member | source | states |
|---|---|---|
| `BitSearch.FindNextForwardRunClear` | ntfs-4/bitmpsup.c:405-529 | stepping words returns exactly the first clear run at or after the index that a bit-by-bit search returns, for every map size including a partial last word |
| `BitSearch.FindLastBackwardRunClear` | ntfs-4/bitmpsup.c:551-658 | the same backward: the last clear run at or before the index, wherever the search stays in the map |
| `BitSearch.LastClear` | ntfs-4/bitmpsup.c:562-606 | the first half ends at the last clear bit, with the word pointer before the map if and only if the index is in the first word and no bit at or below it is clear |
| `BitSearch.SearchLeavesMap` | ntfs-4/bitmpsup.c:562-606 | a map and an index for which it is |
| `BitSearch.RestSpec` | ntfs-4/bitmpsup.c:430-470 | the masked word tests are equivalent to all bits from an index on being set, or clear |
| `BitSearch.LowSpec` | ntfs-4/bitmpsup.c:580-620 | the masked word tests for the bits below an index |
| `Volume.ClaimKeepsInv` | ntfs-4/bitmpsup.c:1226-1333 | giving a clear, not recently freed run to a hole of a stream keeps the whole invariant: no cross-links, every mapped bit set, free count equal to the clear bits, cache an under-approximation |
| `Volume.ClaimNoCrossLinks` | ntfs-4/bitmpsup.c:1226-1333 | no cluster becomes mapped by two streams, or twice by one |
| `Volume.ReleaseKeepsInv` | ntfs-4/bitmpsup.c:1560-1695 | giving a mapped run back keeps the whole invariant |
| `Volume.ReleaseInRecent` | ntfs-4/bitmpsup.c:1600-1660 | for any stream: after a run is given back a cluster is in a recently deallocated list if and only if it was before, or it is of the run and no cluster of the run was in the active list |
| `Volume.ReleasedAreHeldBack` | ntfs-4/bitmpsup.c:1600-1660 | what a stream other than the bad cluster file gave back is in the active list, and not usable |
| `Volume.CheckpointKeepsInv` | ntfs-4/logsup.c:1712-1805 | emptying the prior list and swapping or emptying the active one keeps the invariant and holds nothing back that was not held back before |
| `Volume.CheckpointLets` | ntfs-4/logsup.c:1712-1805 | across a checkpoint a cluster is in a list if and only if it was in the active one and the volume is not clean |
| `Volume.CacheAddAt` | ntfs-4/bitmpsup.c:3874-3924 | an insertion with overlap and trimming makes the new range cached and adds nothing else |
| `Volume.CacheAddForgets` | ntfs-4/bitmpsup.c:3874-3924 | an insertion forgets nothing while the cache has at most 8192 pairs; beyond that it is cut to its first runs, of 6143 or 6144 pairs |
| `Volume.CacheAddKeepsOk` | ntfs-4/bitmpsup.c:3874-3924 | caching a usable run keeps every cached cluster clear and not recently freed |
| `Volume.UsableExists` | ntfs-4/bitmpsup.c:968-1014 | with the boot clusters allocated and more clusters free than recently deallocated, some cluster is usable |
| `Volume.RequiredHoleIsServed` | ntfs-4/bitmpsup.c:1154-1225 | while a required hole of an admitted request is open, some cluster is usable |
| `Volume.FillStep` | ntfs-4/bitmpsup.c:1013-1351 | one turn of the allocation loop: remaining equals the holes left, mappings are only added, in the requested range, and the free count drops by what was mapped |
| `Volume.EmptyStep` | ntfs-4/bitmpsup.c:1560-1695 | one turn of the deallocation loop: the range up to the cursor is unmapped, its clusters are clear, counted and in the active list, and a reduced zone has grown back if an eighth of the volume became free |
| `Allocator.BiasWith` | ntfs-4/bitmpsup.c:3400-3505 | a recently deallocated list sets exactly its clusters of the page, though the scan stops early |
| `Allocator.AddRecentlyDeallocated` | ntfs-4/bitmpsup.c:3360-3505 | the biased page is exactly the union of the bitmap, both lists and the first 8K |
| `Allocator.ScanMcbForRealClusterCount` | ntfs-4/bitmpsup.c:4395-4425 | the number of unmapped clusters of the range |
| `Allocator.GetNextHoleToFill` | ntfs-4/bitmpsup.c:4273-4329 | the first hole of the range, as far as it reaches in it, with the cluster before it; none exactly if all is mapped |
| `Allocator.Vcb.Mount` | ntfs-4/bitmpsup.c:664-780 | mounting consistent streams and bitmap establishes the invariant, with empty lists, the full zone, and the first cached run as hint |
| `Allocator.Vcb.MapBiasedPage` | ntfs-4/bitmpsup.c:3360-3505 | the set bits of a biased page are the clusters that may not be handed out |
| `Allocator.Vcb.AllocateBitmapRun` | ntfs-4/bitmpsup.c:2574-2680 | succeeds exactly if the run is clear, and then sets it across pages; a refused run leaves a clear part at its start set |
| `Allocator.Vcb.FreeBitmapRun` | ntfs-4/bitmpsup.c:2810-2917 | succeeds exactly if the run is set, and then clears it; a refused run leaves a set part at its start cleared |
| `Allocator.Vcb.AddFreeRun` | ntfs-4/bitmpsup.c:3874-3924 | refuses cluster 0; otherwise the cache after trim, removal of overlaps and insertion |
| `Allocator.Vcb.TakeRun` | ntfs-4/bitmpsup.c:1226-1333 | on a clear run the corruption check never trips and the new state is the claim transition |
| `Allocator.Vcb.GiveRun` | ntfs-4/bitmpsup.c:1560-1695 | on a set run the corruption check never trips and the new state is the release transition; a reduced zone is back at its full end exactly if more than an eighth of the volume is free |
| `Allocator.Vcb.ScanPages` | ntfs-4/bitmpsup.c:3168-3266 | one pass of the search: nothing usable in the whole pass, or a longest usable run of the first page that has one |
| `Allocator.Vcb.SearchHintPage` | ntfs-4/bitmpsup.c:3092-3166 | a usable run of the wanted length in the hint's page, from the hint's side of the zone on, or the longest one there |
| `Allocator.Vcb.FindFreeBitmapRun` | ntfs-4/bitmpsup.c:3092-3266 | sound and complete over hint page, tail, zone end to hint and start to zone end, in this order: a later pass answers only if nothing in the earlier ones is usable, and with a longest run of its first page; the zone is reported only if nothing outside it is usable |
| `Allocator.Vcb.ReadAheadCachedBitmap` | ntfs-4/bitmpsup.c:4120-4188 | leaves a cached cluster alone; caches the run from a usable one to its end in the page; or else a longest usable run of the page, if any |
| `Allocator.Vcb.ScanEntireBitmap` | ntfs-4/bitmpsup.c:1788-1905 | the free count is the number of clear bits; the cache holds only usable runs: it was filled with a longest run of every page that has one, and with the runs on both sides of a page boundary whose clusters at the boundary are usable |
| `Allocator.AddedStay` | ntfs-4/bitmpsup.c:3874-3924 | as long as it does not exceed 8192 pairs, the cache holds exactly what was put into it |
| `Allocator.ScannedMore` | ntfs-4/bitmpsup.c:1811-1890 | scanning one more page adds its longest run and its edges |
| `Allocator.Vcb.FindSplit` | ntfs-4/bitmpsup.c:7690-7760 | the cluster at which half of the zone's free clusters is reached |
| `Allocator.Vcb.ReduceMftZone` | ntfs-4/bitmpsup.c:7603-7780 | reduces exactly when volume and zone have enough free clusters, to an aligned end that halves them, and never grows the zone |
| `Allocator.Vcb.IsLcnInCachedFreeRun` | ntfs-4/bitmpsup.c:3790-3815 | finds a run exactly if the cluster is cached, and the run is usable |
| `Allocator.Vcb.PickCachedRun` | ntfs-4/bitmpsup.c:1069-1143 | the first cached run larger than what remains, after the zone is taken off, or else the largest; none exactly if no cached run reaches out of the zone |
| `Allocator.Vcb.SearchBitmap` | ntfs-4/bitmpsup.c:1154-1225 | a usable run, or nothing is usable anywhere; the page of the preceding cluster, or else of the last hint moved out of the zone, answers first; the zone changes only for a stream other than the MFT, when nothing past its end is usable, and then to an end that halves it |
| `Allocator.Vcb.PickFromCache` | ntfs-4/bitmpsup.c:1043-1143 | the cache answers for a hole behind a cluster exactly if the next cluster is cached, and then with the run that starts there |
| `Allocator.Vcb.ChooseRun` | ntfs-4/bitmpsup.c:1043-1225 | the chosen run is usable and fits the hole; a cached cluster right after the preceding one is always used; giving up only beyond the required end; the zone changes only as in the search |
| `Allocator.Vcb.FillHole` | ntfs-4/bitmpsup.c:1013-1333 | one turn keeps the invariant and moves the allocation on by what it maps; of the cache it takes exactly the run it maps; the hint moves only for a run not placed behind a cluster; no space only for a hole beyond the required end |
| `Allocator.Vcb.FillHoles` | ntfs-4/bitmpsup.c:1013-1333 | the loop terminates and keeps "remaining desired equals holes left in range"; it stops before the end of what is required only at the limit on runs |
| `Volume.FillingLeft` | ntfs-4/bitmpsup.c:1013-1351 | when the loop stops short of what is required, the free count has dropped by exactly what is required no more |
| `Allocator.Vcb.AllocateClusters` | ntfs-4/bitmpsup.c:962-1351 | admission by the sum of holes, pending deallocations and reservations, case by case; every cluster of the returned count is mapped, no earlier mapping changes, the free count drops by exactly the holes filled, corruption is never reported, and an admitted request is refused only if more is desired than required, after everything required is mapped |
| `Allocator.Vcb.AddAllocation` | ntfs-4/allocsup.c:1159-1368 | the loop over allocations terminates; a request that is let in ends with the whole required range mapped, and succeeds if nothing beyond it is desired; one that is not changes nothing |
| `Allocator.StillAdmitted` | ntfs-4/bitmpsup.c:968-1014 | what is left of an admitted request after a turn is admitted |
| `Allocator.Vcb.DeallocateClusters` | ntfs-4/bitmpsup.c:1548-1700 | the range is unmapped, everything else is as before; freed clusters are clear, counted and in the active list, which forgets nothing; a reduced zone grows back to its full end exactly if clusters were freed and more than an eighth of the volume is free |
| `Allocator.Vcb.AddBadCluster` | ntfs-4/bitmpsup.c:1438-1451 | succeeds exactly if the cluster was clear; then it is set, counted and mapped to itself; it alone leaves the cache |
| `Allocator.Vcb.TakeCheckpoint` | ntfs-4/logsup.c:1712-1805 | a checkpoint goes on holding back exactly what was in the active list, or nothing if the volume is clean; the active list is empty afterwards, and the count is that of what is held |
| `Allocator.Vcb.Perform` | ntfs-4/bitmpsup.c:962-1700 | every operation but a checkpoint keeps the invariant and what the lists hold back |
| `Allocator.Vcb.Replay` | ntfs-4/bitmpsup.c:778-1905 | over every run: the invariant is kept, and a cluster in the active list stays in it until a checkpoint, and held back and unusable until a second one, or one of a clean volume |
| `Allocator.SomeVolume` | ntfs-4/bitmpsup.c:664-780 | the invariant and the conditions on the geometry can be met, with a usable cluster left |
| `Allocator.ZoneWalkEnds` | ntfs-4/bitmpsup.c:760-763 | the page walk to the zone's end ends if and only if the zone lies on the volume |
| `Allocator.ZoneMayOverrun` | ntfs-4/bitmpsup.c:760-763 | a volume whose zone, as mounted, does not |
| `Codec.ByteCountIsLeast` | ntfs-4/ntfsproc.h:157-171 | the halving search over the bytes finds the least number of bytes in which the number fits two's complement |
| `Codec.SignedLE` | ntfs-4/allocsup.c:2640-2740 | the low bytes of a number, sign-extended, are the number |
| `MappingPairs.EntriesAt` | ntfs-4/mcbsup.c:503-838 | enumerating a map's runs and holes says what the map says |
| `MappingPairs.BuildMappingPairs` | ntfs-4/allocsup.c:2595-2761 | writes exactly the array of the map's part from the lowest VCN to the highest, cut in mid-run and closed with a hole, and returns the last VCN described |
| `MappingPairs.LookupPairs` | ntfs-4/allocsup.c:365-489 | the decoding loop with its corruption checks, tied to a walk over the bytes |
| `MappingPairs.GetHighestVcn` | ntfs-4/allocsup.c:2807-2851 | the loop that only counts, with its unsigned step, and raises for a negative change, on bytes it does not read past |
| `MappingPairs.CheckPairs` | ntfs-4/checksup.c:276-381 | the checker's loop: valid exactly if the walk ends at the record's highest VCN |
| `MappingPairs.ReadRun` | ntfs-4/allocsup.c:365-489 | a run written is a run read: size byte, length, signed distance |
| `MappingPairs.LookupReads` | ntfs-4/allocsup.c:365-489 | decoding an array adds exactly its runs, whatever was loaded before |
| `MappingPairs.RoundTrip` | ntfs-4/allocsup.c:2595-2761 | decoding what was built for a range raises nothing and gives exactly the map in that range, for every run list, start in mid-run and stop |
| `MappingPairs.MapRoundTrip` | ntfs-4/allocsup.c:2595-2761 | the same from map to map: enumerate, build, decode |
| `MappingPairs.LookupAccepts` | ntfs-4/allocsup.c:365-489 | while sums do not wrap, the lookup accepts exactly the well-shaped arrays whose pairs it can load, and ends where they end |
| `MappingPairs.CheckAccepts` | ntfs-4/checksup.c:276-381 | while sums do not wrap, the checker accepts exactly the well-shaped arrays whose pairs lie on the volume, and ends where they end |
| `MappingPairs.SumsFit` | ntfs-4/allocsup.c:365-489 | no sum of VCNs exceeds 63 bits in an array that ends within them |
| `MappingPairs.HighestAccepts` | ntfs-4/allocsup.c:2807-2851 | it reads every well-shaped array and ends where it ends; what it reads without raising is well-shaped if and only if it goes by no size byte of 0x80 or more |
| `MappingPairs.WalkersAgree` | ntfs-4/checksup.c:276-381 | for every built array on the volume the checker accepts, and all four next VCNs are equal, holes included |
| `MappingPairs.HighestAgrees` | ntfs-4/allocsup.c:2807-2851 | on any bytes the lookup accepts, the highest VCN is where the lookup ends |
| `MappingPairs.CheckAgrees` | ntfs-4/checksup.c:276-381 | an array the lookup accepts is accepted by the checker, with the same end, if and only if every run lies on the volume |
| `MappingPairs.CheckedIsLoadable` | ntfs-4/checksup.c:276-381 | while sums do not wrap, an array the checker accepts is accepted by the lookup, with the same end, if and only if every pair has a VCN change and every run on disk ends within 32 bits |
| `MappingPairs.CheckerIsLaxer` | ntfs-4/checksup.c:276-381 | two arrays the checker accepts and the lookup rejects, one for each reason |
| `MappingPairs.EightByteDistance` | ntfs-4/allocsup.c:2825-2846 | eight LCN bytes or more are refused by lookup and checker; the third reader raises if the change is negative, and otherwise takes it and goes on short of the pair's end, or reads outside the bytes |
| `MappingPairs.ShortStepAccepts` | ntfs-4/allocsup.c:2825-2846 | an array that the third reader accepts and the other two refuse |
| `MappingPairs.ShortStepRaises` | ntfs-4/allocsup.c:2825-2846 | an array for which it raises although the first change is not negative |
| `MappingPairs.StepsInPlace` | ntfs-4/allocsup.c:2846 | which size bytes lead it back to themselves in addresses of 32 bits |
| `MappingRecords.GetSizeForMappingPairs` | ntfs-4/allocsup.c:2352-2539 | the size is exactly that of the array of whole runs up to the one it stops in, so building up to the returned stop never takes more; never more than available; it stops at the stop, where the next run does not fit, or not at all |
| `MappingRecords.PredictRoom` | ntfs-4/allocsup.c:2500-2510 | breaking off for lack of room: exact size, and the next run would not have fitted |
| `MappingRecords.PredictStop` | ntfs-4/allocsup.c:2395-2425 | breaking off at the stop: no more than the predicted bytes, and exactly those if the last run is whole |
| `MappingRecords.CutIsSmaller` | ntfs-4/allocsup.c:2417-2424 | cutting the last run never lengthens the array |
| `MappingRecords.AddRecords` | ntfs-4/allocsup.c:2352-2761 | predicting and building record by record, resuming each time at the returned stop, as the last loop of the attribute update does (attrsup.c, lines 6069 to 6182): it terminates, keeps each record in its room, and decodes in total to the map of the whole range |
| `MappingRecords.LoadsMore` | ntfs-4/allocsup.c:365-489 | loading one more record extends the decoded map by exactly its range |
| `Usa.TransformUsaBlock` | ntfs-4/deviosup.c:4434-4507 | on any contents, structure by structure: one that is marked, was never written or has no fitting array is sent out as it is; any other gets the next number but 0 and 0xffff in every sector and the displaced words in its array, and the original's number moves on as far |
| `Usa.TransformAllMeans` | ntfs-4/deviosup.c:4434-4507 | and of the transform |
| `Usa.VerifyAndRevertUsaBlock` | ntfs-4/deviosup.c:4195-4335 | on any contents the verdict is that every structure passes: it was never written, or its header fits and all sectors carry its number, or its header does not fit and it lies in a hole; each is left as it was, restored as far as its sectors agree, or marked, whatever becomes of the others |
| `Usa.RevertAllMeans` | ntfs-4/deviosup.c:4195-4335 | the same of the check as a function, for any buffer |
| `Usa.BumpBoth` | ntfs-4/deviosup.c:4463-4476 | both buffers' numbers are incremented equally often, past 0 and 0xffff |
| `Usa.TransformAt` | ntfs-4/deviosup.c:4478-4496 | what is written, word for word |
| `Usa.RestoreVerdict` | ntfs-4/deviosup.c:4241-4277 | the check succeeds if and only if every sector carries the sequence number; otherwise the structure is marked BAAD |
| `Usa.RestoreTo` | ntfs-4/deviosup.c:4241-4277 | a saved word is put back if and only if its sector and those before it carry the number |
| `Usa.RoundTrip` | ntfs-4/deviosup.c:4195-4335 | a structure written and checked is itself but for its array, whose number has moved on |
| `Usa.RoundTripIff` | ntfs-4/deviosup.c:4213-4217 | the round trip succeeds if and only if the array has the right size |
| `Usa.RoundTripAll` | ntfs-4/deviosup.c:4195-4335 | the round trip over a buffer of many structures |
| `Usa.LockStep` | ntfs-4/deviosup.c:4463-4476 | the original buffer keeps its contents and holds the numbers that went out |
| `Usa.NumbersDiffer` | ntfs-4/deviosup.c:4463-4476 | images fewer than 65534 writes apart carry different numbers |
| `Usa.TornWrite` | ntfs-4/deviosup.c:4195-4335 | any mixture, sector by sector, of successive images is accepted if and only if it is one image, and then gives back its contents; otherwise it is marked BAAD and reported |
| `IoRuns.PlanRead` | ntfs-4/deviosup.c:1647-1868 | for any layout every index lies in the array, the count is at most clusters per unit plus 7, all runs from the penultimate slot on start in one unit, and the runs move exactly the allocated clusters of the range read, in order and packed, each from its place in the stream and none that could be merged with the one before; the plan ends early only before another unit with the default slots full, or at the last unit boundary of a run |
| `IoRuns.PlaceRun` | ntfs-4/deviosup.c:1690-1845 | one allocated run: merged, or put in a slot that exists, cut at a unit boundary if it must be the last |
| `IoRuns.SlotsLeft` | ntfs-4/deviosup.c:1757-1790 | as long as planning goes on, a slot of the grown array is free |
| `IoRuns.SlotsExtend` | ntfs-4/deviosup.c:1698-1750 | merging across holes keeps the runs of the last slots in one unit |
| `IoRuns.PlanUnit` | ntfs-4/deviosup.c:2381-2502 | the runs of one compressed unit stay in the array and move exactly its clusters, each from its place in the stream, after the runs given |
| `IoRuns.SeatedMore` | ntfs-4/deviosup.c:2381-2502 | one more unit keeps every run of a write at its place in its own unit |
| `IoRuns.PlanWrite` | ntfs-4/deviosup.c:1971-2502 | for any compressed sizes and layout the bound on slots holds, the compression buffer is not overrun, and the runs move exactly the clusters of the units written, in order and packed, each from its place in its unit; it stops early only with the default slots full or without room for a unit, and writes no unit past the end of the file |
| `ReservedBuffers.Arbiter.GetReservedBuffer` | ntfs-4/deviosup.c:7766-7882 | the grant from the outstanding ones: without an owner a single request gets buffer 3, 2 or 1 and is refused if and only if all are granted, and one for two if and only if 1 or 2 is granted or another thread has 3 for the file; the owner and other threads likewise; and who owns two buffers then, for which file |
| `ReservedBuffers.GetAnswers` | ntfs-4/deviosup.c:7766-7882 | the same of a request as a function of the globals that account for the grants |
| `ReservedBuffers.Arbiter.FreeReservedBuffer` | ntfs-4/deviosup.c:7897-7932 | the grant goes; the owner owns as long as a buffer of 1 and 2 is granted |
| `ReservedBuffers.FreeOwner` | ntfs-4/deviosup.c:7897-7932 | and of a release |
| `ReservedBuffers.GetKeeps` | ntfs-4/deviosup.c:7766-7882 | the globals account for exactly the outstanding grants after any request |
| `ReservedBuffers.FreeKeeps` | ntfs-4/deviosup.c:7897-7932 | and after any release |
| `ReservedBuffers.RunsAreExclusive` | ntfs-4/deviosup.c:7766-7932 | over every run: buffers 1 and 3 granted at most once, buffer 2 to one thread as often as counted, a two-buffer owner holds 1 or 2 and is the only holder, and no grants means idle globals |
| `ReservedBuffers.GetSeparates` | ntfs-4/deviosup.c:7752-7850 | a request keeps other threads off the files the owner holds buffers for, if and only if it is not one of two kinds |
| `ReservedBuffers.FreeSeparates` | ntfs-4/deviosup.c:7897-7932 | a release always does |
| `ReservedBuffers.RunsSeparate` | ntfs-4/deviosup.c:7752-7932 | over every run: files are separate at all times if and only if no call is one of the two kinds |
| `ReservedBuffers.OwnerTurnsToHeldFile` | ntfs-4/deviosup.c:7777-7785 | a run in which the owner turns to the file of buffer 3 |
| `ReservedBuffers.HeldFileIsAdmitted` | ntfs-4/deviosup.c:7838-7850 | a run in which buffer 3 is given out for a file the owner still holds |
| `Reservation.BitBooked` | ntfs-4/allocsup.c:3070-3094 | reserving or freeing one unit keeps stream total and volume total balanced |
| `Reservation.GrowthBooked` | ntfs-4/allocsup.c:2957-3010 | growth keeps old bits and counts |
| `Reservation.GrowthCovers` | ntfs-4/allocsup.c:2963-2967 | the new bitmap covers the last bit and the stream, in whole quadwords, and no quadword more than that |
| `Reservation.ReservedElsewhere` | ntfs-4/bitmpsup.c:988-992 | the test for clusters reserved elsewhere, which subtracts bytes, against the one in clusters: never stricter, and the same if and only if nothing is reserved or a cluster is a byte |
| `Reservation.LetInTooMuch` | ntfs-4/bitmpsup.c:988-992 | a request that the test as made lets in and the one in clusters refuses |
| `Reservation.Volume.ReserveClusters` | ntfs-4/allocsup.c:2920-3096 | books balanced; every unit newly reserved passed in its turn: the promised clusters with surcharge and the unit were below the free ones, or the stream had reserved its worst case, or it is not written; a refusal is at the first unit that does not pass, or for lack of pool when the bitmap must grow; it grows just when and just as far as needed |
| `Reservation.NotOverpromised` | ntfs-4/allocsup.c:3039-3094 | when units were reserved, the volume promises less than is free, with the surcharge for all but the last unit, unless the stream has reserved what it may still have to allocate, a largest transfer and two units |
| `Reservation.Volume.FreeReservedClusters` | ntfs-4/allocsup.c:3158-3225 | books balanced; no bit of the range is left, others are as before |
| `Reservation.Volume.SeeWriteAccess` | ntfs-4/create.c:9852-9880 | first write access moves the stream's reservation into the volume total; it is refused if and only if there is one and the total with it exceeds the free clusters |
| `Reservation.Volume.DeleteStream` | ntfs-4/strucsup.c:2220-2244 | a deleted stream's reservation leaves the volume total |
| `Reservation.Volume.Replay` | ntfs-4/allocsup.c:2856-3225 | any sequence of calls on any streams keeps the books balanced |
| `CloseQueue.CloseData.QueueClose` | ntfs-4/close.c:969-1018 | the close at the end of its list; reducing starts above the upper bound only; the worker is to be started if and only if the queues become active |
| `CloseQueue.CloseData.RemoveClose` | ntfs-4/close.c:1039-1187 | for a volume: nothing if and only if neither list has a close of it, otherwise the first, asynchronous before delayed; for none: the oldest asynchronous one, else the oldest delayed one if the list is to be reduced and is above the lower bound, else nothing, which ends the reducing and, but for a create, the work; all other closes stay |
| `CloseQueue.RemoveTakes` | ntfs-4/close.c:1039-1187 | the same of the step of the interleavings |
| `CloseQueue.CloseData.FspClose` | ntfs-4/close.c:412-540 | an undisturbed worker takes all asynchronous closes in order, then the oldest delayed ones down to the lower bound, and terminates inactive |
| `CloseQueue.CloseData.FspCloseVolume` | ntfs-4/close.c:412-540 | the undisturbed loop for a volume takes exactly its closes, in order, asynchronous ones first, leaves none, and touches nothing else |
| `CloseQueue.StepKeepsFlags` | ntfs-4/close.c:969-1187 | every step keeps list lengths equal to counts, the flags' implications, and one worker item exactly while active |
| `CloseQueue.StepKeepsCloses` | ntfs-4/close.c:969-1187 | every step keeps each close in one place, and each file's count exact |
| `CloseQueue.RunKeeps` | ntfs-4/close.c:969-1187 | the invariant over every interleaving |
| `CloseQueue.DeliveredOnce` | ntfs-4/close.c:1039-1187 | a close posted once is in exactly one list or taken exactly once |
| `CloseQueue.NothingStranded` | ntfs-4/close.c:985-1012 | at most one worker; with none, no asynchronous close waits and the delayed list is within bounds |
| `PagedCopy.Stream.MovePages` | ntfs-4/cachesup.c:1331-1455 | the page loop, forwards or switched once to backwards, moves the source as it was to the range for any overlap, changes nothing else, terminates, and logs pieces of one page each |
| `PagedCopy.Stream.PutData` | ntfs-4/cachesup.c:1291-1473 | every byte of memory after it: in the range what its source had, or zero for a source in the gap or none; zero in the gap; else as before; the valid length is the maximum of old and new end; the length on disk is raised to the end of the range, or to its start if it went backwards, exactly if the stream was extended |
| `PagedCopy.PutIsMemmove` | ntfs-4/cachesup.c:1307-1325 | the range equals the original source if and only if no nonzero source byte lies in the zeroed gap |
| `PagedCopy.GapLosesSource` | ntfs-4/cachesup.c:1307-1325 | a put whose range does not get its source |
| `PagedCopy.PutFrame` | ntfs-4/cachesup.c:1307-1455 | outside the range only the gap changes |
| `PagedCopy.SwitchedAtOnce` | ntfs-4/cachesup.c:1355-1395 | the direction is switched before the first piece or never |
| `PagedCopy.BackwardsLosesLength` | ntfs-4/cachesup.c:1462-1466 | a put after which the length on disk is behind the valid length |

## Left out

- The defragmenting entry of the cluster allocation, and debug and stress code: they skip the loop's set-up or have no effect on the state.
- Log records, transactions and their undo: an operation of a run ends complete or refused.  Undoing a deallocation would leave clusters both mapped and in the active list, which the invariant excludes.
- The run lists and bitmap routines of the system (`FsRtl*LargeMcb*`, `RtlFind*`, `RtlMoveMemory`) and the NTFS_MCB's ranges: simple functions or loops stand for them; a stream's map is taken to be loaded when it is allocated from.
- Stream control blocks as objects: the allocator and the reservations keep the streams' state by stream number, so aliasing between stream objects is not modelled.
- Accounting of allocated sizes and of the clusters added to the MFT: sums beside the loop.
- 64-bit cluster numbers: VCNs, LCNs and counts are taken to fit in 32 bits, as the code's own casts demand.
- Allocator.Vcb.FillHoles: which cluster the read-ahead starts from after giving up is left open, because the code then uses the numbers of whatever run it looked at last.
- Volume.ReleasedAreHeldBack: not for the bad cluster stream, whose clusters may already be in a list when they are freed; the list then refuses the run.
- MappingRecords.GetSizeForMappingPairs: a stop of the largest 64-bit number, which no caller passes, is not modelled.
- MappingPairs.GetHighestVcn: an array that leads it past the bytes, or has it copy more than eight, is excluded, because what it then reads or overwrites is outside the model.  Addresses are taken to be wide: in 32 bits a step past the bytes leads back, and need not end.
- MappingPairs.LookupAccepts: arrays whose sums wrap at 64 bits, and maps that already hold clusters of the array, whose runs the system's list might refuse.
- MappingPairs.CheckAccepts: arrays whose sums wrap at 64 bits.
- MappingPairs.CheckedIsLoadable: arrays whose sums wrap at 64 bits.
- Allocator.Vcb.FreeBitmapRun: as for its converse, a refused run ends the operation; the undo of what it cleared is not modelled.
- Update sequence arrays of log file pages: their structure size comes from the page itself.
- Compression itself, and uncompressed transfers: the plan takes each unit's compressed size as given.
- IoRuns.PlanWrite: the allocation of each unit is taken as it stands after it was adjusted; the deletions and additions that adjust it are not modelled.
- The choice between reserved buffers and pool, and the waiting and deadlock detection around the arbiter.
- Reservation.Volume.ReserveClusters: bit numbers are not truncated to 32 bits.
- The work of a close (teardown of streams and files) and the resources held by the worker.
- The resident case of the put, and pinning.
- Allocation of MFT records, MFT holes, hot fixing and deletion of attribute allocation: they rest mostly on attribute routines outside this model.
