# Verified model of the driver chapters

A Dafny 4.11 model of the stateful parts of the repository: the Linux driver modules, the log-buffer and
partition-table experiments, and the STUN probe.  Code that updates state in place is modelled by classes and
methods over arrays, heap nodes and fields; each method is tied to a specification function or predicate, and
what the source promises is proved about those for all inputs, all runs and all sizes (the literals 6, 2, 4, 8192
and 160 of the sources are arbitrary numbers here).

`dafny verify dfyconfig.toml` checks the whole project.

| file | models |
|---|---|
| `IrqBottomHalf.dfy`, `IrqDriver.dfy` | `09-irq-bottom-half/irqbh.c`: every interleaving of handler, bottom half and unload; the toggle loop on a virtual clock |
| `ListMsg.dfy` | `07-list-head/listmsg.c`: the circular list on the heap and its readers |
| `Ramdisk.dfy` | `04-char-block-net/block/ramdisk.c`: segment transfer and runs of requests |
| `LogRing.dfy`, `LogObserver.dfy` | the byte-budgeted log buffer and `rbfill.c`, which observes it |
| `Stun.dfy` | `tools/remote-access/stun_probe.py`: request and response parser |
| `Mbr.dfy`, `MountTable.dfy` | `ptab_lab.c`: MBR codec, damage and reread, mount lookup |
| `CharDevice.dfy` | `twodev.c` and `misc_echo.c` |
| `Registration.dfy` | the init, unwind and exit functions of twodev, ramdisk, mmapbuf and irqbh |
| `MmapBuffer.dfy` | `11-mmap/mmapbuf.c` |
| `TextLoops.dfy`, `PrintBlock.dfy` | `print_arr`, `drain_until`, `print_block` |
| `Text.dfy`, `Bytes.dfy`, `Errno.dfy` | shared: C text conversions, byte spans, results |

## Assumptions

What the code relies on but does not decide enters as the guard of a step or as a precondition:

- The kernel clears the pending bit of a work item before it calls the function and never runs an item
  concurrently with itself; `free_irq` waits for handlers and the irq thread; `cancel_work_sync` waits for the
  function.  In threaded mode each wake-up leads to one run of the thread function, as the comment at irqbh.c:17-19
  claims; the kernel, not this code, decides that.
- In the timed run a worker that is idle starts at once, and an interrupt at the very instant a run ends is scheduled
  before the worker looks again.
- The block layer hands over requests within the capacity, and the segments of a read do not overlap.
- The log buffer is a FIFO with a byte budget and consecutive record numbers, as
  `02-log-levels/docs/kernel-log-buffer.md` describes it; record texts contain no NUL and no newline, and
  a record fits one read.
- The kernel makes a partition node for each entry with sectors when the signature is valid, and none otherwise.
- Each driver call is one atomic step, a file is used by one thread at a time, and a descriptor in use is not handed out
  again.
- Mappings are page aligned.  The first store to a page of a private mapping moves the page to an anonymous frame that
  is outside the buffer and in use for nothing else (`MAP_PRIVATE` is copy on write).
- Attaching a medium with partscan scans it; without partscan, and detached, it has no partition nodes.
- Failing allocations, faulting user addresses and failing registrations are parameters of the methods.

## Results that qualify the source

- Interrupts merge exactly when `n >= 2` and `(n-1) * gap <= (n-2) * body` (`MergesExactlyWhenTooFast`).
- The order inside the handler and the order of the unload calls are each necessary: with either one turned round a
  concrete run loses an interrupt, or releases the pin while work is queued.
- `LISTMSG_CLEAR` leaves every open reader safe exactly when every other reader is at end of file
  (`ListMsg.Device.Clear`); `ClearUnderReader` is a run that leaves one on freed memory.
- The test `rbfill` makes for a buffer of its own is passed by records of others that contain the tag
  (`ForeignRecordPassesForOwn`).
- A failed `bh_init` leaves nothing behind exactly when it is not the final `misc_register` that failed.
- `mkpt` writes a partition that ends with the disk exactly when `2048 <= total < 2048 + 2^32`.
- The mapping is right exactly for page-aligned buffers.
- `mbuf_mmap` accepts private mappings, and a store through one never reaches the buffer (`PrivateStoreIsLost`): what is
  stored is read if and only if the mapping is shared (`StoreIsReadExactlyIfShared`).
- Whether unloading drops a queued run depends on the schedule; it can exactly when one is pending or a handler is in
  flight (`UnloadCanDropExactlyWhatIsDue`).
- `rbfill` may say that the first record of the baseline is still there when it is gone (`GoneButSaidToBeThere`).
- The first number `rbfill` reports is the least of the tagged records only from behind the last tagged record without
  a number on (`FirstTaggedIsLeast`); such a record hides smaller numbers before it (`NumberlessLineHidesSmaller`).
- The lines of the message list tell the messages apart if no message holds a newline; with one in it a message can read
  like two (`NewlineMakesTwo`).
- The per-record length `rbfill` assumes is right exactly for record numbers up to 99999.

## Model

| member | source | states |
|---|---|---|
| `IrqBottomHalf.StepKeepsInv` | 09-irq-bottom-half/irqbh.c:45-88 | every atomic step of handler, bottom half and unload keeps conservation of interrupts, "a stale observation is followed by a due one", and the unload facts |
| `IrqBottomHalf.RunKeepsInv` | 09-irq-bottom-half/irqbh.c:45-88 | so does every run, whatever the interleaving |
| `IrqBottomHalf.ReachableInv` | 09-irq-bottom-half/irqbh.c:121-170 | the invariant holds in every state reachable from the interrupt request on |
| `IrqBottomHalf.NoInterruptUnobserved` | 09-irq-bottom-half/irqbh.c:45-71 | hits = runs + merged + cancelled + pending + in flight in every interleaving; once settled the last run's `hit` equals `irq_hits` |
| `IrqBottomHalf.CountingFirstIsWhatObservesAll` | 09-irq-bottom-half/irqbh.c:63-71 | of the two orders of counting and scheduling, exactly the handler's leaves no interrupt unobserved |
| `IrqBottomHalf.SchedulingFirstLosesAnInterrupt` | 09-irq-bottom-half/irqbh.c:63-71 | a run of the opposite order that settles with one interrupt never seen |
| `IrqBottomHalf.ThreadedNeverMerges` | 09-irq-bottom-half/irqbh.c:17-19 | a consequence of the assumption of one run per wake-up: in threaded mode every interrupt is accounted for by a run of its own |
| `IrqBottomHalf.WorkIsBounded` | 09-irq-bottom-half/irqbh.c:45-71 | without new interrupts every schedule of the remaining steps is finite, bounded by the work left |
| `IrqBottomHalf.EveryScheduleSettles` | 09-irq-bottom-half/irqbh.c:45-71 | a schedule that can go no further has observed every interrupt, or run once for each |
| `IrqBottomHalf.UnloadLeavesNothingRunning` | 09-irq-bottom-half/irqbh.c:161-170 | on every run, when the pin is released nothing is active, queued or able to start |
| `IrqBottomHalf.UnloadCanDropExactlyWhatIsDue` | 09-irq-bottom-half/irqbh.c:161-170 | once the interrupt is being freed, some schedule drops a queued run if and only if one is pending or a handler is in flight; some schedule always drops none |
| `IrqBottomHalf.FreeFirstIsTheOnlySafeOrder` | 09-irq-bottom-half/README.md:86 | that holds for `free_irq` before `cancel_work_sync` and for no other order |
| `IrqBottomHalf.CancelFirstReleasesUnderPendingWork` | 09-irq-bottom-half/README.md:86 | a run of the opposite order that releases the pin under queued work |
| `IrqDriver.Driver.HardHandler` | 09-irq-bottom-half/irqbh.c:63-71 | the handler is its three atomic steps in order |
| `IrqDriver.Driver.HandOff` | 09-irq-bottom-half/irqbh.c:66-70 | schedules the work, merging with a pending one, or wakes the thread |
| `IrqDriver.Driver.CountRun` | 09-irq-bottom-half/irqbh.c:47 | counts the run and yields its number |
| `IrqDriver.Driver.StartRun` | 09-irq-bottom-half/irqbh.c:45-88 | pending is cleared before the run is counted, and counted before `wq_fn` reads `irq_hits` |
| `IrqDriver.Driver.FreeIrq` | 09-irq-bottom-half/irqbh.c:164 | a run of the protocol with any activity of handlers and bottom half during the wait: handlers finish and hand off, the irq thread serves every wake-up |
| `IrqDriver.Driver.CancelWorkSync` | 09-irq-bottom-half/irqbh.c:165 | a queued run is dropped, a running one reaches its end |
| `IrqDriver.Driver.Exit` | 09-irq-bottom-half/irqbh.c:161-170 | in either mode, with handlers in flight and any activity during the waits: unloading is a run of the protocol that ends dead, with interrupts conserved, and observed unless a queued run was dropped, which was then queued or in flight at the start |
| `IrqDriver.Driver.ToggleLoop` | 09-irq-bottom-half/irqbh.c:148-153 | n toggles of `i & 1` from low give n edges, all accounted for; in workqueue mode the expected number of runs, the last of which has seen all n; in threaded mode n runs |
| `IrqDriver.MergesExactlyWhenTooFast` | 09-irq-bottom-half/irqbh.c:17-19 | fewer runs than interrupts exactly when the last interrupt arrives before the run before last is over |
| `IrqDriver.ChapterCases` | 09-irq-bottom-half/README.md:74-77 | 120 ms spacing gives 6 runs of 6, 5 ms spacing gives 3 |
| `ListMsg.LineDecodes` | 07-list-head/listmsg.c:79-80 | a formatted line determines its number and its message up to the first NUL |
| `ListMsg.ReadsSplitBack` | 07-list-head/listmsg.c:67-91 | the joined lines of all reads split at their newlines into the messages with the numbers 1, 2, ... if none holds a newline |
| `ListMsg.NewlineMakesTwo` | 07-list-head/listmsg.c:79-80 | where that condition is needed: one message with a newline reads like two |
| `ListMsg.LineFits` | 07-list-head/listmsg.c:71-80 | the line buffer is large enough for every message and every number an int can hold |
| `ListMsg.Device.AddTail` | 07-list-head/listmsg.c:61 | next and prev stay mutually inverse round the ring, which grows at its end |
| `ListMsg.Device.Publish` | 07-list-head/listmsg.c:60-63 | ring, counter and message sequence grow together; no safe cursor becomes unsafe |
| `ListMsg.Device.Write` | 07-list-head/listmsg.c:40-65 | appends the message cut to 120 bytes, or fails without a change to the list and with its node freed |
| `ListMsg.Device.Read` | 07-list-head/listmsg.c:67-91 | gives exactly the next numbered line of the sequence, advances this cursor only, stays at end of file |
| `ListMsg.Device.Open` | 07-list-head/listmsg.c:93-106 | a new reader starts at the first message of the current generation |
| `ListMsg.Device.ReadersAgree` | 07-list-head/listmsg.c:37-38 | readers of one generation are shown prefixes of one another |
| `ListMsg.Device.Count` | 07-list-head/listmsg.c:119-125 | the counter is the length of the message sequence |
| `ListMsg.Device.FreeAll` | 07-list-head/listmsg.c:129-132 | the clearing loop ends, every node is freed exactly once, the head loops to itself |
| `ListMsg.Device.Clear` | 07-list-head/listmsg.c:126-138 | empties the list; all readers are safe afterwards if and only if every other one was at end of file, and one that was not is left on a freed node |
| `ListMsg.ClearUnderReader` | 07-list-head/listmsg.c:126-138 | a run that ends with an open reader on a freed node |
| `ListMsg.Device.Exit` | 07-list-head/listmsg.c:166-177 | everything ever allocated is freed |
| `Ramdisk.Disk.TransferWrite` | 04-char-block-net/block/ramdisk.c:24-43 | the segments land one after the other from the start sector on, nothing else changes |
| `Ramdisk.Disk.TransferRead` | 04-char-block-net/block/ramdisk.c:24-43 | every segment receives its part of the disk, no other byte of any page changes |
| `Ramdisk.Disk.ReceivedJoins` | 04-char-block-net/block/ramdisk.c:30-42 | joined, the segments of a served read are the span of the flat disk, however they are cut |
| `Ramdisk.QueueRq` | 04-char-block-net/block/ramdisk.c:46-55 | a request in either direction does to the disk, and yields, what its joined form does |
| `Ramdisk.ServeAll` | 04-char-block-net/block/ramdisk.c:24-55 | any run of segmented requests leaves the disk as the run of their joined forms; a write brings what its pages held; every read puts out what the flat disk held when it was served, and its pages keep that until a later read goes there |
| `Ramdisk.DiskIsLastWrites` | 04-char-block-net/block/ramdisk.c:24-55 | after any run a byte is that of the last write covering it, or zero |
| `Ramdisk.ReadsReturnLastWrites` | 04-char-block-net/block/ramdisk.c:24-55 | a read anywhere in a run returns what the last writes before it left |
| `Ramdisk.MergingIsInvisible` | 04-char-block-net/block/ramdisk.c:28-42 | adjacent writes may be merged, or one cut into pieces, anywhere in a run |
| `Ramdisk.ReorderingIsInvisible` | 04-char-block-net/block/ramdisk.c:28-42 | requests on disjoint ranges may be swapped anywhere in a run |
| `LogRing.TrimIsLongestFit` | 02-log-levels/docs/kernel-log-buffer.md:60-121 | making room drops the oldest records, and only as many as needed |
| `LogRing.AppendKeeps` | 02-log-levels/docs/kernel-log-buffer.md:105-116 | record numbers stay consecutive |
| `LogRing.AppendStaysWithinBudget` | 02-log-levels/docs/kernel-log-buffer.md:60-61 | the byte budget is kept |
| `LogRing.Kmsg.Append` | 02-log-levels/docs/kernel-log-buffer.md:85-121 | one new record, dropping from the front one at a time |
| `LogRing.AdvanceCountsEvictions` | 02-log-levels/docs/kernel-log-buffer.md:112-116 | the advance of the oldest number is the number of records pushed out, for records of any cost from any writers |
| `LogRing.FillReachesSteadyState` | 02-log-levels/docs/kernel-log-buffer.md:85-101 | exactly which records survive k writes, whatever mix the buffer first held |
| `LogObserver.ParseInvertsFormat` | 02-log-levels/experiments/log-buffer-fill/rbfill.c:106-118 | parsing a record gives its number and text, whatever the other fields |
| `LogObserver.NumberMissing` | 02-log-levels/experiments/log-buffer-fill/rbfill.c:111-118 | without a semicolon a line is all text, without a comma before it there is no number |
| `LogObserver.SampleRing` | 02-log-levels/experiments/log-buffer-fill/rbfill.c:76-141 | for any read results, the summary of everything delivered before the first ending result; the following rows say what delivered and summary are |
| `LogObserver.SamplingEndsAt` | 02-log-levels/experiments/log-buffer-fill/rbfill.c:89-104 | the records before the first result that is neither a record nor an interruption are delivered; overrun holds exactly if that result is EPIPE |
| `LogObserver.InterruptionsDoNotMatter` | 02-log-levels/experiments/log-buffer-fill/rbfill.c:91-93 | an interrupted read makes no difference anywhere |
| `LogObserver.SummaryMeans` | 02-log-levels/experiments/log-buffer-fill/rbfill.c:120-132 | total, first and last number, and the copies of the first and last text of at most 127 characters; tagged is the number of entries whose text contains the tag |
| `LogObserver.TaggedIsCounted` | 02-log-levels/experiments/log-buffer-fill/rbfill.c:130-131 | the running count is the number of tagged indices, in any mixture of records |
| `LogObserver.TextBytesAdd` | 02-log-levels/experiments/log-buffer-fill/rbfill.c:121 | the text length is additive over any division of the records |
| `LogObserver.FirstTaggedIsLeast` | 02-log-levels/experiments/log-buffer-fill/rbfill.c:130-136 | the first number is the least of the tagged entries and the copy is of the first such entry, counted from behind the last tagged entry with a negative number |
| `LogObserver.NoFirstWithoutTag` | 02-log-levels/experiments/log-buffer-fill/rbfill.c:130-136 | it is negative exactly if no tagged entry follows there |
| `LogObserver.NumberlessLineHidesSmaller` | 02-log-levels/experiments/log-buffer-fill/rbfill.c:132 | a tagged line without a number makes the observer forget a smaller number |
| `LogObserver.DrainDelivers` | 02-log-levels/experiments/log-buffer-fill/rbfill.c:89-137 | a quiet buffer is seen record by record, complete and in order |
| `LogObserver.WriteAndWatch` | 02-log-levels/experiments/log-buffer-fill/rbfill.c:224-243 | the loop, with others appending ahead of and behind every write: after each turn the buffer is that of the run; peak and wrap point over the sampled boundaries; it ends at the first failing write |
| `LogObserver.SessionConserves` | 02-log-levels/experiments/log-buffer-fill/rbfill.c:266-268 | with other writers appending at any point between samples: live before + appended = live in the end + advance of the oldest number |
| `LogObserver.OldestRises` | 02-log-levels/docs/kernel-log-buffer.md:105-116 | on a baseline that is not empty the oldest number never goes back |
| `LogObserver.AloneIsFilled` | 02-log-levels/experiments/log-buffer-fill/rbfill.c:228-234 | without other writers the run is the one of the steady-state results |
| `LogObserver.Fill` | 02-log-levels/experiments/log-buffer-fill/rbfill.c:224-268 | baseline total + appended = final total + advance of the oldest number, with other writers ahead of and behind every write; peak and wrap point as characterised below |
| `LogObserver.WrapIsFirstBoundaryAfterEviction` | 02-log-levels/experiments/log-buffer-fill/rbfill.c:242-243 | the wrap point is the first sampled boundary at or after the first eviction, if reached |
| `LogObserver.NoEvictionNoWrap` | 02-log-levels/experiments/log-buffer-fill/rbfill.c:242-243 | no eviction, or an empty baseline: never reported |
| `LogObserver.PeakIsMaximum` | 02-log-levels/experiments/log-buffer-fill/rbfill.c:224-241 | the peak is reached at a sampled boundary and exceeded at none |
| `LogObserver.PayloadLength` | 02-log-levels/experiments/log-buffer-fill/rbfill.c:229-279 | the assumed text length is right exactly for numbers up to 99999 |
| `LogObserver.PayloadReadsBack` | 02-log-levels/experiments/log-buffer-fill/rbfill.c:229-230 | a record of the run is the tag, a number of at least five digits that reads back, and the padding |
| `LogObserver.SteadyStateSample` | 02-log-levels/experiments/log-buffer-fill/rbfill.c:277-291 | in the steady state the count is floor(capacity / cost), all tagged, the oldest record is the first tagged one, each write advances its number by one, the text adds up |
| `LogObserver.AllTagged` | 02-log-levels/experiments/log-buffer-fill/rbfill.c:278 | the test for a buffer of its own holds exactly when every record contains the tag |
| `LogObserver.ForeignRecordPassesForOwn` | 02-log-levels/experiments/log-buffer-fill/rbfill.c:278 | a buffer that passes the test without a record of the run |
| `LogObserver.StillThereIsWrongExactlyIf` | 02-log-levels/experiments/log-buffer-fill/rbfill.c:270-271 | the answer whether the baseline's first record is still there is wrong exactly if it is gone and the one now first shows its text |
| `LogObserver.StillThereIsRight` | 02-log-levels/experiments/log-buffer-fill/rbfill.c:270-271 | it is right all along if no other record, there at first or appended, shows that text |
| `LogObserver.GoneButSaidToBeThere` | 02-log-levels/experiments/log-buffer-fill/rbfill.c:270-271 | a run with an empty first text in which it is wrong |
| `Stun.ParseResponse` | tools/remote-access/stun_probe.py:34-55 | computes the specified outcome, exceptions included, for any bytes; the following rows pin that outcome byte by byte |
| `Stun.OneXorMappedAddress` | tools/remote-access/stun_probe.py:34-55 | the answer to an XOR-MAPPED-ADDRESS differs from the value bytes in exactly the bits of 0x2112 in the port and of 21 12 A4 42 in the address |
| `Stun.OneMappedAddress` | tools/remote-access/stun_probe.py:34-55 | the answer to a MAPPED-ADDRESS is port and address as they stand there |
| `Stun.XorBit` | tools/remote-access/stun_probe.py:51-53 | a bit of the exclusive or is set exactly if one of the two numbers has it |
| `Stun.ShortAddresses` | tools/remote-access/stun_probe.py:44-54 | an address shorter than eight bytes is skipped, one cut off by the end of the data raises |
| `Stun.OtherMessages` | tools/remote-access/stun_probe.py:35-41 | what is shorter than a header, of another type or without the cookie is answered with nothing |
| `Stun.ParseInvertsEncode` | tools/remote-access/stun_probe.py:34-55 | from any well-formed response the last XOR-MAPPED-ADDRESS as encoded, else the last MAPPED-ADDRESS, whatever else it holds |
| `Stun.WalkTlv` | tools/remote-access/stun_probe.py:44-54 | type, length, value and padding read back as written, the walk goes on right behind |
| `Stun.XoredReadsBack` | tools/remote-access/stun_probe.py:50-53 | the obfuscated address and port decode to the original |
| `Stun.NotedAllKeepsLast` | tools/remote-access/stun_probe.py:42-55 | of each kind the last attribute wins |
| `Stun.RequestIsNotAResponse` | tools/remote-access/stun_probe.py:29-31 | a request is 20 bytes, carries its id and is never taken for a response |
| `Mbr.Le32InvertsPutLe32` | 00-dev-and-partitions/experiments/partition-table-lab/ptab_lab.c:93-102 | reading a written word gives the word |
| `Mbr.PutLe32InvertsLe32` | 00-dev-and-partitions/experiments/partition-table-lab/ptab_lab.c:93-102 | writing a read word gives the bytes |
| `Mbr.ParseInvertsImage` | 00-dev-and-partitions/experiments/partition-table-lab/ptab_lab.c:132-167 | parsing what mkpt wrote gives one partition from sector 2048 on and three empty entries |
| `Mbr.ImageByBytes` | 00-dev-and-partitions/experiments/partition-table-lab/ptab_lab.c:151-167 | the written sector byte by byte: disk signature, type, start, count, 55 AA, zeros elsewhere |
| `Mbr.EntryByBytes` | 00-dev-and-partitions/experiments/partition-table-lab/ptab_lab.c:132-136 | entry e is read from offset 446 + 16 e, numbers least significant byte first |
| `Mbr.HeaderByBytes` | 00-dev-and-partitions/experiments/partition-table-lab/ptab_lab.c:119-120 | the disk signature is read at 440, and the table is valid exactly if 55 AA is at the end |
| `Mbr.PartitionFillsDisk` | 00-dev-and-partitions/experiments/partition-table-lab/ptab_lab.c:155-157 | start + count is the disk size exactly for sizes in [2048, 2048 + 2^32) |
| `Mbr.CorruptionIsSelective` | 00-dev-and-partitions/experiments/partition-table-lab/ptab_lab.c:177-199 | what each mode destroys and spares; after any of them a scan finds nothing |
| `Mbr.CorruptionByBytes` | 00-dev-and-partitions/experiments/partition-table-lab/ptab_lab.c:177-199 | the bytes each mode clears; every other byte of the sector stays |
| `Mbr.NodesAreTheLastScan` | 00-dev-and-partitions/experiments/partition-table-lab/ptab_lab.c:203-372 | in every run the nodes are the kernel's view of the medium at the last successful reread, attach or detach |
| `Mbr.ScanIs` | 00-dev-and-partitions/README.md:160-170 | a scan makes node n exactly if the table is valid and entry n, which says where, is not empty |
| `Mbr.NoScanNoChange` | 00-dev-and-partitions/experiments/partition-table-lab/ptab_lab.c:442-447 | without one of these the nodes never change |
| `Mbr.LabOutcome` | 00-dev-and-partitions/experiments/partition-table-lab/ptab_lab.c:425-468 | without partscan the written table stays unseen; with it the node is there, survives the damage, is gone after the reread, comes back the same when the table is rewritten, and goes with the medium |
| `Mbr.BlockDev.Mkpt` | 00-dev-and-partitions/experiments/partition-table-lab/ptab_lab.c:151-173 | writes the image to the medium and leaves the nodes alone |
| `Mbr.BlockDev.Corrupt` | 00-dev-and-partitions/experiments/partition-table-lab/ptab_lab.c:177-199 | the three in-place edits |
| `Mbr.BlockDev.Reread` | 00-dev-and-partitions/experiments/partition-table-lab/ptab_lab.c:203-212 | only a successful reread changes the nodes; without partscan it fails |
| `Mbr.BlockDev.Attach` | 00-dev-and-partitions/experiments/partition-table-lab/ptab_lab.c:328-360 | attaching scans the medium exactly with partscan |
| `MountTable.FindMount` | 00-dev-and-partitions/experiments/partition-table-lab/ptab_lab.c:254-288 | not found exactly if nothing matches; else source, directory and type are each the field of that name of the last of the longest matches, its first 255 characters |
| `MountTable.FindLongest` | 00-dev-and-partitions/experiments/partition-table-lab/ptab_lab.c:254-288 | for absolute paths and directories of at most 255 characters: the answered directory is the longest mount point above the path, with source and type of the last entry mounted there; nothing exactly if there is none |
| `MountTable.UnderIsComponentPrefix` | 00-dev-and-partitions/experiments/partition-table-lab/ptab_lab.c:272 | the character test is the component-wise prefix test, for all strings |
| `MountTable.BestIsLongestMountPoint` | 00-dev-and-partitions/experiments/partition-table-lab/ptab_lab.c:254-288 | for absolute paths the answer is the longest mount point above the path, unique, and the last entry mounted there |
| `CharDevice.ReadsJoinToMessage` | 04-char-block-net/char/misc_echo.c:23-46 | reads of any sizes join to the stored message without gap or repetition |
| `CharDevice.EndOfFileIsReached` | 04-char-block-net/char/misc_echo.c:29-32 | once the sizes reach the end every read is empty |
| `CharDevice.WriteThenRead` | 05-char-device-full/twodev.c:49-83 | what was written is read back, cut to the limit in force |
| `CharDevice.InstancesAreIsolated` | 05-char-device-full/twodev.c:40-105 | under any schedule of calls on descriptors, an instance, its open files, their positions and every reply are as if only the calls that reach it through them had been made |
| `CharDevice.ForeignCallKeeps` | 05-char-device-full/twodev.c:40-105 | a call that reaches another instance changes neither the instance nor any file open on it |
| `CharDevice.OwnCallAgrees` | 05-char-device-full/twodev.c:40-105 | a call reaches its instance, with the same outcome, whatever else is open |
| `CharDevice.Driver.Open` | 05-char-device-full/twodev.c:40-47 | a new file leads to the instance of the opened node |
| `CharDevice.Driver.Serve` | 05-char-device-full/twodev.c:49-105 | on the heap: a call reaches the instance its file was opened on; every other instance and file shows the same as before |
| `CharDevice.File.Write` | 05-char-device-full/twodev.c:49-64 | new content and length, or after a fault arbitrary bytes under the old length |
| `CharDevice.File.Read` | 05-char-device-full/twodev.c:66-83 | the next bytes and the new position, which moves only on delivery |
| `CharDevice.File.SetBufsz` | 05-char-device-full/twodev.c:97-105 | accepts exactly 1 to 256, which is then the limit; refused or faulting it leaves the limit |
| `CharDevice.LimitIsSet` | 05-char-device-full/twodev.c:89-105 | after an accepted limit every descriptor of the instance answers it; after a refused or faulting call, the one before |
| `CharDevice.WriteObeysLimit` | 05-char-device-full/twodev.c:49-105 | a write is accepted up to the limit last set, through whichever descriptors, and reads join to what was accepted |
| `CharDevice.LimitLeavesContent` | 05-char-device-full/twodev.c:97-105 | setting the limit changes nothing any descriptor reads |
| `CharDevice.OnlySetChangesLimit` | 05-char-device-full/twodev.c:40-105 | no other call, and no call on another instance, changes the limit |
| `CharDevice.FaultyWriteKeepsLength` | 05-char-device-full/twodev.c:57-60 | a faulting write keeps length, limit and the bytes beyond what it was to copy |
| `CharDevice.OpenStartsAtFront` | 05-char-device-full/twodev.c:40-47 | a new file reads its instance from the front |
| `CharDevice.ReleaseCloses` | 05-char-device-full/twodev.c:40-47 | a released descriptor leads nowhere, can be opened again, and no other file notices |
| `Registration.TwodevInit` | 05-char-device-full/twodev.c:132-178 | succeeds exactly if no step fails; a failure at any step leaves what was registered before |
| `Registration.TwodevExit` | 05-char-device-full/twodev.c:180-191 | gives back, once each, what init registered |
| `Registration.RamdiskInit` | 04-char-block-net/block/ramdisk.c:73-129 | the goto chain undoes exactly what had been done |
| `Registration.RamdiskExit` | 04-char-block-net/block/ramdisk.c:131-139 | gives back, once each, what init registered |
| `Registration.MmapbufInit` | 11-mmap/mmapbuf.c:104-131 | every reserved page is unreserved again when registration fails |
| `Registration.MmapbufExit` | 11-mmap/mmapbuf.c:133-145 | gives back buffer, pages and device once each |
| `Registration.IrqbhInit` | 09-irq-bottom-half/irqbh.c:121-159 | a failed load leaves nothing exactly when it is not the last step that failed |
| `Registration.IrqbhExit` | 09-irq-bottom-half/irqbh.c:161-170 | gives back device, interrupt and pin |
| `MmapBuffer.TranslationIsExactForAlignedBuffers` | 11-mmap/mmapbuf.c:73-79 | offset o translates to phys + o for all offsets exactly when the buffer is page aligned |
| `MmapBuffer.Machine.Mmap` | 11-mmap/mmapbuf.c:60-86 | accepts exactly offset 0 and lengths within the buffer, shared or private; the page table starts out inside the buffer |
| `MmapBuffer.State.PteIsInside` | 11-mmap/mmapbuf.c:60-86 | an access stays at its own offset of the buffer unless its page was copied; then the mapping is private and the frame is that page's alone |
| `MmapBuffer.Machine.Store` | 11-mmap/mmapbuf.c:59-86 | through a shared mapping one byte of the buffer changes; through a private one the page is copied first and the copy changes; beyond the mapping it faults |
| `MmapBuffer.Machine.Read` | 11-mmap/mmapbuf.c:46-57 | the read call sees the shared bytes |
| `MmapBuffer.BufferIsLastSharedStores` | 11-mmap/mmapbuf.c:14-86 | after any run the buffer holds at each offset the byte of the last store through any shared mapping, or the initial one |
| `MmapBuffer.OnlyCopiesChangeOutside` | 11-mmap/mmapbuf.c:59-86 | no run changes a byte of memory outside the buffer, but in the frames handed out for private copies |
| `MmapBuffer.ReadsSeeLastSharedStore` | 11-mmap/mmapbuf.c:46-86 | after any run of mappings of either kind, stores and reads, a read call and a load through any shared mapping return at each offset the byte of the last store through any shared mapping, or the initial one |
| `MmapBuffer.PrivateLoadSeesItsCopy` | 11-mmap/README.md:117 | a load through a private mapping sees the buffer until the page is first stored to through it, then the copy made at that moment and its own stores only |
| `MmapBuffer.StoreIsReadExactlyIfShared` | 11-mmap/mmapbuf.c:60-71 | what is stored through a mapping is what the read call sees if and only if the mapping is shared |
| `MmapBuffer.PrivateStoreIsLost` | 11-mmap/mmapbuf.c:60-71 | an accepted private mapping, a store and a read call that returns the old byte; the entry then points outside the buffer |
| `TextLoops.Scnprintf` | 03-module-param/param_demo.c:191-194 | appends what fits and keeps the buffer the cut of the unbounded text |
| `TextLoops.PrintArr` | 03-module-param/param_demo.c:186-196 | exactly the first size-1 characters of the full rendering |
| `TextLoops.RenderingReadsBack` | 03-module-param/param_demo.c:186-196 | the rendering is the name, the count in brackets and the numbers in braces; count and numbers, negative ones included, read back |
| `TextLoops.DrainUntil` | 02-log-levels/experiments/console-path/run_pty.c:59-106 | for any terminal output: what an unbounded buffer would receive, cut to cap - 1 and NUL-terminated inside the buffer |
| `TextLoops.ReceivedIs` | 02-log-levels/experiments/console-path/run_pty.c:67-105 | what is received: the chunks before the event that ends the loop, joined, and, if the child has exited, its last pieces up to the first empty read |
| `TextLoops.WaitsDoNotMatter` | 02-log-levels/experiments/console-path/run_pty.c:78-92 | a poll in vain or an interruption makes no difference anywhere |
| `PrintBlock.PrintBlock` | 02-log-levels/experiments/console-path/run_pty.c:109-138 | lines cut, stripped in place and blank ones dropped; only the unfinished last line keeps its blanks |
| `PrintBlock.StripIs` | 02-log-levels/experiments/console-path/run_pty.c:121-134 | what is stripped off the end is carriage returns, and blanks where asked, and nothing else, and all of them |
| `PrintBlock.LinesAreShown` | 02-log-levels/experiments/console-path/run_pty.c:119-127 | each further complete line adds its beginning, stripped of blanks too, or nothing if nothing is left |
| `PrintBlock.RestIsShown` | 02-log-levels/experiments/console-path/run_pty.c:132-136 | so is the unfinished last line, with its blanks |
| `PrintBlock.DrainAndShow` | 02-log-levels/experiments/console-path/run_pty.c:59-138 | drained and printed, the received text is shown line by line up to its first NUL or the end of the buffer |
| `PrintBlock.CutShowsFirstLines` | 02-log-levels/experiments/console-path/run_pty.c:59-138 | a buffer too small for the text still shows its first lines |
| `PrintBlock.SplitIsComplete` | 02-log-levels/experiments/console-path/run_pty.c:119-136 | the lines and the rest that are shown make up the whole text |
| `PrintBlock.SplitIsUnique` | 02-log-levels/experiments/console-path/run_pty.c:119-130 | there is one way only to see a text as complete lines and a rest |
| `PrintBlock.NormalLinesAreNormal` | 02-log-levels/experiments/console-path/run_pty.c:120-126 | what is shown is non-empty, fits, and ends in neither blank nor carriage return |
| `PrintBlock.CrLfIsUndone` | 02-log-levels/experiments/console-path/run_pty.c:108-126 | clean lines sent with CR LF come back as they were |

## Left out

- IrqBottomHalf.NoInterruptUnobserved: does not model the 32-bit wrap-around of the atomic counters.
- ListMsg.Device.Read: requires a cursor that does not dangle, because reading through freed memory has no defined result; `Clear` says exactly when that is so.
- ListMsg.Device.Read: the unlocked end-of-file test before the lock is part of the atomic step.
- LogObserver.Fill: nobody writes during a sample, so a sample never meets an overrun; nor does opening the buffer for one fail.
- Stun.ParseResponse: the dotted rendering of an address by inet_ntoa is not modelled; addresses are four bytes.
- Mbr.BlockDev.Corrupt: an unknown mode, which ends the program before it writes, is not modelled.
- Registration.TwodevInit: the result of class_create, which the source does not check, and the error value of a failed device_create are not modelled.
- CharDevice.File.Read: the unlocked length check is part of the atomic step.
- TextLoops.DrainUntil: the clock and poll are replaced by the sequence of outcomes they lead to.
- The read calls of irqbh and the ioctl TWODEV_DOUBLE: they would add only easy members.
- Mappings that outlive the module, documented as a simplification at mmapbuf.c:137-139.
- Finding a free loop device, terminal output, sockets, NAT advice, and the remaining chapters: I/O or weaker copies of what is modelled.
