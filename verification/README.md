# Models of the driver state machines

A Dafny model of the parts of the Linux driver tutorials that hold real state: the shared FIFO character device and its
locking protocol, the RAM disk's request handler, device binding and numbering of the platform driver, the per-minor
FIFOs, the self-requeueing work item, the GPIO pulse timer and the waits on `jiffies`. `dafny verify dfyconfig.toml`
checks everything.

## What is modelled

**Shared FIFO device** (`02.chardrvs`). `SharedFifo` is the device as an interleaved step system: any finite number of
tasks, one program counter each, and a separate step for every lock operation, for both tests of the wait and the
joining of the wait queue, for the read of the other side's counter, for every byte copied, for the publication of a
counter, the wake-up, each of the two reads that make up the free space, the store of `avail` and each release. A copy
may fault at any byte and a signal may arrive at each interruptible point. The ring is the kfifo by its documented
contract: a power-of-two array and two `unsigned int` counters that wrap. The ledgers `sent` and `got` record the bytes
actually copied, faults included. Where the reader's wake-up stands relative to its store of `avail` is a parameter:
`WakeThenStore` is the driver's order. Which counter `kfifo_avail` reads first is another; the results hold for both.
The results:

- Two locks are enough: every interleaving is a run of an atomic bounded queue, however often the counters wrap.
- `avail` agrees with the ring, up to calls that have transferred and not stored, exactly if the size is a power of two
  (setup stores the parameter, the ring has the rounded-up capacity).
- The driver's order can leave a writer asleep although its test holds, the ring has room and everybody else is gone;
  it then sleeps, and all writers behind it wait, until the next read or a signal to it. This is ruled out exactly if
  the count is stored before the wake-up and the capacity was not rounded up.
- A write that passes its wait is a full write in every run exactly if at most one task writes.
- The early return from an interrupted wait keeps the writer lock; no byte enters the ring after it, and nothing else
  loses a lock.
- Without new calls and signals the device halts within a number of steps known in advance, under every schedule.
- `ref_cntr` can exceed the limit by the number of overlapping opens less one, and no more.

`CharDevice` is the same device as one task sees it when nobody else is about, with its fields updated in place on the
in-place ring of `FifoBuffer`; each call is tied to the step system by a run of exactly its own steps. The comment in
`chardrvs.h:32-37` says that `lock` guards the elements of the device structure; the code reads `avail`, `usrs_cnt` and
`ref_cntr` without it, and the model follows the code.

**RAM disk** (`21.ramdisk_blkdev`). The segment loop on arrays, both directions, segments that may overlap in memory,
proved equal to a closed form; over histories the disk is the flat map of last writes; cutting, merging and reordering
requests is proved harmless.

**Platform driver** (`12.pltdrv_attr_dt`). Probe with its four stages and unwinding, remove, and the counter that numbers
the devices; the outcome of every kernel call is a parameter.

**Minor devices** (`03.mcdevdrvs`). A driver object with one ring per minor, calls that start and end as separate steps,
and its projection onto one minor.

**Requeueing and timers** (`05.workqueues`, `14.gpio_pulse`, `04.time`). The account that stops the work item, with the
printed text behind it; the late actions of the pulse timer, and the stores to its field, which are cut to an int after
they have armed the timer, so that a nonzero multiple of 2^32 gives one pulse; the busy loop over a wrapping clock and
the re-arming timer.

Kernel primitives appear by contract: mutexes exclude, `wake_up_interruptible` empties the wait queue, kfifo copies a
prefix and reports it, `__get_user` leaves zero when it fails, a timer runs its callback only once at a time. Memory is
sequentially consistent. Clocks, faults, error codes and allocation results are parameters.

## Model

| member | source | states |
|---|---|---|
| Words.RoundUpIsLeast | linux-device-drivers/02.chardrvs/chardrvs.c:39-40 | the capacity kfifo_alloc gives a request is the least power of two that holds it, and is the request itself exactly for powers of two |
| Kfifo.PushAppends | linux-device-drivers/02.chardrvs/chardrvs.c:91 | a transfer into the ring appends exactly its bytes, whatever the wrapped counters are |
| Kfifo.StoreKeeps | linux-device-drivers/02.chardrvs/chardrvs.c:91 | a byte written past `in` within the free space disturbs neither the queued bytes nor those staged before it |
| Kfifo.PublishAppends | linux-device-drivers/02.chardrvs/chardrvs.c:91 | advancing `in` modulo the word appends exactly the staged bytes |
| Kfifo.ReleaseDrops | linux-device-drivers/02.chardrvs/chardrvs.c:117 | advancing `out` modulo the word drops exactly the oldest bytes |
| FifoBuffer.TransferLength | linux-device-drivers/02.chardrvs/chardrvs.c:91 | how many bytes a copy moves: it passes neither the end nor the room nor the fault, and stops only at one of the three |
| FifoBuffer.Fifo.FromUser | linux-device-drivers/02.chardrvs/chardrvs.c:91 | the in-place copy loop appends the prefix that fits and precedes the fault, and reports the fault and the count |
| FifoBuffer.Fifo.ToUser | linux-device-drivers/02.chardrvs/chardrvs.c:117 | the copy loop hands over the oldest bytes up to the fault and removes exactly those |
| SharedFifoQueue.RefinesBoundedQueue | linux-device-drivers/02.chardrvs/chardrvs.c:82-92 | every interleaving of any number of readers and writers, byte by byte, is a run of an atomic bounded queue whose operations take effect at the counter publications |
| SharedFifoQueue.CopiedOutThenQueuedIsCopiedIn | linux-device-drivers/02.chardrvs/chardrvs.c:82-122 | in every reachable state the bytes copied out, in lock order, followed by the ring contents are the bytes copied in, and the contents fit the capacity |
| SharedFifoQueue.LedgersAreTheOperations | linux-device-drivers/02.chardrvs/chardrvs.c:91-117 | the two ledgers are exactly the bytes of the queue operations of the run, in their order |
| SharedFifoQueue.OpIsTheCallsTransfer | linux-device-drivers/02.chardrvs/chardrvs.c:91-117 | what a publication moves is a prefix of the caller's buffer, or the oldest bytes, and all of the measured room unless the copy faulted |
| SharedFifoQueue.WriterReturnsItsPrefix | linux-device-drivers/02.chardrvs/chardrvs.c:91-104 | the last thing a returning write did to the queue was to append the first bytes of its buffer; it returns their number, which is all the room it measured, or, exactly after a fault, -EFAULT with fewer than that |
| SharedFifoQueue.ReaderReturnsWhatItRemoved | linux-device-drivers/02.chardrvs/chardrvs.c:117-134 | the last thing a returning read did to the queue was to remove the bytes it handed over, at most its count; it returns their number, which is all it measured, or, exactly after a fault, -EFAULT |
| SharedFifoQueue.TransfersExclude | linux-device-drivers/02.chardrvs/chardrvs.c:82-127 | no two writers, no two readers and no two publications overlap in any run |
| SharedFifoQueue.OtherKnows | linux-device-drivers/02.chardrvs/chardrvs.c:91-117 | a step of one side leaves intact what the task of the other side is in the middle of copying |
| SharedFifoCache.CacheAgreesExactlyForPowersOfTwo | linux-device-drivers/02.chardrvs/chardrvs.c:39-42 | in every reachable state `avail` is the free space or some call has transferred and not stored, if and only if the size parameter is a power of two |
| SharedFifoCache.CacheAgreesOnceMoved | linux-device-drivers/02.chardrvs/chardrvs.c:91-127 | for any size, agreement holds in every state after the first transfer |
| SharedFifoCache.CacheStep | linux-device-drivers/02.chardrvs/chardrvs.c:95-97 | the store of a count whose two counters were read earlier, at different times, while others transfer without `lock`, cannot leave a wrong count unless another store is still to come |
| SharedFifoCache.SplitReadRun | linux-device-drivers/02.chardrvs/chardrvs.c:95-97 | a run from setup in which a byte passes through the ring between the two counter reads of a third task, which then stores one more than the capacity, or one less than the free space if `out` was read first |
| SharedFifoWakeups.NeverStrandsExactly | linux-device-drivers/02.chardrvs/chardrvs.c:85-127 | with two tasks or more, no run leaves a writer asleep with its test satisfied and no reader underway, if and only if the store precedes the wake-up and the size is a power of two |
| SharedFifoWakeups.StrandingRun | linux-device-drivers/02.chardrvs/chardrvs.c:117-126 | for every size the driver's order has a signal-free run that ends with a writer asleep, enough room, and all others at rest |
| SharedFifoWakeups.StrandingRunWhenRounded | linux-device-drivers/02.chardrvs/chardrvs.c:39-42 | with a rounded-up capacity a write of nothing strands another writer, whatever the order |
| SharedFifoWakeups.WakeRun | linux-device-drivers/02.chardrvs/chardrvs.c:85-127 | the wake-up invariant holds along every run with the store before the wake-up, faults and signals included |
| SharedFifoProgress.HaltsOnlyWhenFullExactly | linux-device-drivers/02.chardrvs/chardrvs.c:82-135 | as long as no wait is interrupted, the device comes to a halt only at rest or with the front writer needing more than the free space, if and only if the store precedes the wake-up and the size is a power of two |
| SharedFifoProgress.StrandedUntilNextRead | linux-device-drivers/02.chardrvs/chardrvs.c:88-92 | a stranded writer sleeps on, and no byte of any writer enters, in every run without a new read and without a signal to it |
| SharedFifoProgress.InterruptedWaitEndsAllWrites | linux-device-drivers/02.chardrvs/chardrvs.c:88-89 | after a write returns from an interrupted wait no byte enters the ring in any run |
| SharedFifoProgress.LocksComeBackExactlyIfUninterrupted | linux-device-drivers/02.chardrvs/chardrvs.c:82-135 | after a run every taken lock has a holder that will release it, if and only if no wait of the run was interrupted |
| SharedFifoProgress.InterruptedWaitRun | linux-device-drivers/02.chardrvs/chardrvs.c:88-89 | for every size a run from setup of one write and two signals that leaves the task at rest and the writer lock taken |
| SharedFifoProgress.SignalAtLock | linux-device-drivers/02.chardrvs/chardrvs.c:82-83 | a signal while a call waits for its transfer lock ends the call and changes nothing else |
| SharedFifoProgress.SignalToSleeper | linux-device-drivers/02.chardrvs/chardrvs.c:88-89 | a signal takes a sleeping writer to its test: it goes on if the count suffices, and can be interrupted exactly if not |
| SharedFifoDrain.StepsAreBounded | linux-device-drivers/02.chardrvs/chardrvs.c:82-135 | without new calls and signals no run is longer than a number of steps known in advance, whoever is scheduled, in either order and for every size |
| SharedFifoDrain.RunToHalt | linux-device-drivers/02.chardrvs/chardrvs.c:82-135 | from every reachable state the calls underway can be run to a halt |
| SharedFifoDrain.CallsEndOrWaitForRoom | linux-device-drivers/02.chardrvs/chardrvs.c:82-135 | with the store first and a power-of-two size, after any run without an interrupted wait, the calls underway take boundedly many steps in any order, and stop at rest or with the front writer needing more room than there is |
| SharedFifoFullWrites.WritesAlwaysFullExactly | linux-device-drivers/02.chardrvs/chardrvs.c:82-104 | writes that return without a fault have copied their whole buffer in every run, if and only if at most one task writes |
| SharedFifoFullWrites.OneWriterIsFull | linux-device-drivers/02.chardrvs/chardrvs.c:88-104 | with a single writer and any number of readers `avail` bounds the free space from below at both tests, a write past its wait fits, and it returns full |
| SharedFifoFullWrites.ShortWriteRun | linux-device-drivers/02.chardrvs/chardrvs.c:91-97 | two writers, for every size: the second passes its wait on the count the first has not stored yet and returns short |
| SharedFifoSolo.WriteAlone | linux-device-drivers/02.chardrvs/chardrvs.c:75-105 | the steps of one uninterrupted write lead to the ring with exactly its bytes appended and `avail` equal to the free space left |
| SharedFifoSolo.ReadAlone | linux-device-drivers/02.chardrvs/chardrvs.c:107-135 | the steps of one uninterrupted read remove exactly the oldest bytes, empty the wait queue and leave `avail` right |
| CharDevice.Device.Setup | linux-device-drivers/02.chardrvs/chardrvs.c:27-44 | setup leaves an empty ring of the rounded-up capacity and the parameter in `avail`, the initial state of the step systems, or -EINVAL or -ENOMEM and no device |
| CharDevice.Device.WriteFifo | linux-device-drivers/02.chardrvs/chardrvs.c:75-105 | the call sleeps exactly if the count is below its length; otherwise it returns the number of bytes appended, all that fit, or -EFAULT if one of those faults, and result and state are those reached by its own steps in the step system |
| CharDevice.Device.ReadFifo | linux-device-drivers/02.chardrvs/chardrvs.c:107-135 | what is handed over followed by what stays is what was queued; the call returns the number of bytes handed over, the most there are up to its count, or -EFAULT if one of those faults, and result and state are those reached by its own steps |
| CharDevice.Device.Open | linux-device-drivers/02.chardrvs/chardrvs.c:51-63 | open is its guard and its increment in a row, or -EMFILE and no change |
| CharDevice.Device.Release | linux-device-drivers/02.chardrvs/chardrvs.c:65-73 | release is its guard and its decrement in a row |
| CharDevice.Device.SetUsers | linux-device-drivers/02.chardrvs/chardrvs.c:148-153 | the limit changes only for the administrator, to the argument cut to 32 bits, and to zero when it cannot be read |
| OpenCount.OpenersBounded | linux-device-drivers/02.chardrvs/chardrvs.c:55-70 | in every run `ref_cntr` is the number of counted handles, the guard of release always holds, and the largest limit is exceeded by at most the opens in flight less one |
| OpenCount.BoundIsMet | linux-device-drivers/02.chardrvs/chardrvs.c:55-59 | that bound is reached for every limit and every number of opens in flight |
| OpenCount.LimitHoldsExactlyWithoutOverlap | linux-device-drivers/02.chardrvs/chardrvs.c:55-59 | the limit itself holds in every run if and only if no two opens overlap between guard and increment |
| RamDisk.Disk.RequestHandle | linux-device-drivers/21.ramdisk_blkdev/ramdisk_blk.c:128-154 | the segment loop ends at the start plus min(total, room), and leaves disk and memory as one clamped transfer of the concatenated segments does |
| RamDisk.Disk.QueueRq | linux-device-drivers/21.ramdisk_blkdev/ramdisk_blk.c:156-168 | every request ends well and has the handler's effect |
| RamDisk.WriteOneMore | linux-device-drivers/21.ramdisk_blkdev/ramdisk_blk.c:141-149 | clamping segment by segment, on a write, is clamping the concatenation |
| RamDisk.ReadOneMore | linux-device-drivers/21.ramdisk_blkdev/ramdisk_blk.c:141-149 | the same on a read, for windows that may overlap |
| RamDiskHistory.ClampsExactlyBeyondTheEnd | linux-device-drivers/21.ramdisk_blkdev/ramdisk_blk.c:141-142 | some segment is clamped if and only if the request reaches beyond the device |
| RamDiskHistory.CapacityNeverClamps | linux-device-drivers/21.ramdisk_blkdev/ramdisk_blk.c:106-107 | the advertised capacity is the device size, and no request within it is clamped |
| RamDiskHistory.MergePreserves | linux-device-drivers/21.ramdisk_blkdev/ramdisk_blk.c:86 | two adjoining requests of one direction have the effect of the merged one, on disk and memory |
| RamDiskHistory.SegmentationIsIrrelevant | linux-device-drivers/21.ramdisk_blkdev/ramdisk_blk.c:137-152 | the effect depends on the segments only through the memory cells they name in order |
| RamDiskHistory.DiskIsLastWrite | linux-device-drivers/21.ramdisk_blkdev/ramdisk_blk.c:128-154 | after any history each byte is the last write that covers it, or what it was before |
| RamDiskHistory.ReadReturnsLastWrite | linux-device-drivers/21.ramdisk_blkdev/ramdisk_blk.c:79 | from the zeroed disk a read into disjoint segments returns the last write of each byte, or zero |
| RamDiskHistory.OrderOfDisjointWritesIsIrrelevant | linux-device-drivers/21.ramdisk_blkdev/ramdisk_blk.c:128-168 | every permutation of requests that write pairwise disjoint bytes leaves the same disk |
| PlatformDriver.Driver.Acquire | linux-device-drivers/12.pltdrv_attr_dt/pltdrv_attr_dt.c:256-289 | success exactly if no stage fails, else the code of the first that does; all four resources are held after success and none of them after a failure at any stage |
| PlatformDriver.Driver.Probe | linux-device-drivers/12.pltdrv_attr_dt/pltdrv_attr_dt.c:212-290 | success exactly if the description has data and no stage fails; then the device is bound with one of each resource, under base plus its id or plus the number of bound devices, and counted; else nothing is left behind |
| PlatformDriver.ProbeReports | linux-device-drivers/12.pltdrv_attr_dt/pltdrv_attr_dt.c:217-290 | what each failure returns: -ENOMEM for every device-tree error, -EINVAL without data or without memory for the device, and each later stage its own code when all before it succeed |
| PlatformDriver.BoundExactlyIfProbesWentWell | linux-device-drivers/12.pltdrv_attr_dt/pltdrv_attr_dt.c:212-305 | over every run, told from the events alone: bound are exactly the devices whose last probe with data and no failing stage has no removal behind it, each under the number of that probe |
| PlatformDriver.Driver.Remove | linux-device-drivers/12.pltdrv_attr_dt/pltdrv_attr_dt.c:292-305 | remove takes the device, its four resources and its number off the ledger, and leaves the driver as it was before the device was bound if nothing came in between |
| PlatformDriver.UnbindUndoesBind | linux-device-drivers/12.pltdrv_attr_dt/pltdrv_attr_dt.c:274-305 | on the ledger removal is the inverse of a successful probe: resources, counter, numbers and order |
| PlatformDriver.ProbeThenRemove | linux-device-drivers/12.pltdrv_attr_dt/pltdrv_attr_dt.c:212-305 | after any run a probe followed by the removal, if the device was bound at all, leads back to the same state |
| PlatformDriver.ResourcesBalance | linux-device-drivers/12.pltdrv_attr_dt/pltdrv_attr_dt.c:256-305 | over every run of failing and succeeding probes and removes, exactly one of each resource per bound device, none otherwise, and the counter counts the bound devices |
| PlatformDriver.NewestFirstKeepsNumbers | linux-device-drivers/12.pltdrv_attr_dt/pltdrv_attr_dt.c:228-250 | device-tree devices removed newest first hold exactly the numbers from the base up, one each |
| PlatformDriver.SharedNumberMeansOutOfOrder | linux-device-drivers/12.pltdrv_attr_dt/pltdrv_attr_dt.c:228-302 | two bound devices with one number have an out-of-order removal behind them |
| PlatformDriver.ReusedNumberRun | linux-device-drivers/12.pltdrv_attr_dt/pltdrv_attr_dt.c:228-302 | they exist: two probes, the removal of the older device and a third probe leave two devices with one number |
| PlatformDriver.NextNumberFreshExactlyIfNewestRemoved | linux-device-drivers/12.pltdrv_attr_dt/pltdrv_attr_dt.c:228-302 | after any run without an out-of-order removal, one more removal leaves the next number free, and the numbers different once it is taken, if and only if the newest device was removed |
| MinorDevices.MinorsAreIsolated | linux-device-drivers/03.mcdevdrvs/mcdevdrvs.c:37-103 | any run of opens, reads and writes of N devices, calls overlapping as the locks allow, projected onto one minor is a run of that minor's own lossy FIFO with the same results |
| MinorDevices.StepFifo | linux-device-drivers/03.mcdevdrvs/mcdevdrvs.c:43-44 | a step of a call is the step of the lossy FIFO of the minor its file belongs to, and changes no other |
| MinorDevices.FilesAreLastOpened | linux-device-drivers/03.mcdevdrvs/mcdevdrvs.c:37-46 | after every run a file belongs to the minor named by its last open, told from the events alone |
| MinorDevices.CallsReachTheOpenedMinor | linux-device-drivers/03.mcdevdrvs/mcdevdrvs.c:37-103 | from a fresh driver on, the FIFO of a minor has seen exactly the calls on files last opened on it, in their order, with their results |
| MinorDevices.NextCallReaches | linux-device-drivers/03.mcdevdrvs/mcdevdrvs.c:43-44 | after any run the next call moves the FIFO of the minor its file was last opened on, and no other |
| MinorDevices.WriteKeepsThePrefixThatFits | linux-device-drivers/03.mcdevdrvs/mcdevdrvs.c:66-82 | whatever reads go on beside it, a write without a fault returns its full count and keeps the prefix that fitted when it measured, everything exactly if everything fitted; with a fault within what fits it returns -EFAULT and keeps the bytes before it |
| MinorDevices.ReadReturnsWhatItHandsOver | linux-device-drivers/03.mcdevdrvs/mcdevdrvs.c:85-103 | whatever writes go on beside it, a read removes and hands over the oldest bytes, as many as it asked for or found queued, and returns their number, or -EFAULT with those before the fault |
| MinorDevices.AcceptedIsDeliveredOrQueued | linux-device-drivers/03.mcdevdrvs/mcdevdrvs.c:68-93 | over every run of overlapping calls the accepted bytes are delivered or queued in order, faults included |
| MinorDevices.Driver.constructor | linux-device-drivers/03.mcdevdrvs/mcdevdrvs.c:146-152 | every minor starts with an empty ring of its own of the rounded-up capacity |
| MinorDevices.Driver.Open | linux-device-drivers/03.mcdevdrvs/mcdevdrvs.c:37-46 | an open stores the minor that was opened for its file and changes no ring |
| MinorDevices.Driver.Write | linux-device-drivers/03.mcdevdrvs/mcdevdrvs.c:56-83 | a write on the shared array of devices is its start and its end in the abstract driver, result included; interrupted at its lock it is nothing and returns -ERESTARTSYS |
| MinorDevices.Driver.Read | linux-device-drivers/03.mcdevdrvs/mcdevdrvs.c:85-103 | so is a read, with the bytes handed over |
| JustInQueue.LineLengthBounds | linux-device-drivers/05.workqueues/jiq.c:98-101 | the print format puts out between 35 and 99 characters for every clock, pid, cpu and command |
| JustInQueue.NumeralReads | linux-device-drivers/05.workqueues/jiq.c:98-101 | a printed numeral reads back as its number and has no leading zero |
| JustInQueue.NumeralLength | linux-device-drivers/05.workqueues/jiq.c:98-101 | the length of a numeral is the number of decimal digits, both bounds |
| JustInQueue.DecimalReads | linux-device-drivers/05.workqueues/jiq.c:98-101 | a printed integer reads back as itself, sign included |
| JustInQueue.LineExample | linux-device-drivers/05.workqueues/jiq.c:98-101 | a line of the format written out, column by column |
| JustInQueue.PageIsText | linux-device-drivers/05.workqueues/jiq.c:84-106 | the fill of the page is the length of the header and the lines printed, each with the time since the one before, and the record remembers the clock of the last print |
| JustInQueue.LinesBounds | linux-device-drivers/05.workqueues/jiq.c:84-106 | after k prints the page is not full, its fill is at most the account, and the account lies between two parabolas in k |
| JustInQueue.QuadraticBound | linux-device-drivers/05.workqueues/jiq.c:84-106 | on every page size, if every line has at least w characters, k prints satisfy w * k * (k - 1) / 2 <= LIMIT |
| JustInQueue.ClientData.Print | linux-device-drivers/05.workqueues/jiq.c:78-107 | a print takes place exactly within the limit; then the line for the moment is put out, after the header if it is the first, the output so far goes to the account and the clock is remembered; else only the reader is woken |
| JustInQueue.ClientData.PrintWq | linux-device-drivers/05.workqueues/jiq.c:113-133 | the work item is queued again exactly if it printed |
| JustInQueue.ClientData.ReadWqShow | linux-device-drivers/05.workqueues/jiq.c:136-151 | a reading ends with the reader woken and the item not queued, the page holding the header and its lines and never full, after a number of lines between two bounds quadratic in it; 9 to 14 on pages of 4096 bytes |
| GpioPulse.PinFollowsCallbacks | linux-device-drivers/14.gpio_pulse/pltdrv_gpiopulse.c:37-39 | however stores interleave with the callback's steps, after n complete callbacks the pin is (1 + n) mod 2 |
| GpioPulse.LateTogglesAreBounded | linux-device-drivers/14.gpio_pulse/pltdrv_gpiopulse.c:31-58 | after `enablepulse` became zero the pin changes at most twice before the next enabling store, at most once if no callback was running, and once more for each enabling store that has assigned the field and not armed the timer yet |
| GpioPulse.LateTogglesHappen | linux-device-drivers/14.gpio_pulse/pltdrv_gpiopulse.c:31-58 | the number of late changes allowed by the bound is reached from every disabled state |
| GpioPulse.BoundIsReached | linux-device-drivers/14.gpio_pulse/pltdrv_gpiopulse.c:37-58 | from probe on, for every number n of half-done enabling stores, disabling is followed by 2 + n changes with a callback running and 1 + n without |
| GpioPulse.CutKeepsExactlyWhatFits | linux-device-drivers/14.gpio_pulse/pltdrv_gpiopulse.c:48-55 | the stored value is the parsed one exactly if it fits an int, and zero exactly for the multiples of 2^32 |
| GpioPulse.PulsesOnExactly | linux-device-drivers/14.gpio_pulse/pltdrv_gpiopulse.c:55-58 | a nonzero store followed by a callback leaves the timer armed exactly if the value is no multiple of 2^32; a nonzero multiple gives a single change |
| GpioPulse.Pulse.constructor | linux-device-drivers/14.gpio_pulse/pltdrv_gpiopulse.c:191-199 | the pin starts high and the timer armed whatever the property says |
| GpioPulse.Pulse.TimerCbk | linux-device-drivers/14.gpio_pulse/pltdrv_gpiopulse.c:31-43 | an uninterrupted callback is its steps in a row: one change, re-armed exactly if enabled |
| GpioPulse.Pulse.EnablepulseStore | linux-device-drivers/14.gpio_pulse/pltdrv_gpiopulse.c:45-61 | the field takes the int that differs from the parsed value by a multiple of 2^32, the value itself exactly if it fits, while the value before the cut decides on arming; a parse error is returned as it is and changes nothing |
| JitTime.TimeBeforeExactly | linux-device-drivers/04.time/jit.c:72-76 | the wrapped comparison agrees with the true order exactly within half the word range |
| JitTime.BusyWait | linux-device-drivers/04.time/jit.c:67-78 | the loop exits at the first sample at which the delay has passed, across any wrap of the counter |
| JitTime.JudgesRightlyExactly | linux-device-drivers/04.time/jit.c:71-76 | from any start, across any wrap, every sample is judged rightly if and only if samples are at most half the word range apart |
| JitTime.JitData.TimerFn | linux-device-drivers/04.time/jit.c:155-170 | the callback moves the expiry by one delay from the old expiry, not from the clock, and stops at zero loops |
| JitTime.JitData.TimerShow | linux-device-drivers/04.time/jit.c:172-201 | exactly n firings, with the expiries and the times shown of the two lists below |
| JitTime.ExpiryAt | linux-device-drivers/04.time/jit.c:163 | the k-th expiry is the start plus k + 1 delays modulo the word, however late callbacks run |
| JitTime.DeltaAt | linux-device-drivers/04.time/jit.c:158-164 | the k-th time shown is that since the callback before, the first that since the start, modulo the word |
| JitTime.DeltasTelescope | linux-device-drivers/04.time/jit.c:158-164 | the times shown add up to the time from the start to the last callback |

## Left out

- Module init and exit, class, cdev, proc, debugfs and sysfs registration, except as acquire and release in the probe ledger: kernel plumbing.
- The implementations of kfifo, mutex, wait queue, timer and block layer: stated by contract, under sequential consistency.
- Sizes of zero, negative sizes and sizes above 2^31 for kfifo_alloc: rounding them up is undefined in the kernel.
- poll, the proc and debugfs files, the two query ioctls and the check of ioctl numbers: they read single fields.
- Read and write counts beyond 32 bits: the system call layer cuts them below that.
- The start of a request beyond the device end: the block layer keeps requests within the advertised capacity, and the handler relies on it.
- SharedFifoProgress.HaltsOnlyWhenFullExactly: speaks of runs in which no wait is interrupted, because that keeps the writer lock for good; what it leads to is InterruptedWaitEndsAllWrites.
- The bytes of a call on a minor device one by one: between its start and its end the copying is one step there; that byte by byte makes no difference is shown in SharedFifoQueue.
- The exact instants at which timers fire, and removal of the pulse device while its timer runs: the timer is armed or not.
- The error path of mcdevdrvs_init: its loops start at the failing index, so release there is not balanced as written.
- The signal exit of jit_timer_show and the lifetime of its data, and the two cases of jit_fn_show that leave the waiting to the kernel.
- The tasklet and timer files of jiq, and several of its files read at once: their wait ends only on a signal, and they share one record.
- kernelnewbies, pltdrv, pltdrv_attr: simpler copies of the modelled cores. virtbus, pltdevs_load, dummy-usb-ttl-drv: registration only. ds1307, virt_tty, cp2102, PCI and KVM: hardware access with little state.
